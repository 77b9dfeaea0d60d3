/**
 * Small worked oceans: single ticks computed on concrete layouts.
 */
module Scenarios {
  import opened Wrappers
  import opened Cells
  import opened Grids
  import opened Neighbors
  import opened Creatures
  import opened Behaviour
  import opened Ticks
  import opened Rendering
  import opened Preset
  import opened Text

  /** A one-row ocean, nothing processed. */
  function Row(cells: seq<Cell>): Ocean {
    Ocean(|cells|, 1, [cells], [seq(|cells|, _ => false)])
  }

  /** The two-cell ocean `X ` whose predator has no time left before starving. */
  function Starving(): Ocean {
    Row([Predator(0, 0, 5, 5, 0, 0), Empty(1, 0)])
  }

  /** Two Empty cells, both marked processed. */
  function Cleared(): Ocean {
    Ocean(2, 1, [[Empty(0, 0), Empty(1, 0)]], [[true, true]])
  }

  /** The two positions of a one-row, two-cell ocean in scan order. */
  lemma PairScanOrder()
    ensures ScanOrder(2, 1) == [(0, 0), (1, 0)]
  {
    assert RowSpan(0, 2, 2) == [];
    assert RowSpan(0, 1, 2) == [(1, 0)];
    assert RowSpan(0, 0, 2) == [(0, 0), (1, 0)];
    assert Box(1, 1, 0, 2) == [];
  }

  /** First turn: the starving predator at (0, 0) dies where it stands. */
  lemma StarvingTurn(draws: seq<nat>)
    requires |draws| >= 2
    ensures var m := Reset(Starving()).Mark(0, 0);
      var a := CellAct(m, 0, 0, draws);
      a.ocean.data == Cleared().data && a.ocean.processed == [[true, false]] && a.draws == draws
  {
    var m := Reset(Starving()).Mark(0, 0);
    assert m.data[0][0] == Predator(0, 0, 5, 5, 0, 0);
    assert m.processed[0] == [true, false];
    assert m.processed == [[true, false]];
    PredatorStarves(m, m.data[0][0], draws);
    var d := Update(m.data, 0, 0, Empty(0, 0));
    assert d[0] == [Empty(0, 0), Empty(1, 0)];
    assert d == Cleared().data;
  }

  /** Second turn: the Empty cell left at (1, 0) does nothing. */
  lemma EmptyTurn(o: Ocean, draws: seq<nat>)
    requires o.width == 2 && o.height == 1 && o.data == Cleared().data && o.processed == [[true, false]]
    requires |draws| >= 2
    ensures Scan(o, [(1, 0)], draws).ocean == Cleared()
  {
    assert o.Valid();
    assert !o.processed[0][1];
    var m := o.Mark(1, 0);
    assert m.processed[0] == [true, true];
    assert m.processed == [[true, true]];
    assert m == Cleared();
    assert CellAct(m, 1, 0, draws).ocean == m;
  }

  /** The glyphs of two Empty cells in one row. */
  lemma ClearedImage()
    ensures Render(Cleared()) == "  \n"
  {
    assert RowImage(Cleared().data[0]) == "  ";
    assert Lines(Cleared().data) == ["  "];
  }

  /** A predator whose starvation countdown is 0 dies in the first tick,
      leaving two Empty cells. */
  lemma ImmediateStarvation(draws: seq<nat>)
    requires |draws| >= 4
    ensures Render(Tick(Starving(), draws).ocean) == "  \n"
  {
    var o0 := Reset(Starving());
    var ps := ScanOrder(2, 1);
    PairScanOrder();
    assert !o0.processed[0][0];
    var a := CellAct(o0.Mark(0, 0), 0, 0, draws);
    StarvingTurn(draws);
    assert ps[1..] == [(1, 0)];
    EmptyTurn(a.ocean, a.draws);
    assert Tick(Starving(), draws).ocean == Scan(a.ocean, ps[1..], a.draws).ocean;
    ClearedImage();
  }

  /** A layout holding a glyph that is none of the four is refused at that glyph. */
  lemma UnknownGlyphScenario(p: Params)
    ensures NewOcean("\nZ", 1, 1, p) == Failure(InvalidInitialState(0, 0, 'Z'))
  {
    assert DropFirst("\nZ") == "Z";
    assert Split("Z") == ["Z"];
    assert KindOfImage('Z') == None;
  }

  /** A glyph that lands outside the grid raises the index error, even when a
      later glyph is unknown. */
  lemma OutsideBeforeUnknownScenario(p: Params)
    ensures NewOcean("\nOOZ", 1, 1, p) == Failure(IndexOutOfRange(1, 0))
  {
    assert DropFirst("\nOOZ") == "OOZ";
    assert Split("OOZ") == ["OOZ"];
    assert KindOfImage('O') == Some(PreyKind);
    assert "OOZ"[1..] == "OZ";
  }
}
