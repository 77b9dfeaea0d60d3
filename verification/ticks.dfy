/**
 * `Ocean.Act`: one tick. The processed mask is cleared, then every position
 * is visited row by row, left to right; a position not yet marked is marked
 * and its current occupant acts. Creatures mark the positions they move or
 * give birth into, so none of them acts twice in one tick.
 */
module Ticks {
  import opened Wrappers
  import opened Cells
  import opened Grids
  import opened Neighbors
  import opened Creatures
  import opened Behaviour

  /** One act-step of a tick: the position visited and the cell that acted there. */
  datatype Turn = Turn(x: nat, y: nat, actor: Cell)

  /** The ocean after (part of) a tick, the draws left over and the turns taken. */
  datatype Ticked = Ticked(ocean: Ocean, draws: seq<nat>, turns: seq<Turn>)

  /** The order `Ocean.Act` visits positions in: row by row, left to right. */
  function ScanOrder(w: nat, h: nat): (r: seq<(int, int)>)
    ensures forall p :: p in r <==> InBounds(w, h, p.0, p.1)
    ensures |r| == h * w
    ensures RowMajor(r)
  {
    BoxSize(0, h, 0, w);
    Box(0, h, 0, w)
  }

  /** The ocean at the start of a tick: the same cells, nothing processed. */
  function Reset(o: Ocean): (r: Ocean)
    requires o.Valid()
    ensures r.Valid() && r.width == o.width && r.height == o.height && r.data == o.data
    ensures forall j, i :: InBounds(o.width, o.height, i, j) ==> !r.processed[j][i]
  {
    o.(processed := Fill(o.width, o.height, false))
  }

  predicate AllInside(o: Ocean, ps: seq<(int, int)>) {
    forall p :: p in ps ==> InBounds(o.width, o.height, p.0, p.1)
  }

  /**
   * The loop of `Ocean.Act` over the positions `ps`: a marked position is
   * skipped; otherwise it is marked, its occupant acts, and a turn is
   * recorded. Each act takes at most two draws.
   */
  function Scan(o: Ocean, ps: seq<(int, int)>, draws: seq<nat>): (r: Ticked)
    requires o.Valid() && AllInside(o, ps) && |draws| >= 2 * |ps|
    ensures Evolves(o, r.ocean)
    ensures TookAtMost(draws, r.draws, 2 * |ps|)
    decreases |ps|
  {
    if |ps| == 0 then Ticked(o, draws, [])
    else
      var x: nat, y: nat := ps[0].0, ps[0].1;
      assert ps[0] in ps;
      if o.processed[y][x] then
        var rest := Scan(o, ps[1..], draws);
        Ticked(rest.ocean, rest.draws, rest.turns)
      else
        var marked := o.Mark(x, y);
        MarkEvolves(o, x, y);
        var a := CellAct(marked, x, y, draws);
        EvolvesTransitive(o, marked, a.ocean);
        assert forall p :: p in ps[1..] ==> p in ps;
        var rest := Scan(a.ocean, ps[1..], a.draws);
        EvolvesTransitive(o, a.ocean, rest.ocean);
        TookSum(draws, a.draws, rest.draws, 2, 2 * (|ps| - 1));
        Ticked(rest.ocean, rest.draws, [Turn(x, y, o.data[y][x])] + rest.turns)
  }

  /**
   * One tick of `Ocean.Act`. The ocean keeps its dimensions, no obstacle
   * appears or disappears, and at most two draws per position are taken.
   */
  function Tick(o: Ocean, draws: seq<nat>): (r: Ticked)
    requires o.Valid() && |draws| >= 2 * (o.height * o.width)
    ensures r.ocean.Valid() && r.ocean.width == o.width && r.ocean.height == o.height
    ensures forall j, i :: InBounds(o.width, o.height, i, j) ==>
      (o.data[j][i].Obstacle? <==> r.ocean.data[j][i].Obstacle?)
    ensures TookAtMost(draws, r.draws, 2 * (o.height * o.width))
  {
    Scan(Reset(o), ScanOrder(o.width, o.height), draws)
  }

  /** After the scan every position it went over is marked processed. */
  lemma {:induction false} ScanMarksAll(o: Ocean, ps: seq<(int, int)>, draws: seq<nat>)
    requires o.Valid() && AllInside(o, ps) && |draws| >= 2 * |ps|
    ensures forall p :: p in ps ==> Scan(o, ps, draws).ocean.processed[p.1][p.0]
    decreases |ps|
  {
    if |ps| > 0 {
      var x: nat, y: nat := ps[0].0, ps[0].1;
      assert ps[0] in ps;
      assert forall p :: p in ps[1..] ==> p in ps;
      var r := Scan(o, ps, draws);
      if o.processed[y][x] {
        ScanMarksAll(o, ps[1..], draws);
      } else {
        var marked := o.Mark(x, y);
        var a := CellAct(marked, x, y, draws);
        ScanMarksAll(a.ocean, ps[1..], a.draws);
        assert a.ocean.processed[y][x];
      }
      assert forall p :: p in ps ==> p == ps[0] || p in ps[1..];
    }
  }

  /** A tick leaves every position of the ocean marked processed. */
  lemma TickMarksAll(o: Ocean, draws: seq<nat>)
    requires o.Valid() && |draws| >= 2 * (o.height * o.width)
    ensures forall j, i :: InBounds(o.width, o.height, i, j) ==> Tick(o, draws).ocean.processed[j][i]
  {
    var ps := ScanOrder(o.width, o.height);
    var r := Scan(Reset(o), ps, draws);
    ScanMarksAll(Reset(o), ps, draws);
    forall j, i | InBounds(o.width, o.height, i, j) ensures r.ocean.processed[j][i] {
      assert (i, j) in ps;
    }
  }

  function Pos(t: Turn): (int, int) {
    (t.x, t.y)
  }

  /** Turns strictly in row-major order of their positions: no position twice. */
  predicate InOrder(ts: seq<Turn>) {
    forall a, b :: 0 <= a < b < |ts| ==> Before(Pos(ts[a]), Pos(ts[b]))
  }

  /** Every turn is taken at one of the positions `ps`. */
  predicate TakenAt(ts: seq<Turn>, ps: seq<(int, int)>) {
    forall a :: 0 <= a < |ts| ==> Pos(ts[a]) in ps
  }

  lemma ConsTakenAt(t: Turn, rest: seq<Turn>, ps: seq<(int, int)>)
    requires |ps| > 0 && Pos(t) == ps[0] && TakenAt(rest, ps[1..])
    ensures TakenAt([t] + rest, ps)
  {
    forall a | 0 <= a < |[t] + rest| ensures Pos(([t] + rest)[a]) in ps {
      if a > 0 {
        assert ([t] + rest)[a] == rest[a - 1];
        assert Pos(rest[a - 1]) in ps[1..];
      }
    }
  }

  lemma ConsInOrder(t: Turn, rest: seq<Turn>)
    requires InOrder(rest) && forall b :: 0 <= b < |rest| ==> Before(Pos(t), Pos(rest[b]))
    ensures InOrder([t] + rest)
  {
    var ts := [t] + rest;
    forall a, b | 0 <= a < b < |ts| ensures Before(Pos(ts[a]), Pos(ts[b])) {
      assert ts[b] == rest[b - 1];
      if a > 0 {
        assert ts[a] == rest[a - 1];
      }
    }
  }

  /** Positions after the first of a row-major sequence come after it. */
  lemma FirstBeforeRest(ps: seq<(int, int)>, q: (int, int))
    requires RowMajor(ps) && |ps| > 0 && q in ps[1..]
    ensures Before(ps[0], q)
  {
    var c :| 0 <= c < |ps[1..]| && ps[1..][c] == q;
    assert ps[c + 1] == q;
  }

  lemma RowMajorTail(ps: seq<(int, int)>)
    requires RowMajor(ps) && |ps| > 0
    ensures RowMajor(ps[1..])
  {
    forall a, b | 0 <= a < b < |ps[1..]| ensures Before(ps[1..][a], ps[1..][b]) {
      assert ps[1..][a] == ps[a + 1] && ps[1..][b] == ps[b + 1];
    }
  }

  /** Every turn of the scan is taken at one of its positions. */
  lemma {:induction false} ScanTurnsTakenAt(o: Ocean, ps: seq<(int, int)>, draws: seq<nat>)
    requires o.Valid() && AllInside(o, ps) && |draws| >= 2 * |ps|
    ensures TakenAt(Scan(o, ps, draws).turns, ps)
    decreases |ps|
  {
    if |ps| > 0 {
      var x: nat, y: nat := ps[0].0, ps[0].1;
      assert ps[0] in ps;
      assert forall p :: p in ps[1..] ==> p in ps;
      if o.processed[y][x] {
        ScanTurnsTakenAt(o, ps[1..], draws);
        forall a | 0 <= a < |Scan(o, ps[1..], draws).turns|
          ensures Pos(Scan(o, ps[1..], draws).turns[a]) in ps
        {
          assert Pos(Scan(o, ps[1..], draws).turns[a]) in ps[1..];
        }
      } else {
        var marked := o.Mark(x, y);
        var a := CellAct(marked, x, y, draws);
        ScanTurnsTakenAt(a.ocean, ps[1..], a.draws);
        ConsTakenAt(Turn(x, y, o.data[y][x]), Scan(a.ocean, ps[1..], a.draws).turns, ps);
      }
    }
  }

  /** The turns of a scan over row-major positions are in row-major order,
      so no position, and no cell, takes two turns in one scan. */
  lemma {:induction false} ScanTurnsInOrder(o: Ocean, ps: seq<(int, int)>, draws: seq<nat>)
    requires o.Valid() && AllInside(o, ps) && |draws| >= 2 * |ps| && RowMajor(ps)
    ensures InOrder(Scan(o, ps, draws).turns)
    decreases |ps|
  {
    if |ps| > 0 {
      var x: nat, y: nat := ps[0].0, ps[0].1;
      assert ps[0] in ps;
      assert forall p :: p in ps[1..] ==> p in ps;
      RowMajorTail(ps);
      if o.processed[y][x] {
        ScanTurnsInOrder(o, ps[1..], draws);
      } else {
        var marked := o.Mark(x, y);
        var a := CellAct(marked, x, y, draws);
        var rest := Scan(a.ocean, ps[1..], a.draws).turns;
        ScanTurnsInOrder(a.ocean, ps[1..], a.draws);
        ScanTurnsTakenAt(a.ocean, ps[1..], a.draws);
        forall b | 0 <= b < |rest| ensures Before(ps[0], Pos(rest[b])) {
          FirstBeforeRest(ps, Pos(rest[b]));
        }
        ConsInOrder(Turn(x, y, o.data[y][x]), rest);
      }
    }
  }

  /** A tick visits positions in row-major order, each at most once, and
      only positions inside the ocean. */
  lemma TickTurnsInOrder(o: Ocean, draws: seq<nat>)
    requires o.Valid() && |draws| >= 2 * (o.height * o.width)
    ensures InOrder(Tick(o, draws).turns)
    ensures forall t :: t in Tick(o, draws).turns ==> InBounds(o.width, o.height, t.x, t.y)
  {
    var ps := ScanOrder(o.width, o.height);
    var ts := Scan(Reset(o), ps, draws).turns;
    assert Tick(o, draws).turns == ts;
    ScanTurnsInOrder(Reset(o), ps, draws);
    ScanTurnsTakenAt(Reset(o), ps, draws);
    forall t | t in ts ensures InBounds(o.width, o.height, t.x, t.y) {
      var a :| 0 <= a < |ts| && ts[a] == t;
      assert Pos(ts[a]) in ps;
    }
  }

  /** Each turn of `ts` is taken inside `o0` by the cell that stood there in
      `o0` or by an Empty cell. */
  predicate ActorsOriginal(o0: Ocean, ts: seq<Turn>)
    requires o0.Valid()
  {
    forall a :: 0 <= a < |ts| ==>
      InBounds(o0.width, o0.height, ts[a].x, ts[a].y)
      && (ts[a].actor == o0.data[ts[a].y][ts[a].x] || ts[a].actor.Empty?)
  }

  lemma ConsActorsOriginal(o0: Ocean, t: Turn, rest: seq<Turn>)
    requires o0.Valid() && InBounds(o0.width, o0.height, t.x, t.y)
    requires t.actor == o0.data[t.y][t.x] || t.actor.Empty?
    requires ActorsOriginal(o0, rest)
    ensures ActorsOriginal(o0, [t] + rest)
  {
    forall a | 0 <= a < |[t] + rest|
      ensures InBounds(o0.width, o0.height, ([t] + rest)[a].x, ([t] + rest)[a].y)
        && (([t] + rest)[a].actor == o0.data[([t] + rest)[a].y][([t] + rest)[a].x]
            || ([t] + rest)[a].actor.Empty?)
    {
      if a > 0 {
        assert ([t] + rest)[a] == rest[a - 1];
      }
    }
  }

  /**
   * The cell that takes a turn is the one that stood at that position when
   * the tick began, or an Empty cell left behind by a move, a death or a
   * kill: nothing that has arrived at a position during the tick acts there.
   */
  lemma {:induction false} ScanActorsOriginal(o0: Ocean, o: Ocean, ps: seq<(int, int)>, draws: seq<nat>)
    requires Evolves(o0, o) && AllInside(o, ps) && |draws| >= 2 * |ps|
    ensures ActorsOriginal(o0, Scan(o, ps, draws).turns)
    decreases |ps|
  {
    if |ps| > 0 {
      var x: nat, y: nat := ps[0].0, ps[0].1;
      assert ps[0] in ps;
      assert forall p :: p in ps[1..] ==> p in ps;
      if o.processed[y][x] {
        ScanActorsOriginal(o0, o, ps[1..], draws);
        assert Scan(o, ps, draws).turns == Scan(o, ps[1..], draws).turns;
      } else {
        ScanActorsActing(o0, o, ps, draws);
      }
    }
  }

  /** The step of `ScanActorsOriginal` at an unmarked first position. */
  lemma {:induction false} ScanActorsActing(o0: Ocean, o: Ocean, ps: seq<(int, int)>, draws: seq<nat>)
    requires Evolves(o0, o) && AllInside(o, ps) && |draws| >= 2 * |ps|
    requires |ps| > 0 && InBounds(o.width, o.height, ps[0].0, ps[0].1) && !o.processed[ps[0].1][ps[0].0]
    ensures ActorsOriginal(o0, Scan(o, ps, draws).turns)
    decreases |ps|, 0
  {
    var x: nat, y: nat := ps[0].0, ps[0].1;
    assert forall p :: p in ps[1..] ==> p in ps;
    var marked := o.Mark(x, y);
    var a := CellAct(marked, x, y, draws);
    EvolvesTransitive(o0, o, a.ocean);
    var rest := Scan(a.ocean, ps[1..], a.draws);
    ScanActorsOriginal(o0, a.ocean, ps[1..], a.draws);
    ConsActorsOriginal(o0, Turn(x, y, o.data[y][x]), rest.turns);
    assert Scan(o, ps, draws).turns == [Turn(x, y, o.data[y][x])] + rest.turns;
  }

  /** In a tick, each cell that acts is the occupant of its position at the
      tick's start, or Empty. */
  lemma TickActorsOriginal(o: Ocean, draws: seq<nat>)
    requires o.Valid() && |draws| >= 2 * (o.height * o.width)
    ensures forall t :: t in Tick(o, draws).turns ==>
      InBounds(o.width, o.height, t.x, t.y) && (t.actor == o.data[t.y][t.x] || t.actor.Empty?)
  {
    var o0 := Reset(o);
    assert Evolves(o0, o0);
    var ts := Tick(o, draws).turns;
    ScanActorsOriginal(o0, o0, ScanOrder(o.width, o.height), draws);
    forall t | t in ts
      ensures InBounds(o.width, o.height, t.x, t.y) && (t.actor == o.data[t.y][t.x] || t.actor.Empty?)
    {
      var a :| 0 <= a < |ts| && ts[a] == t;
    }
  }

  /** The scan keeps every creature's counters within their cycles. */
  lemma {:induction false} ScanInRange(o: Ocean, ps: seq<(int, int)>, draws: seq<nat>)
    requires o.Valid() && AllInside(o, ps) && |draws| >= 2 * |ps| && AllInRange(o.data)
    ensures AllInRange(Scan(o, ps, draws).ocean.data)
    decreases |ps|
  {
    if |ps| > 0 {
      var x: nat, y: nat := ps[0].0, ps[0].1;
      assert ps[0] in ps;
      assert forall p :: p in ps[1..] ==> p in ps;
      if o.processed[y][x] {
        ScanInRange(o, ps[1..], draws);
      } else {
        var marked := o.Mark(x, y);
        CellActInRange(marked, x, y, draws);
        var a := CellAct(marked, x, y, draws);
        ScanInRange(a.ocean, ps[1..], a.draws);
      }
    }
  }

  /** A tick keeps every creature's counters within their cycles. */
  lemma TickInRange(o: Ocean, draws: seq<nat>)
    requires o.Valid() && |draws| >= 2 * (o.height * o.width) && AllInRange(o.data)
    ensures AllInRange(Tick(o, draws).ocean.data)
  {
    ScanInRange(Reset(o), ScanOrder(o.width, o.height), draws);
  }
}
