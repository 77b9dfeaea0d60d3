/**
 * Building an ocean from a preset layout (`Ocean.ParseInitialState`, called
 * from `Ocean.__init__` through `GetData`). The grid starts out filled with
 * a placeholder; the layout's first character is dropped, the rest is split
 * on newlines, and each glyph of line `y`, column `x` is written to
 * `data[y][x]` as a fresh cell of its kind, scanning in reading order. An
 * unknown glyph raises `ValueError`; a glyph beyond the grid raises
 * `IndexError` (the grid is a list of lists); the first of these, in
 * reading order, ends the parse.
 */
module Preset {
  import opened Wrappers
  import opened Cells
  import opened Grids
  import opened Text
  import opened Rendering

  /** A grid slot during construction: still the placeholder, or a cell. */
  datatype Slot = Unset | Filled(cell: Cell)

  type Slots = seq<seq<Slot>>

  datatype ParseError =
    | InvalidInitialState(x: nat, y: nat, glyph: char)  // the `ValueError`
    | IndexOutOfRange(x: nat, y: nat)                    // the `IndexError`
    | Uninitialized                                      // a placeholder left in the grid

  /** `field[1:]`: the first character is a delimiter. */
  function DropFirst(field: string): string {
    if |field| == 0 then "" else field[1..]
  }

  /** The slot a glyph read at (x, y) turns into. */
  function GlyphSlot(ch: char, x: nat, y: nat, p: Params): Slot {
    match KindOfImage(ch)
    case None => Unset
    case Some(k) => Filled(NewCell(k, x, y, p))
  }

  /** Every glyph of `line`, read from column `x` of row `y` on, is known and
      falls inside a `w` by `h` grid. */
  predicate LineOk(line: string, x: nat, y: nat, w: nat, h: nat) {
    forall k :: 0 <= k < |line| ==> KindOfImage(line[k]).Some? && y < h && x + k < w
  }

  predicate LinesOk(lines: seq<string>, y: nat, w: nat, h: nat) {
    forall k :: 0 <= k < |lines| ==> LineOk(lines[k], 0, y + k, w, h)
  }

  /** `e` is what the parse raises at the first bad glyph of `line` (read from
      column `x` of row `y`): all glyphs before it are fine. */
  predicate RaisedInLine(e: ParseError, line: string, x: nat, y: nat, w: nat, h: nat) {
    match e
    case InvalidInitialState(ex, ey, ch) =>
      ey == y && x <= ex < x + |line| && line[ex - x] == ch && KindOfImage(ch).None?
      && LineOk(line[..ex - x], x, y, w, h)
    case IndexOutOfRange(ex, ey) =>
      ey == y && x <= ex < x + |line| && KindOfImage(line[ex - x]).Some? && (ey >= h || ex >= w)
      && LineOk(line[..ex - x], x, y, w, h)
    case Uninitialized => false
  }

  /** The inner loop, over the glyphs of one line. */
  function ParseLine(slots: Slots, w: nat, h: nat, line: string, x: nat, y: nat, p: Params)
    : (r: Result<Slots, ParseError>)
    requires Shaped(slots, w, h)
    ensures r.Success? <==> LineOk(line, x, y, w, h)
    ensures r.Success? ==> Shaped(r.value, w, h) && forall j, i :: 0 <= j < h && 0 <= i < w ==>
      r.value[j][i] == if j == y && x <= i < x + |line| then GlyphSlot(line[i - x], i, j, p) else slots[j][i]
    ensures r.Failure? ==> RaisedInLine(r.error, line, x, y, w, h)
    decreases |line|
  {
    if |line| == 0 then Success(slots)
    else
      match KindOfImage(line[0])
      case None => Failure(InvalidInitialState(x, y, line[0]))
      case Some(k) =>
        if y >= h || x >= w then Failure(IndexOutOfRange(x, y))
        else
          var r := ParseLine(Update(slots, x, y, Filled(NewCell(k, x, y, p))), w, h, line[1..], x + 1, y, p);
          LineShift(line, x, y, w, h);
          assert r.Failure? ==> RaisedInLine(r.error, line, x, y, w, h) by {
            if r.Failure? {
              RaisedShift(r.error, line, x, y, w, h);
            }
          }
          r
  }

  lemma LineShift(line: string, x: nat, y: nat, w: nat, h: nat)
    requires |line| > 0
    ensures LineOk(line, x, y, w, h)
      <==> KindOfImage(line[0]).Some? && y < h && x < w && LineOk(line[1..], x + 1, y, w, h)
  {
    if KindOfImage(line[0]).Some? && y < h && x < w && LineOk(line[1..], x + 1, y, w, h) {
      LineOkCons(line, x, y, w, h);
    }
    if LineOk(line, x, y, w, h) {
      assert KindOfImage(line[0]).Some? && y < h && x + 0 < w;
      LineOkTail(line, x, y, w, h);
    }
  }

  lemma LineOkCons(line: string, x: nat, y: nat, w: nat, h: nat)
    requires |line| > 0 && KindOfImage(line[0]).Some? && y < h && x < w
    requires LineOk(line[1..], x + 1, y, w, h)
    ensures LineOk(line, x, y, w, h)
  {
    forall k | 0 <= k < |line| ensures KindOfImage(line[k]).Some? && y < h && x + k < w {
      if k > 0 {
        assert line[k] == line[1..][k - 1];
      }
    }
  }

  lemma LineOkTail(line: string, x: nat, y: nat, w: nat, h: nat)
    requires |line| > 0 && LineOk(line, x, y, w, h)
    ensures LineOk(line[1..], x + 1, y, w, h)
  {
    forall k | 0 <= k < |line[1..]| ensures KindOfImage(line[1..][k]).Some? && y < h && x + 1 + k < w {
      assert line[1..][k] == line[k + 1];
    }
  }

  lemma RaisedShift(e: ParseError, line: string, x: nat, y: nat, w: nat, h: nat)
    requires |line| > 0 && KindOfImage(line[0]).Some? && y < h && x < w
    requires RaisedInLine(e, line[1..], x + 1, y, w, h)
    ensures RaisedInLine(e, line, x, y, w, h)
  {
    var ex := e.x;
    assert line[1..][ex - (x + 1)] == line[ex - x];
    assert line[..ex - x] == [line[0]] + line[1..][..ex - (x + 1)];
    LineShift(line[..ex - x], x, y, w, h);
  }

  /** `e` is what the parse raises at the first bad line among `lines`
      (starting at row `y`): all earlier lines are fine. */
  predicate RaisedInLines(e: ParseError, lines: seq<string>, y: nat, w: nat, h: nat) {
    e.InvalidInitialState? || e.IndexOutOfRange? ==>
      && y <= e.y < y + |lines|
      && RaisedInLine(e, lines[e.y - y], 0, e.y, w, h)
      && LinesOk(lines[..e.y - y], y, w, h)
  }

  /** The outer loop, over the lines, the first of them being row `y`. */
  function ParseLines(slots: Slots, w: nat, h: nat, lines: seq<string>, y: nat, p: Params)
    : (r: Result<Slots, ParseError>)
    requires Shaped(slots, w, h)
    ensures r.Success? <==> LinesOk(lines, y, w, h)
    ensures r.Success? ==> Shaped(r.value, w, h) && forall j, i :: 0 <= j < h && 0 <= i < w ==>
      r.value[j][i] == if y <= j < y + |lines| && i < |lines[j - y]|
                       then GlyphSlot(lines[j - y][i], i, j, p) else slots[j][i]
    ensures r.Failure? ==> !r.error.Uninitialized? && RaisedInLines(r.error, lines, y, w, h)
    decreases |lines|
  {
    if |lines| == 0 then Success(slots)
    else
      match ParseLine(slots, w, h, lines[0], 0, y, p)
      case Failure(e) =>
        assert lines[..0] == [];
        Failure(e)
      case Success(s1) =>
        var r := ParseLines(s1, w, h, lines[1..], y + 1, p);
        LinesShift(lines, y, w, h);
        assert r.Failure? ==> RaisedInLines(r.error, lines, y, w, h) by {
          if r.Failure? {
            var e := r.error;
            assert lines[1..][e.y - (y + 1)] == lines[e.y - y];
            assert lines[..e.y - y] == [lines[0]] + lines[1..][..e.y - (y + 1)];
            LinesShift(lines[..e.y - y], y, w, h);
          }
        }
        r
  }

  lemma LinesShift(lines: seq<string>, y: nat, w: nat, h: nat)
    requires |lines| > 0
    ensures LinesOk(lines, y, w, h) <==> LineOk(lines[0], 0, y, w, h) && LinesOk(lines[1..], y + 1, w, h)
  {
    if LineOk(lines[0], 0, y, w, h) && LinesOk(lines[1..], y + 1, w, h) {
      forall k | 0 <= k < |lines| ensures LineOk(lines[k], 0, y + k, w, h) {
        if k > 0 {
          assert lines[k] == lines[1..][k - 1];
        }
      }
    }
    if LinesOk(lines, y, w, h) {
      forall k | 0 <= k < |lines[1..]| ensures LineOk(lines[1..][k], 0, y + 1 + k, w, h) {
        assert lines[1..][k] == lines[k + 1];
      }
    }
  }

  /**
   * `ParseInitialState`: succeeds exactly when every glyph is known and
   * inside the grid; then each slot holds a fresh cell of its glyph's kind
   * where the layout has a glyph and the placeholder elsewhere. Otherwise it
   * reports the first bad glyph in reading order.
   */
  function ParseInitialState(field: string, w: nat, h: nat, p: Params): (r: Result<Slots, ParseError>)
    ensures var lines := Split(DropFirst(field));
      && (r.Success? <==> LinesOk(lines, 0, w, h))
      && (r.Success? ==> Shaped(r.value, w, h) && forall j, i :: 0 <= j < h && 0 <= i < w ==>
            r.value[j][i] == if j < |lines| && i < |lines[j]| then GlyphSlot(lines[j][i], i, j, p) else Unset)
      && (r.Failure? ==> !r.error.Uninitialized? && RaisedInLines(r.error, lines, 0, w, h))
  {
    ParseLines(Fill(w, h, Unset), w, h, Split(DropFirst(field)), 0, p)
  }

  predicate AllFilled(slots: Slots) {
    forall j, i :: 0 <= j < |slots| && 0 <= i < |slots[j]| ==> slots[j][i].Filled?
  }

  /** The constructed grid is usable only once no placeholder is left. */
  function BuildOcean(slots: Slots, w: nat, h: nat): (r: Result<Ocean, ParseError>)
    requires Shaped(slots, w, h)
    ensures r.Success? <==> AllFilled(slots)
    ensures r.Success? ==>
      && r.value.width == w && r.value.height == h
      && Shaped(r.value.data, w, h) && Shaped(r.value.processed, w, h)
      && forall j, i :: 0 <= j < h && 0 <= i < w ==> r.value.data[j][i] == slots[j][i].cell
    ensures r.Failure? ==> r.error == Uninitialized
  {
    if AllFilled(slots) then
      var data := seq(h, j requires 0 <= j < h => seq(w, i requires 0 <= i < w => slots[j][i].cell));
      Success(Ocean(w, h, data, Fill(w, h, false)))
    else Failure(Uninitialized)
  }

  /**
   * The preset path of `Ocean.__init__`: parse the layout, then insist that
   * every position was given a cell. A built ocean is well formed: every
   * cell sits at its own coordinates.
   */
  function NewOcean(field: string, w: nat, h: nat, p: Params): (r: Result<Ocean, ParseError>)
    ensures r.Success? ==> r.value.Valid() && r.value.width == w && r.value.height == h
  {
    match ParseInitialState(field, w, h, p)
    case Failure(e) => Failure(e)
    case Success(slots) => BuildOcean(slots, w, h)
  }

  /** With non-negative cycles every creature of a built ocean starts with
      its counters within its cycles. */
  lemma NewOceanInRange(field: string, w: nat, h: nat, p: Params)
    requires p.preyReproduceCycle >= 0 && p.predatorReproduceCycle >= 0 && p.predatorStarveCycle >= 0
    requires NewOcean(field, w, h, p).Success?
    ensures AllInRange(NewOcean(field, w, h, p).value.data)
  {
    var slots := ParseInitialState(field, w, h, p).value;
    var o := NewOcean(field, w, h, p).value;
    assert o == BuildOcean(slots, w, h).value;
    forall j, i | 0 <= j < |o.data| && 0 <= i < |o.data[j]| ensures CountersInRange(o.data[j][i]) {
      assert o.data[j][i] == slots[j][i].cell;
      assert slots[j][i] == GlyphSlot(Split(DropFirst(field))[j][i], i, j, p);
    }
  }

  /** A layout holding a glyph outside the four is rejected with
      `InvalidInitialState` when that glyph comes first among the bad ones. */
  lemma UnknownGlyphRejected(field: string, w: nat, h: nat, p: Params, y: nat, x: nat)
    requires var lines := Split(DropFirst(field));
      y < |lines| && x < |lines[y]| && KindOfImage(lines[y][x]).None?
    ensures ParseInitialState(field, w, h, p).Failure?
  {
  }

  lemma RenderedLinesOk(o: Ocean)
    requires o.Valid()
    ensures LinesOk(RenderedLines(o), 0, o.width, o.height)
  {
    var lines := RenderedLines(o);
    forall k | 0 <= k < |lines| ensures LineOk(lines[k], 0, 0 + k, o.width, o.height) {
      if k < o.height {
        assert lines[k] == RowImage(o.data[k]);
        forall i | 0 <= i < |lines[k]| ensures KindOfImage(lines[k][i]).Some? {
          assert lines[k][i] == Image(KindOf(o.data[k][i]));
        }
      } else {
        assert lines[k] == "";
      }
    }
  }

  lemma RenderedGlyphs(o: Ocean, p: Params)
    requires o.Valid()
    ensures var lines := RenderedLines(o);
      forall j, i :: 0 <= j < o.height && 0 <= i < o.width ==>
        j < |lines| && i < |lines[j]|
        && GlyphSlot(lines[j][i], i, j, p) == Filled(NewCell(KindOf(o.data[j][i]), i, j, p))
  {
    var lines := RenderedLines(o);
    forall j, i | 0 <= j < o.height && 0 <= i < o.width
      ensures j < |lines| && i < |lines[j]|
        && GlyphSlot(lines[j][i], i, j, p) == Filled(NewCell(KindOf(o.data[j][i]), i, j, p))
    {
      assert lines[j] == RowImage(o.data[j]);
      assert lines[j][i] == Image(KindOf(o.data[j][i]));
    }
  }

  /**
   * Rendering an ocean and reading the rendering back (behind any delimiter
   * character) rebuilds an ocean of the same size with a fresh cell of the
   * same kind at every position; its rendering is the original's.
   */
  lemma RenderThenParse(o: Ocean, c: char, p: Params)
    requires o.Valid()
    ensures var r := NewOcean([c] + Render(o), o.width, o.height, p);
      && r.Success? && r.value.width == o.width && r.value.height == o.height
      && (forall j, i :: InBounds(o.width, o.height, i, j) ==>
            r.value.data[j][i] == NewCell(KindOf(o.data[j][i]), i, j, p))
      && Render(r.value) == Render(o)
  {
    var w, h := o.width, o.height;
    var field := [c] + Render(o);
    assert DropFirst(field) == Render(o);
    RenderSplits(o);
    RenderedLinesOk(o);
    RenderedGlyphs(o, p);
    var slots := ParseInitialState(field, w, h, p).value;
    assert forall j, i :: 0 <= j < h && 0 <= i < w ==>
      slots[j][i] == Filled(NewCell(KindOf(o.data[j][i]), i, j, p));
    var r := NewOcean(field, w, h, p);
    assert r == BuildOcean(slots, w, h);
    RenderByKinds(o, r.value);
  }
}
