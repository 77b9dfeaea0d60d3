/**
 * `Ocean.__str__`: one glyph per cell, the rows joined by newlines, and a
 * trailing newline.
 */
module Rendering {
  import opened Cells
  import opened Grids
  import opened Text

  /** The glyphs of one row, left to right. */
  function RowImage(row: seq<Cell>): (s: string)
    ensures |s| == |row|
    ensures forall i :: 0 <= i < |row| ==> s[i] == Image(KindOf(row[i]))
  {
    seq(|row|, i requires 0 <= i < |row| => Image(KindOf(row[i])))
  }

  /** The rendered rows, top to bottom. */
  function Lines(g: Grid): (r: seq<string>)
    ensures |r| == |g|
    ensures forall j :: 0 <= j < |g| ==> r[j] == RowImage(g[j])
  {
    seq(|g|, j requires 0 <= j < |g| => RowImage(g[j]))
  }

  function Render(o: Ocean): string {
    JoinLines(Lines(o.data)) + "\n"
  }

  /** The pieces a rendering splits into: one line per row, then an empty
      piece after the final newline (two empty pieces for an ocean without rows). */
  function RenderedLines(o: Ocean): seq<string> {
    if |o.data| == 0 then ["", ""] else Lines(o.data) + [""]
  }

  /** Reading the rendering back: splitting it on newlines gives the rows' glyphs. */
  lemma RenderSplits(o: Ocean)
    ensures Split(Render(o)) == RenderedLines(o)
  {
    var lines := Lines(o.data);
    JoinThenNewline(lines);
    var pieces := RenderedLines(o);
    forall k | 0 <= k < |pieces| ensures NoNewline(pieces[k]) {
      if k < |lines| {
        assert pieces[k] == RowImage(o.data[k]);
      }
    }
    SplitJoin(pieces);
  }

  /** The rendering depends on the kinds of the cells only. */
  lemma RenderByKinds(o: Ocean, o': Ocean)
    requires |o.data| == |o'.data|
    requires forall j :: 0 <= j < |o.data| ==> |o.data[j]| == |o'.data[j]|
    requires forall j, i :: 0 <= j < |o.data| && 0 <= i < |o.data[j]| ==>
      KindOf(o.data[j][i]) == KindOf(o'.data[j][i])
    ensures Render(o) == Render(o')
  {
    forall j | 0 <= j < |o.data| ensures RowImage(o.data[j]) == RowImage(o'.data[j]) {
    }
    assert Lines(o.data) == Lines(o'.data);
  }
}
