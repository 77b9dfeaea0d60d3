/**
 * `'\n'.join(lines)` and `text.split('\n')` on strings, and the
 * two round trips between them.
 */
module Text {

  /** `'\n'.join(lines)`. */
  function JoinLines(lines: seq<string>): string {
    if |lines| == 0 then ""
    else if |lines| == 1 then lines[0]
    else lines[0] + "\n" + JoinLines(lines[1..])
  }

  predicate NoNewline(s: string) {
    '\n' !in s
  }

  /** The position of the first newline of `s`. */
  function FirstNewline(s: string): (i: nat)
    requires '\n' in s
    ensures i < |s| && s[i] == '\n' && NoNewline(s[..i])
  {
    if s[0] == '\n' then 0
    else
      var i := 1 + FirstNewline(s[1..]);
      assert s[..i] == [s[0]] + s[1..][..i - 1];
      i
  }

  /**
   * `s.split('\n')`: the pieces of `s` between newlines. There is always at
   * least one piece (`"".split('\n') == [""]`), no piece holds a newline, and
   * joining the pieces gives `s` back.
   */
  function Split(s: string): (r: seq<string>)
    ensures |r| >= 1
    ensures forall k :: 0 <= k < |r| ==> NoNewline(r[k])
    ensures JoinLines(r) == s
    decreases |s|
  {
    if '\n' !in s then [s]
    else
      var i := FirstNewline(s);
      var rest := Split(s[i + 1..]);
      assert s == s[..i] + "\n" + s[i + 1..];
      assert ([s[..i]] + rest)[1..] == rest;
      [s[..i]] + rest
  }

  /** Splitting a join of newline-free lines gives the lines back. */
  lemma {:induction false} SplitJoin(lines: seq<string>)
    requires |lines| >= 1 && forall k :: 0 <= k < |lines| ==> NoNewline(lines[k])
    ensures Split(JoinLines(lines)) == lines
  {
    if |lines| > 1 {
      var tail := JoinLines(lines[1..]);
      assert JoinLines(lines) == lines[0] + "\n" + tail;
      SplitCons(lines[0], tail);
      SplitJoin(lines[1..]);
      assert lines == [lines[0]] + lines[1..];
    }
  }

  /** A newline-free piece followed by a newline splits off as the first piece. */
  lemma SplitCons(l0: string, tail: string)
    requires NoNewline(l0)
    ensures Split(l0 + "\n" + tail) == [l0] + Split(tail)
  {
    var s := l0 + "\n" + tail;
    assert s[|l0|] == '\n';
    var i := FirstNewline(s);
    assert i == |l0|;
    assert s[..i] == l0;
    assert s[i + 1..] == tail;
  }

  /** A trailing newline adds one empty piece; on an empty join it gives two. */
  lemma JoinThenNewline(lines: seq<string>)
    ensures JoinLines(lines) + "\n"
      == JoinLines(if |lines| == 0 then ["", ""] else lines + [""])
    decreases |lines|
  {
    if |lines| == 1 {
      assert (lines + [""])[1..] == [""];
    } else if |lines| > 1 {
      JoinThenNewline(lines[1..]);
      assert (lines + [""])[1..] == lines[1..] + [""];
    }
  }
}
