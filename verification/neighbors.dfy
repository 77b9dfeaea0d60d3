/**
 * `Ocean.GetNeighbors`: the Moore neighbourhood of a position, clipped at
 * the edges (no wrap-around) and including the position itself, listed in
 * row-major order.
 */
module Neighbors {
  import opened Cells
  import opened Grids

  function Max(a: int, b: int): int {
    if a < b then b else a
  }

  function Min(a: int, b: int): int {
    if a < b then a else b
  }

  /** Positions are (x, y) pairs; `p` comes before `q` in row-major order. */
  predicate Before(p: (int, int), q: (int, int)) {
    p.1 < q.1 || (p.1 == q.1 && p.0 < q.0)
  }

  /** Strictly increasing in row-major order, hence free of repetitions. */
  predicate RowMajor(ps: seq<(int, int)>) {
    forall a, b :: 0 <= a < b < |ps| ==> Before(ps[a], ps[b])
  }

  /** The positions of row `j` with `lo <= x < hi`: `for i in range(lo, hi)`. */
  function RowSpan(j: int, lo: int, hi: int): (r: seq<(int, int)>)
    ensures forall p :: p in r <==> p.1 == j && lo <= p.0 < hi
    ensures |r| == if lo < hi then hi - lo else 0
    ensures RowMajor(r)
    decreases hi - lo
  {
    if lo >= hi then []
    else
      var rest := RowSpan(j, lo + 1, hi);
      assert forall b :: 0 <= b < |rest| ==> rest[b] in rest;
      [(lo, j)] + rest
  }

  /** The positions with `jlo <= y < jhi` and `ilo <= x < ihi`, row by row. */
  function Box(jlo: int, jhi: int, ilo: int, ihi: int): (r: seq<(int, int)>)
    ensures forall p :: p in r <==> jlo <= p.1 < jhi && ilo <= p.0 < ihi
    ensures RowMajor(r)
    decreases jhi - jlo
  {
    if jlo >= jhi then []
    else
      var row := RowSpan(jlo, ilo, ihi);
      var rest := Box(jlo + 1, jhi, ilo, ihi);
      assert forall a :: 0 <= a < |row| ==> row[a] in row;
      assert forall b :: 0 <= b < |rest| ==> rest[b] in rest;
      row + rest
  }

  /** A box holds rows times columns positions. */
  lemma {:induction false} BoxSize(jlo: int, jhi: int, ilo: int, ihi: int)
    ensures |Box(jlo, jhi, ilo, ihi)|
      == (if jlo < jhi then jhi - jlo else 0) * (if ilo < ihi then ihi - ilo else 0)
    decreases jhi - jlo
  {
    if jlo < jhi {
      var cols := if ilo < ihi then ihi - ilo else 0;
      BoxSize(jlo + 1, jhi, ilo, ihi);
      assert |Box(jlo, jhi, ilo, ihi)| == cols + |Box(jlo + 1, jhi, ilo, ihi)|;
      assert |Box(jlo + 1, jhi, ilo, ihi)| == (jhi - jlo - 1) * cols;
      MulSucc(jhi - jlo - 1, cols);
    }
  }

  lemma MulSucc(a: nat, c: nat)
    ensures (a + 1) * c == a * c + c
  {
  }

  /** The positions `GetNeighbors(x, y)` visits, in the order it visits them. */
  function NeighborPositions(w: nat, h: nat, x: int, y: int): (r: seq<(int, int)>)
    ensures forall p :: p in r <==>
      InBounds(w, h, p.0, p.1) && x - 1 <= p.0 <= x + 1 && y - 1 <= p.1 <= y + 1
    ensures InBounds(w, h, x, y) ==> (x, y) in r
    ensures |r| <= 9
    ensures RowMajor(r)
  {
    var rows := Min(y + 2, h) - Max(y - 1, 0);
    var cols := Min(x + 2, w) - Max(x - 1, 0);
    var r := Box(Max(y - 1, 0), Min(y + 2, h), Max(x - 1, 0), Min(x + 2, w));
    BoxSize(Max(y - 1, 0), Min(y + 2, h), Max(x - 1, 0), Min(x + 2, w));
    assert |r| == (if rows > 0 then rows else 0) * (if cols > 0 then cols else 0);
    SmallProduct(if rows > 0 then rows else 0, if cols > 0 then cols else 0);
    r
  }

  lemma SmallProduct(a: nat, b: nat)
    requires a <= 3 && b <= 3
    ensures a * b <= 9
  {
  }

  /** The cells found at the positions `ps`. */
  function CellsAt(g: Grid, ps: seq<(int, int)>): (r: seq<Cell>)
    requires forall p :: p in ps ==> 0 <= p.1 < |g| && 0 <= p.0 < |g[p.1]|
    ensures |r| == |ps|
    ensures forall k :: 0 <= k < |ps| ==> r[k] == g[ps[k].1][ps[k].0]
  {
    if |ps| == 0 then [] else [g[ps[0].1][ps[0].0]] + CellsAt(g, ps[1..])
  }

  /** Within one step of (x, y) in both directions. */
  predicate Near(x: int, y: int, i: int, j: int) {
    x - 1 <= i <= x + 1 && y - 1 <= j <= y + 1
  }

  /**
   * `GetNeighbors(x, y)`: at most nine cells, the centre among them when it
   * is in bounds. In a well-placed grid each one's own coordinates lie in
   * bounds, within one step of (x, y), and lead back to it.
   */
  function GetNeighbors(o: Ocean, x: int, y: int): (r: seq<Cell>)
    requires Shaped(o.data, o.width, o.height)
    ensures |r| <= 9
    ensures InBounds(o.width, o.height, x, y) ==> o.data[y][x] in r
    ensures WellPlaced(o.data) ==> forall c :: c in r ==>
      InBounds(o.width, o.height, c.x, c.y) && Near(x, y, c.x, c.y) && o.data[c.y][c.x] == c
  {
    var ps := NeighborPositions(o.width, o.height, x, y);
    var r := CellsAt(o.data, ps);
    assert InBounds(o.width, o.height, x, y) ==> r[IndexOf(ps, (x, y))] == o.data[y][x];
    assert forall c :: c in r ==> exists k :: 0 <= k < |r| && r[k] == c;
    r
  }

  function IndexOf<T(==)>(s: seq<T>, v: T): (k: nat)
    requires v in s
    ensures k < |s| && s[k] == v
  {
    if s[0] == v then 0 else 1 + IndexOf(s[1..], v)
  }

  /**
   * The neighbours are exactly the occupants of the in-bounds positions
   * within one step of (x, y), the centre included.
   */
  lemma NeighborsExactly(o: Ocean, x: int, y: int, c: Cell)
    requires Shaped(o.data, o.width, o.height)
    ensures c in GetNeighbors(o, x, y) <==>
      exists i, j :: InBounds(o.width, o.height, i, j) && Near(x, y, i, j) && o.data[j][i] == c
  {
    var ps := NeighborPositions(o.width, o.height, x, y);
    var r := GetNeighbors(o, x, y);
    assert r == CellsAt(o.data, ps);
    if c in r {
      var k := IndexOf(r, c);
      assert ps[k] in ps;
    }
    if exists i, j :: InBounds(o.width, o.height, i, j) && Near(x, y, i, j) && o.data[j][i] == c {
      var i, j :| InBounds(o.width, o.height, i, j) && Near(x, y, i, j) && o.data[j][i] == c;
      var k := IndexOf(ps, (i, j));
      assert r[k] == c;
    }
  }
}
