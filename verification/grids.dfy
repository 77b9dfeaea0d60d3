/**
 * The ocean's storage: a height x width grid of cells indexed `data[y][x]`
 * and the per-tick `processed` mask of the same shape, plus the population
 * census and the facts about single-cell writes that the rest relies on.
 */
module Grids {
  import opened Cells

  type Grid = seq<seq<Cell>>
  type Mask = seq<seq<bool>>

  /** `h` rows of `w` entries each. */
  predicate Shaped<T>(g: seq<seq<T>>, w: nat, h: nat) {
    |g| == h && forall j :: 0 <= j < h ==> |g[j]| == w
  }

  predicate InBounds(w: nat, h: nat, x: int, y: int) {
    0 <= x < w && 0 <= y < h
  }

  /** Every cell stores the coordinates of the slot that holds it. */
  predicate WellPlaced(g: Grid) {
    forall j, i :: 0 <= j < |g| && 0 <= i < |g[j]| ==> g[j][i].x == i && g[j][i].y == j
  }

  /** `h` rows of `w` copies of `v` (the program's list-of-lists initialisers). */
  function Fill<T>(w: nat, h: nat, v: T): (g: seq<seq<T>>)
    ensures Shaped(g, w, h)
    ensures forall j, i :: 0 <= j < h && 0 <= i < w ==> g[j][i] == v
  {
    seq(h, _ => seq(w, _ => v))
  }

  /** `g[y][x] = v`. */
  function Update<T>(g: seq<seq<T>>, x: nat, y: nat, v: T): (r: seq<seq<T>>)
    requires y < |g| && x < |g[y]|
    ensures |r| == |g|
    ensures forall j :: 0 <= j < |g| ==> |r[j]| == |g[j]|
    ensures forall j, i :: 0 <= j < |g| && 0 <= i < |g[j]| ==>
      r[j][i] == if j == y && i == x then v else g[j][i]
  {
    g[y := g[y][x := v]]
  }

  /** The ocean as the tick loop sees it: dimensions, cells and the processed mask. */
  datatype Ocean = Ocean(width: nat, height: nat, data: Grid, processed: Mask) {

    predicate Valid() {
      Shaped(data, width, height) && Shaped(processed, width, height) && WellPlaced(data)
    }

    /** `ocean.data[y][x] = c`. */
    function Store(x: nat, y: nat, c: Cell): (o: Ocean)
      requires Valid() && InBounds(width, height, x, y) && c.x == x && c.y == y
      ensures o.Valid() && o.width == width && o.height == height && o.processed == processed
      ensures o.data == Update(data, x, y, c)
    {
      this.(data := Update(data, x, y, c))
    }

    /** `ocean.processed[y][x] = True`. */
    function Mark(x: nat, y: nat): (o: Ocean)
      requires Valid() && InBounds(width, height, x, y)
      ensures o.Valid() && o.width == width && o.height == height && o.data == data
      ensures o.processed == Update(processed, x, y, true)
    {
      this.(processed := Update(processed, x, y, true))
    }
  }

  /** A creature `self` stands at its own coordinates: the slot holds a cell of its kind. */
  predicate Occupies(o: Ocean, self: Cell) {
    && o.Valid() && self.IsCreature() && InBounds(o.width, o.height, self.x, self.y)
    && KindOf(o.data[self.y][self.x]) == KindOf(self)
  }

  /** What any act-step, or any part of one, may do to the ocean. */
  predicate Evolves(o: Ocean, o': Ocean) {
    && o.Valid() && o'.Valid() && o'.width == o.width && o'.height == o.height
    // a position once marked processed stays marked
    && (forall j, i :: 0 <= j < o.height && 0 <= i < o.width && o.processed[j][i] ==> o'.processed[j][i])
    // obstacles are never written over and never created
    && (forall j, i :: 0 <= j < o.height && 0 <= i < o.width ==>
          (o.data[j][i].Obstacle? <==> o'.data[j][i].Obstacle?))
    // an unmarked position keeps its occupant or has been emptied
    && (forall j, i :: 0 <= j < o.height && 0 <= i < o.width && !o'.processed[j][i] ==>
          o'.data[j][i] == o.data[j][i] || o'.data[j][i].Empty?)
  }

  /** Writing a cell is a legal evolution when it neither removes nor creates an
      obstacle and either the position is marked or the cell written is Empty. */
  lemma StoreEvolves(o: Ocean, x: nat, y: nat, c: Cell)
    requires o.Valid() && InBounds(o.width, o.height, x, y) && c.x == x && c.y == y
    requires o.data[y][x].Obstacle? <==> c.Obstacle?
    requires o.processed[y][x] || c.Empty?
    ensures Evolves(o, o.Store(x, y, c))
  {
  }

  /** Marking a position is always a legal evolution. */
  lemma MarkEvolves(o: Ocean, x: nat, y: nat)
    requires o.Valid() && InBounds(o.width, o.height, x, y)
    ensures Evolves(o, o.Mark(x, y))
  {
  }

  /** Placing a cell on an Empty slot and marking that slot processed (a birth,
      or a move's arrival) is a legal evolution. */
  lemma PlantEvolves(o: Ocean, x: nat, y: nat, c: Cell)
    requires o.Valid() && InBounds(o.width, o.height, x, y) && c.x == x && c.y == y
    requires o.data[y][x].Empty? && !c.Obstacle?
    ensures Evolves(o, o.Store(x, y, c).Mark(x, y))
  {
  }

  lemma EvolvesTransitive(a: Ocean, b: Ocean, c: Ocean)
    requires Evolves(a, b) && Evolves(b, c)
    ensures Evolves(a, c)
  {
  }

  /** Every creature's counters lie within their cycles. */
  predicate AllInRange(g: Grid) {
    forall j, i :: 0 <= j < |g| && 0 <= i < |g[j]| ==> CountersInRange(g[j][i])
  }

  lemma UpdateInRange(g: Grid, x: nat, y: nat, c: Cell)
    requires y < |g| && x < |g[y]| && AllInRange(g) && CountersInRange(c)
    ensures AllInRange(Update(g, x, y, c))
  {
  }

  /** Number of cells of kind `k` in one row. */
  function CountRow(row: seq<Cell>, k: Kind): nat {
    if |row| == 0 then 0
    else (if KindOf(row[0]) == k then 1 else 0) + CountRow(row[1..], k)
  }

  /** Number of cells of kind `k` in the grid: the population census. */
  function Count(g: Grid, k: Kind): nat {
    if |g| == 0 then 0 else CountRow(g[0], k) + Count(g[1..], k)
  }

  function Indicator(b: bool): int {
    if b then 1 else 0
  }

  lemma {:induction false} CountRowUpdate(row: seq<Cell>, x: nat, c: Cell, k: Kind)
    requires x < |row|
    ensures CountRow(row[x := c], k)
      == CountRow(row, k) - Indicator(KindOf(row[x]) == k) + Indicator(KindOf(c) == k)
  {
    if x > 0 {
      assert row[x := c][1..] == row[1..][x - 1 := c];
      CountRowUpdate(row[1..], x - 1, c, k);
    }
  }

  /** Writing one cell changes each census by at most the old and the new occupant. */
  lemma {:induction false} CountUpdate(g: Grid, x: nat, y: nat, c: Cell, k: Kind)
    requires y < |g| && x < |g[y]|
    ensures Count(Update(g, x, y, c), k)
      == Count(g, k) - Indicator(KindOf(g[y][x]) == k) + Indicator(KindOf(c) == k)
  {
    var u := Update(g, x, y, c);
    if y == 0 {
      assert u[1..] == g[1..];
      assert u[0] == g[0][x := c];
      CountRowUpdate(g[0], x, c, k);
    } else {
      assert u[0] == g[0];
      assert u[1..] == Update(g[1..], x, y - 1, c);
      CountUpdate(g[1..], x, y - 1, c, k);
    }
  }
}
