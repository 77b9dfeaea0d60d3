/**
 * The Creature operations: choosing a neighbour by exact kind, moving,
 * dying, reproducing (Prey and Predator) and hunting (Predator).
 *
 * Randomness is an explicit stream of draws: each `random.randrange(n)`
 * takes the next draw `d` and uses `d % n`, and a draw is taken only where
 * the program calls `randrange`.
 */
module Creatures {
  import opened Wrappers
  import opened Cells
  import opened Grids
  import opened Neighbors

  /** `filter(lambda x: type(x) == k, cells)`. */
  function Select(cells: seq<Cell>, k: Kind): (r: seq<Cell>)
    ensures forall c :: c in r <==> c in cells && KindOf(c) == k
    ensures |r| <= |cells|
  {
    if |cells| == 0 then []
    else (if KindOf(cells[0]) == k then [cells[0]] else []) + Select(cells[1..], k)
  }

  /** A candidate chosen (or not) and the draws left over. */
  datatype Choice = Choice(target: Option<Cell>, draws: seq<nat>)

  /**
   * `ChooseNeighbor(neighbors, neighborType)`: `None` exactly when no
   * neighbour is of kind `k`; otherwise a neighbour of exactly that kind.
   * Kinds are compared by equality, so a creature never answers a query for
   * an empty cell although Creature derives from EmptyCell.
   */
  function ChooseNeighbor(neighbors: seq<Cell>, k: Kind, draws: seq<nat>): (r: Choice)
    requires Select(neighbors, k) != [] ==> |draws| >= 1
    ensures r.target.None? <==> forall c :: c in neighbors ==> KindOf(c) != k
    ensures r.target.Some? ==> r.target.value in neighbors && KindOf(r.target.value) == k
    ensures r.target.None? ==> r.draws == draws
    ensures r.target.Some? ==> |draws| >= 1 && r.draws == draws[1..]
  {
    var selected := Select(neighbors, k);
    if |selected| != 0 then
      assert selected[0] in selected;
      Choice(Some(selected[draws[0] % |selected|]), draws[1..])
    else
      Choice(None, draws)
  }

  /** Every qualifying neighbour is the choice for some draw: no candidate is out of reach. */
  lemma ChooseCoversCandidates(neighbors: seq<Cell>, k: Kind, c: Cell, rest: seq<nat>)
    requires c in neighbors && KindOf(c) == k
    ensures exists d: nat :: ChooseNeighbor(neighbors, k, [d] + rest).target == Some(c)
  {
    var selected := Select(neighbors, k);
    assert c in selected;
    var i :| 0 <= i < |selected| && selected[i] == c;
    var ds: seq<nat> := [i] + rest;
    assert ds[0] == i;
    assert i % |selected| == i;
    assert ChooseNeighbor(neighbors, k, ds).target == Some(c);
  }

  /** Some neighbour of (x, y) is exactly of kind `k`. */
  predicate HasNeighbor(o: Ocean, x: int, y: int, k: Kind)
    requires Shaped(o.data, o.width, o.height)
  {
    exists c :: c in GetNeighbors(o, x, y) && KindOf(c) == k
  }

  /** At most `n` draws were taken from the front of `before`, leaving `after`. */
  predicate TookAtMost(before: seq<nat>, after: seq<nat>, n: nat) {
    |after| <= |before| <= |after| + n && after == before[|before| - |after|..]
  }

  /** Two stretches of consumption add up. */
  lemma TookSum(a: seq<nat>, b: seq<nat>, c: seq<nat>, n: nat, m: nat)
    requires TookAtMost(a, b, n) && TookAtMost(b, c, m)
    ensures TookAtMost(a, c, n + m)
  {
    assert c == b[|b| - |c|..];
    assert b[|b| - |c|..] == a[|a| - |b|..][|b| - |c|..];
  }

  /** A creature's state between the steps of its act, and the ocean around it. */
  datatype Moved = Moved(ocean: Ocean, self: Cell, draws: seq<nat>)

  /**
   * `Creature.Move`: with an Empty neighbour, the slot left behind becomes Empty,
   * the creature takes the neighbour's coordinates and that position is
   * marked processed; the creature itself lands there only when its act
   * writes it back (`Place`). Without an Empty neighbour nothing changes
   * (`MoveOnlyIntoEmpty`).
   */
  function Move(o: Ocean, self: Cell, draws: seq<nat>): (r: Moved)
    requires Occupies(o, self) && |draws| >= 1
    ensures Evolves(o, r.ocean)
    ensures r.self == self.(x := r.self.x, y := r.self.y)
    ensures InBounds(o.width, o.height, r.self.x, r.self.y) && Near(self.x, self.y, r.self.x, r.self.y)
    ensures o.processed[self.y][self.x] ==> r.ocean.processed[r.self.y][r.self.x]
    ensures !r.ocean.data[r.self.y][r.self.x].Obstacle?
    ensures TookAtMost(draws, r.draws, 1)
  {
    var neighbors := GetNeighbors(o, self.x, self.y);
    var choice := ChooseNeighbor(neighbors, EmptyKind, draws);
    match choice.target
    case None => Moved(o, self, choice.draws)
    case Some(t) =>
      assert t in neighbors;
      assert InBounds(o.width, o.height, t.x, t.y) && o.data[t.y][t.x] == t;
      var o1 := o.Store(self.x, self.y, Empty(self.x, self.y));
      StoreEvolves(o, self.x, self.y, Empty(self.x, self.y));
      var o2 := o1.Mark(t.x, t.y);
      MarkEvolves(o1, t.x, t.y);
      EvolvesTransitive(o, o1, o2);
      Moved(o2, self.(x := t.x, y := t.y), choice.draws)
  }

  /**
   * A creature moves exactly when some neighbour is exactly Empty. Then it
   * takes that neighbour's position, its old slot becomes Empty, the new
   * position is marked processed and nothing else changes; otherwise the
   * ocean is untouched and no draw is taken.
   */
  lemma MoveOnlyIntoEmpty(o: Ocean, self: Cell, draws: seq<nat>)
    requires Occupies(o, self) && |draws| >= 1
    ensures var r := Move(o, self, draws);
      && ((r.self.x, r.self.y) == (self.x, self.y) <==> !HasNeighbor(o, self.x, self.y, EmptyKind))
      && ((r.self.x, r.self.y) == (self.x, self.y) ==> r.ocean == o && r.draws == draws)
      && ((r.self.x, r.self.y) != (self.x, self.y) ==>
            && o.data[r.self.y][r.self.x].Empty?
            && r.ocean.data == Update(o.data, self.x, self.y, Empty(self.x, self.y))
            && r.ocean.processed == Update(o.processed, r.self.x, r.self.y, true)
            && r.draws == draws[1..])
  {
    var neighbors := GetNeighbors(o, self.x, self.y);
    var choice := ChooseNeighbor(neighbors, EmptyKind, draws);
    if choice.target.Some? {
      var t := choice.target.value;
      assert t in neighbors;
      assert o.data[t.y][t.x] == t;
    }
  }

  /** `Creature.Die`: the slot at the cell's own coordinates becomes Empty. */
  function Die(o: Ocean, c: Cell): (r: Ocean)
    requires Occupies(o, c)
    ensures Evolves(o, r)
    ensures r.processed == o.processed
    ensures r.data == Update(o.data, c.x, c.y, Empty(c.x, c.y))
  {
    StoreEvolves(o, c.x, c.y, Empty(c.x, c.y));
    o.Store(c.x, c.y, Empty(c.x, c.y))
  }

  /** The ocean after part of an act, and the draws left over. */
  datatype Stepped = Stepped(ocean: Ocean, draws: seq<nat>)

  /**
   * `Prey.Reproduce` and `Predator.Reproduce`. The parent's own slot is
   * never touched; what is placed where is `ReproduceOnlyIntoEmpty`.
   */
  function Reproduce(o: Ocean, self: Cell, draws: seq<nat>): (r: Stepped)
    requires Occupies(o, self) && |draws| >= 1
    ensures Evolves(o, r.ocean)
    ensures r.ocean.data[self.y][self.x] == o.data[self.y][self.x]
    ensures TookAtMost(draws, r.draws, 1)
  {
    var neighbors := GetNeighbors(o, self.x, self.y);
    var choice := ChooseNeighbor(neighbors, EmptyKind, draws);
    match choice.target
    case None => Stepped(o, choice.draws)
    case Some(t) =>
      assert t in neighbors;
      assert InBounds(o.width, o.height, t.x, t.y) && o.data[t.y][t.x] == t;
      assert (t.x, t.y) != (self.x, self.y);
      var child := Offspring(self, t.x, t.y);
      PlantEvolves(o, t.x, t.y, child);
      Stepped(o.Store(t.x, t.y, child).Mark(t.x, t.y), choice.draws)
  }

  /**
   * With an Empty neighbour, one fresh creature of the parent's kind and
   * cycles, counters at those cycles, is placed on such a neighbour and
   * that position is marked processed; nothing else changes. Without one
   * the ocean is untouched and no draw is taken.
   */
  lemma ReproduceOnlyIntoEmpty(o: Ocean, self: Cell, draws: seq<nat>)
    requires Occupies(o, self) && |draws| >= 1
    ensures var r := Reproduce(o, self, draws);
      && (!HasNeighbor(o, self.x, self.y, EmptyKind) ==> r.ocean == o && r.draws == draws)
      && (HasNeighbor(o, self.x, self.y, EmptyKind) ==>
            && r.draws == draws[1..]
            && exists i, j :: InBounds(o.width, o.height, i, j) && Near(self.x, self.y, i, j)
                 && o.data[j][i].Empty?
                 && r.ocean.data == Update(o.data, i, j, Offspring(self, i, j))
                 && r.ocean.processed == Update(o.processed, i, j, true))
  {
    var neighbors := GetNeighbors(o, self.x, self.y);
    var choice := ChooseNeighbor(neighbors, EmptyKind, draws);
    if choice.target.Some? {
      var t := choice.target.value;
      assert t in neighbors;
      assert o.data[t.y][t.x] == t;
    }
  }

  /**
   * `Predator.Hunt`: with a neighbour of kind Prey, that prey dies (its
   * slot becomes Empty) and the predator's starvation counter is reset to
   * its cycle; without one nothing changes (`HuntKillsOnlyPrey`). The
   * function returns nothing, which `PredatorAct` reflects.
   */
  function Hunt(o: Ocean, self: Cell, draws: seq<nat>): (r: Moved)
    requires Occupies(o, self) && self.Predator? && |draws| >= 1
    ensures Evolves(o, r.ocean) && r.ocean.processed == o.processed
    ensures r.ocean.data[self.y][self.x] == o.data[self.y][self.x]
    ensures r.self == self || r.self == self.(timeToStarve := self.starveCycle)
    ensures TookAtMost(draws, r.draws, 1)
  {
    var neighbors := GetNeighbors(o, self.x, self.y);
    var choice := ChooseNeighbor(neighbors, PreyKind, draws);
    match choice.target
    case None => Moved(o, self, choice.draws)
    case Some(t) =>
      assert t in neighbors;
      assert InBounds(o.width, o.height, t.x, t.y) && o.data[t.y][t.x] == t;
      assert (t.x, t.y) != (self.x, self.y);
      var o1 := Die(o, t);
      Moved(o1, self.(timeToStarve := self.starveCycle), choice.draws)
  }

  /**
   * A hunt kills a neighbour whose kind is exactly Prey and nothing else,
   * and resets the starvation counter exactly when it kills; with no prey
   * around it changes nothing and takes no draw.
   */
  lemma HuntKillsOnlyPrey(o: Ocean, self: Cell, draws: seq<nat>)
    requires Occupies(o, self) && self.Predator? && |draws| >= 1
    ensures !HasNeighbor(o, self.x, self.y, PreyKind) ==> Hunt(o, self, draws) == Moved(o, self, draws)
    ensures HasNeighbor(o, self.x, self.y, PreyKind) ==>
      var r := Hunt(o, self, draws);
      && r.self == self.(timeToStarve := self.starveCycle)
      && r.draws == draws[1..]
      && (exists i, j :: InBounds(o.width, o.height, i, j) && Near(self.x, self.y, i, j)
            && o.data[j][i].Prey?
            && r.ocean.data == Update(o.data, i, j, Empty(i, j)))
  {
    var neighbors := GetNeighbors(o, self.x, self.y);
    var choice := ChooseNeighbor(neighbors, PreyKind, draws);
    if HasNeighbor(o, self.x, self.y, PreyKind) {
      var t := choice.target.value;
      assert t in neighbors;
      assert o.data[t.y][t.x] == t;
    }
  }

  /** `ocean.data[self.y][self.x] = self`: the write-back that ends an act. */
  function Place(o: Ocean, self: Cell): (r: Ocean)
    requires o.Valid() && InBounds(o.width, o.height, self.x, self.y)
    ensures r.processed == o.processed && r.data == Update(o.data, self.x, self.y, self)
    ensures o.processed[self.y][self.x] && !o.data[self.y][self.x].Obstacle? && !self.Obstacle?
      ==> Evolves(o, r)
  {
    o.Store(self.x, self.y, self)
  }
}
