/**
 * The population census of an act-step: how many cells of each kind the
 * grid holds before and after. Moving never changes a census, a birth turns
 * one Empty cell into a creature, a kill or a starvation turns one creature
 * into an Empty cell, and obstacles are never counted differently.
 */
module Population {
  import opened Wrappers
  import opened Cells
  import opened Grids
  import opened Neighbors
  import opened Creatures
  import opened Behaviour
  import opened Ticks

  lemma {:induction false} CountRowAgreeing(r: seq<Cell>, r': seq<Cell>, k: Kind)
    requires |r| == |r'|
    requires forall i :: 0 <= i < |r| ==> (KindOf(r[i]) == k <==> KindOf(r'[i]) == k)
    ensures CountRow(r, k) == CountRow(r', k)
  {
    if |r| > 0 {
      CountRowAgreeing(r[1..], r'[1..], k);
    }
  }

  /** Two grids of one shape that agree, slot by slot, on being of kind `k`
      hold equally many cells of kind `k`. */
  lemma {:induction false} CountAgreeing(g: Grid, g': Grid, k: Kind)
    requires |g| == |g'| && forall j :: 0 <= j < |g| ==> |g[j]| == |g'[j]|
    requires forall j, i :: 0 <= j < |g| && 0 <= i < |g[j]| ==>
      (KindOf(g[j][i]) == k <==> KindOf(g'[j][i]) == k)
    ensures Count(g, k) == Count(g', k)
  {
    if |g| > 0 {
      CountRowAgreeing(g[0], g'[0], k);
      CountAgreeing(g[1..], g'[1..], k);
    }
  }

  /** Any evolution, so any act-step or tick, keeps the obstacle census. */
  lemma ObstacleCensusKept(o: Ocean, o': Ocean)
    requires Evolves(o, o')
    ensures Count(o'.data, ObstacleKind) == Count(o.data, ObstacleKind)
  {
    forall j, i | 0 <= j < |o.data| && 0 <= i < |o.data[j]|
      ensures KindOf(o.data[j][i]) == ObstacleKind <==> KindOf(o'.data[j][i]) == ObstacleKind
    {
      assert o.data[j][i].Obstacle? <==> o'.data[j][i].Obstacle?;
    }
    CountAgreeing(o.data, o'.data, ObstacleKind);
  }

  /** A whole tick leaves the number of obstacles as it was. */
  lemma TickKeepsObstacleCensus(o: Ocean, draws: seq<nat>)
    requires o.Valid() && |draws| >= 2 * (o.height * o.width)
    ensures Count(Tick(o, draws).ocean.data, ObstacleKind) == Count(o.data, ObstacleKind)
  {
    ObstacleCensusKept(Reset(o), Tick(o, draws).ocean);
  }

  /** Writing a creature back over a slot of its own kind changes no census. */
  lemma PlaceKeepsCensus(o: Ocean, c: Cell, k: Kind)
    requires o.Valid() && InBounds(o.width, o.height, c.x, c.y)
    requires KindOf(o.data[c.y][c.x]) == KindOf(c)
    ensures Count(Place(o, c).data, k) == Count(o.data, k)
  {
    CountUpdate(o.data, c.x, c.y, c, k);
  }

  /** A creature that moves and is written back leaves every census as it was. */
  lemma MoveKeepsCensus(o: Ocean, self: Cell, draws: seq<nat>, k: Kind)
    requires Occupies(o, self) && |draws| >= 1
    ensures var m := Move(o, self, draws);
      Count(Place(m.ocean, m.self).data, k) == Count(o.data, k)
  {
    var m := Move(o, self, draws);
    MoveOnlyIntoEmpty(o, self, draws);
    if (m.self.x, m.self.y) != (self.x, self.y) {
      RelocateKeepsCount(o.data, self.x, self.y, m.self, k);
    } else {
      CountUpdate(o.data, self.x, self.y, m.self, k);
    }
  }

  /** Emptying slot (x, y) and writing `c`, of the kind that stood there, on
      an Empty slot elsewhere keeps every census. */
  lemma RelocateKeepsCount(g: Grid, x: nat, y: nat, c: Cell, k: Kind)
    requires y < |g| && x < |g[y]| && c.y < |g| && c.x < |g[c.y]|
    requires (c.x, c.y) != (x, y) && g[c.y][c.x].Empty? && KindOf(g[y][x]) == KindOf(c)
    ensures Count(Update(Update(g, x, y, Empty(x, y)), c.x, c.y, c), k) == Count(g, k)
  {
    CountUpdate(g, x, y, Empty(x, y), k);
    CountUpdate(Update(g, x, y, Empty(x, y)), c.x, c.y, c, k);
  }

  /** A birth happens exactly when a neighbour is Empty, and turns that
      Empty cell into one of the parent's kind. */
  lemma ReproduceCensus(o: Ocean, self: Cell, draws: seq<nat>, k: Kind)
    requires Occupies(o, self) && |draws| >= 1
    ensures Count(Reproduce(o, self, draws).ocean.data, k)
      == Count(o.data, k)
         + if HasNeighbor(o, self.x, self.y, EmptyKind)
           then Indicator(k == KindOf(self)) - Indicator(k == EmptyKind) else 0
  {
    ReproduceOnlyIntoEmpty(o, self, draws);
    if HasNeighbor(o, self.x, self.y, EmptyKind) {
      var r := Reproduce(o, self, draws);
      var i, j :| InBounds(o.width, o.height, i, j) && Near(self.x, self.y, i, j)
        && o.data[j][i].Empty?
        && r.ocean.data == Update(o.data, i, j, Offspring(self, i, j));
      CountUpdate(o.data, i, j, Offspring(self, i, j), k);
    }
  }

  /** A successful hunt turns exactly one Prey cell into an Empty cell. */
  lemma HuntCensus(o: Ocean, self: Cell, draws: seq<nat>, k: Kind)
    requires Occupies(o, self) && self.Predator? && |draws| >= 1
    ensures Count(Hunt(o, self, draws).ocean.data, k)
      == Count(o.data, k)
         + if HasNeighbor(o, self.x, self.y, PreyKind)
           then Indicator(k == EmptyKind) - Indicator(k == PreyKind) else 0
  {
    HuntKillsOnlyPrey(o, self, draws);
    if HasNeighbor(o, self.x, self.y, PreyKind) {
      var r := Hunt(o, self, draws);
      var i, j :| InBounds(o.width, o.height, i, j) && Near(self.x, self.y, i, j)
        && o.data[j][i].Prey?
        && r.ocean.data == Update(o.data, i, j, Empty(i, j));
      CountUpdate(o.data, i, j, Empty(i, j), k);
    }
  }

  /**
   * A prey's act adds one prey in place of one Empty cell when its countdown
   * was 0 and a neighbour was Empty; otherwise (it moved, or had nowhere to
   * put its offspring) every census is unchanged.
   */
  lemma PreyActCensus(o: Ocean, self: Cell, draws: seq<nat>, k: Kind)
    requires Occupies(o, self) && self.Prey? && o.processed[self.y][self.x] && |draws| >= 1
    ensures Count(PreyAct(o, self, draws).ocean.data, k)
      == Count(o.data, k)
         + if self.timeToReproduce == 0 && HasNeighbor(o, self.x, self.y, EmptyKind)
           then Indicator(k == PreyKind) - Indicator(k == EmptyKind) else 0
  {
    if self.timeToReproduce == 0 {
      PreyReproducingCensus(o, self, draws, k);
    } else {
      PreyMovingCensus(o, self, draws, k);
    }
  }

  lemma PreyReproducingCensus(o: Ocean, self: Cell, draws: seq<nat>, k: Kind)
    requires Occupies(o, self) && self.Prey? && o.processed[self.y][self.x] && |draws| >= 1
    requires self.timeToReproduce == 0
    ensures Count(PreyAct(o, self, draws).ocean.data, k)
      == Count(o.data, k)
         + if HasNeighbor(o, self.x, self.y, EmptyKind)
           then Indicator(k == PreyKind) - Indicator(k == EmptyKind) else 0
  {
    var rep := Reproduce(o, self, draws);
    ReproduceCensus(o, self, draws, k);
    PlaceKeepsCensus(rep.ocean, Prey(self.x, self.y, self.reproduceCycle, self.reproduceCycle), k);
  }

  lemma PreyMovingCensus(o: Ocean, self: Cell, draws: seq<nat>, k: Kind)
    requires Occupies(o, self) && self.Prey? && o.processed[self.y][self.x] && |draws| >= 1
    requires self.timeToReproduce != 0
    ensures Count(PreyAct(o, self, draws).ocean.data, k) == Count(o.data, k)
  {
    MoveKeepsCensus(o, Prey(self.x, self.y, self.reproduceCycle, self.timeToReproduce - 1), draws, k);
  }

  /**
   * A predator's act: starving turns its own cell Empty; reproducing adds one
   * predator in place of one Empty cell when a neighbour was Empty; foraging
   * turns one Prey cell Empty when a neighbour was Prey, and moving changes
   * nothing further.
   */
  lemma PredatorActCensus(o: Ocean, self: Cell, draws: seq<nat>, k: Kind)
    requires Occupies(o, self) && self.Predator? && o.processed[self.y][self.x] && |draws| >= 2
    ensures Count(PredatorAct(o, self, draws).ocean.data, k)
      == Count(o.data, k)
         + (if self.timeToStarve == 0 then Indicator(k == EmptyKind) - Indicator(k == PredatorKind)
            else if self.timeToReproduce == 0 && HasNeighbor(o, self.x, self.y, EmptyKind)
            then Indicator(k == PredatorKind) - Indicator(k == EmptyKind)
            else if self.timeToReproduce != 0 && HasNeighbor(o, self.x, self.y, PreyKind)
            then Indicator(k == EmptyKind) - Indicator(k == PreyKind)
            else 0)
  {
    if self.timeToStarve == 0 {
      CountUpdate(o.data, self.x, self.y, Empty(self.x, self.y), k);
    } else if self.timeToReproduce == 0 {
      PredatorBreedingCensus(o, self, draws, k);
    } else {
      PredatorForagingCensus(o, self, draws, k);
    }
  }

  lemma PredatorBreedingCensus(o: Ocean, self: Cell, draws: seq<nat>, k: Kind)
    requires Occupies(o, self) && self.Predator? && o.processed[self.y][self.x] && |draws| >= 2
    requires self.timeToStarve != 0 && self.timeToReproduce == 0
    ensures Count(PredatorAct(o, self, draws).ocean.data, k)
      == Count(o.data, k)
         + if HasNeighbor(o, self.x, self.y, EmptyKind)
           then Indicator(k == PredatorKind) - Indicator(k == EmptyKind) else 0
  {
    var s1 := Predator(self.x, self.y, self.reproduceCycle, self.timeToReproduce,
                       self.starveCycle, self.timeToStarve - 1);
    BreedsCensus(o, s1, draws, k);
    assert PredatorAct(o, self, draws) == PredatorBreeds(o, s1, draws);
  }

  lemma PredatorForagingCensus(o: Ocean, self: Cell, draws: seq<nat>, k: Kind)
    requires Occupies(o, self) && self.Predator? && o.processed[self.y][self.x] && |draws| >= 2
    requires self.timeToStarve != 0 && self.timeToReproduce != 0
    ensures Count(PredatorAct(o, self, draws).ocean.data, k)
      == Count(o.data, k)
         + if HasNeighbor(o, self.x, self.y, PreyKind)
           then Indicator(k == EmptyKind) - Indicator(k == PreyKind) else 0
  {
    var s1 := Predator(self.x, self.y, self.reproduceCycle, self.timeToReproduce,
                       self.starveCycle, self.timeToStarve - 1);
    ForagesCensus(o, s1, draws, k);
    assert PredatorAct(o, self, draws) == PredatorForages(o, s1, draws);
  }

  lemma BreedsCensus(o: Ocean, s1: Cell, draws: seq<nat>, k: Kind)
    requires Occupies(o, s1) && s1.Predator? && o.processed[s1.y][s1.x] && |draws| >= 1
    requires s1.timeToReproduce == 0
    ensures Count(PredatorBreeds(o, s1, draws).ocean.data, k)
      == Count(o.data, k)
         + if HasNeighbor(o, s1.x, s1.y, EmptyKind)
           then Indicator(k == PredatorKind) - Indicator(k == EmptyKind) else 0
  {
    var rep := Reproduce(o, s1, draws);
    ReproduceCensus(o, s1, draws, k);
    PlaceKeepsCensus(rep.ocean, Predator(s1.x, s1.y, s1.reproduceCycle, s1.reproduceCycle,
                                         s1.starveCycle, s1.timeToStarve), k);
  }

  lemma ForagesCensus(o: Ocean, s1: Cell, draws: seq<nat>, k: Kind)
    requires Occupies(o, s1) && s1.Predator? && o.processed[s1.y][s1.x] && |draws| >= 2
    requires s1.timeToReproduce != 0
    ensures Count(PredatorForages(o, s1, draws).ocean.data, k)
      == Count(o.data, k)
         + if HasNeighbor(o, s1.x, s1.y, PreyKind)
           then Indicator(k == EmptyKind) - Indicator(k == PreyKind) else 0
  {
    var s2 := Predator(s1.x, s1.y, s1.reproduceCycle, s1.timeToReproduce - 1,
                       s1.starveCycle, s1.timeToStarve);
    var h := Hunt(o, s2, draws);
    HuntCensus(o, s2, draws, k);
    MoveKeepsCensus(h.ocean, h.self, h.draws, k);
  }
}
