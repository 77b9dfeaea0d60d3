/**
 * The act-steps: what one occupant does when the tick reaches it
 * (`Cell.Act`, `Prey.Act`, `Predator.Act`). An act ends by writing the
 * acting creature back at its, possibly new, coordinates.
 */
module Behaviour {
  import opened Wrappers
  import opened Cells
  import opened Grids
  import opened Neighbors
  import opened Creatures

  /** The ocean after an act-step, the creature as written back (`None` if it
      died) and the draws left over. */
  datatype Acted = Acted(ocean: Ocean, survivor: Option<Cell>, draws: seq<nat>)

  /**
   * `Prey.Act`: when the countdown is 0 the prey reproduces and the
   * countdown restarts at its cycle; otherwise the countdown drops by one and
   * the prey moves. Either way the prey ends up written into the grid.
   */
  function PreyAct(o: Ocean, self: Cell, draws: seq<nat>): (r: Acted)
    requires Occupies(o, self) && self.Prey? && o.processed[self.y][self.x] && |draws| >= 1
    ensures Evolves(o, r.ocean)
    ensures TookAtMost(draws, r.draws, 1)
    ensures r.survivor.Some?
  {
    if self.timeToReproduce == 0 then
      var rep := Reproduce(o, self, draws);
      var s := Prey(self.x, self.y, self.reproduceCycle, self.reproduceCycle);
      var placed := Place(rep.ocean, s);
      EvolvesTransitive(o, rep.ocean, placed);
      Acted(placed, Some(s), rep.draws)
    else
      var s := Prey(self.x, self.y, self.reproduceCycle, self.timeToReproduce - 1);
      var m := Move(o, s, draws);
      var placed := Place(m.ocean, m.self);
      EvolvesTransitive(o, m.ocean, placed);
      Acted(placed, Some(m.self), m.draws)
  }

  /**
   * After its act the prey is written into the grid, within one step of
   * where it stood, with the same cycle; its countdown restarts at the
   * cycle when it was 0 and drops by one otherwise, so it stays within
   * [0, cycle]. A prey that reproduces does not move.
   */
  lemma PreyActCountdown(o: Ocean, self: Cell, draws: seq<nat>)
    requires Occupies(o, self) && self.Prey? && o.processed[self.y][self.x] && |draws| >= 1
    ensures var s := PreyAct(o, self, draws).survivor.value;
      && s.Prey? && s.reproduceCycle == self.reproduceCycle
      && s.timeToReproduce == (if self.timeToReproduce == 0 then self.reproduceCycle else self.timeToReproduce - 1)
      && InBounds(o.width, o.height, s.x, s.y) && Near(self.x, self.y, s.x, s.y)
      && PreyAct(o, self, draws).ocean.data[s.y][s.x] == s
      && (self.timeToReproduce == 0 ==> s.x == self.x && s.y == self.y)
      && (CountersInRange(self) ==> CountersInRange(s))
  {
  }

  /** A prey's act keeps every counter of the ocean within its cycle. */
  lemma PreyActInRange(o: Ocean, self: Cell, draws: seq<nat>)
    requires Occupies(o, self) && self.Prey? && o.processed[self.y][self.x] && |draws| >= 1
    requires AllInRange(o.data) && CountersInRange(self)
    ensures AllInRange(PreyAct(o, self, draws).ocean.data)
  {
    if self.timeToReproduce == 0 {
      PreyReproducingInRange(o, self, draws);
    } else {
      PreyMovingInRange(o, self, draws);
    }
  }

  lemma PreyReproducingInRange(o: Ocean, self: Cell, draws: seq<nat>)
    requires Occupies(o, self) && self.Prey? && o.processed[self.y][self.x] && |draws| >= 1
    requires AllInRange(o.data) && CountersInRange(self) && self.timeToReproduce == 0
    ensures AllInRange(PreyAct(o, self, draws).ocean.data)
  {
    var rep := Reproduce(o, self, draws);
    var s := Prey(self.x, self.y, self.reproduceCycle, self.reproduceCycle);
    ReproduceInRange(o, self, draws);
    UpdateInRange(rep.ocean.data, s.x, s.y, s);
  }

  lemma PreyMovingInRange(o: Ocean, self: Cell, draws: seq<nat>)
    requires Occupies(o, self) && self.Prey? && o.processed[self.y][self.x] && |draws| >= 1
    requires AllInRange(o.data) && CountersInRange(self) && self.timeToReproduce != 0
    ensures AllInRange(PreyAct(o, self, draws).ocean.data)
  {
    var s := Prey(self.x, self.y, self.reproduceCycle, self.timeToReproduce - 1);
    var m := Move(o, s, draws);
    MoveInRange(o, s, draws);
    UpdateInRange(m.ocean.data, m.self.x, m.self.y, m.self);
  }

  lemma MoveInRange(o: Ocean, self: Cell, draws: seq<nat>)
    requires Occupies(o, self) && |draws| >= 1 && AllInRange(o.data)
    ensures AllInRange(Move(o, self, draws).ocean.data)
  {
    var m := Move(o, self, draws);
    MoveOnlyIntoEmpty(o, self, draws);
    if (m.self.x, m.self.y) != (self.x, self.y) {
      UpdateInRange(o.data, self.x, self.y, Empty(self.x, self.y));
    }
  }

  lemma ReproduceInRange(o: Ocean, self: Cell, draws: seq<nat>)
    requires Occupies(o, self) && |draws| >= 1 && AllInRange(o.data) && CountersInRange(self)
    ensures AllInRange(Reproduce(o, self, draws).ocean.data)
  {
    ReproduceOnlyIntoEmpty(o, self, draws);
    if HasNeighbor(o, self.x, self.y, EmptyKind) {
      var r := Reproduce(o, self, draws);
      var i, j :| InBounds(o.width, o.height, i, j) && Near(self.x, self.y, i, j)
        && o.data[j][i].Empty?
        && r.ocean.data == Update(o.data, i, j, Offspring(self, i, j));
      UpdateInRange(o.data, i, j, Offspring(self, i, j));
    }
  }

  lemma HuntInRange(o: Ocean, self: Cell, draws: seq<nat>)
    requires Occupies(o, self) && self.Predator? && |draws| >= 1 && AllInRange(o.data)
    ensures AllInRange(Hunt(o, self, draws).ocean.data)
  {
    HuntKillsOnlyPrey(o, self, draws);
    if HasNeighbor(o, self.x, self.y, PreyKind) {
      var r := Hunt(o, self, draws);
      var i, j :| InBounds(o.width, o.height, i, j) && Near(self.x, self.y, i, j)
        && o.data[j][i].Prey?
        && r.ocean.data == Update(o.data, i, j, Empty(i, j));
      UpdateInRange(o.data, i, j, Empty(i, j));
    }
  }

  /**
   * `Predator.Act`: a predator whose starvation countdown is 0 dies and
   * does nothing else. Otherwise that countdown drops by one; then, when
   * the reproduction countdown is 0, the predator reproduces and that
   * countdown restarts; otherwise it drops by one, the predator hunts, and
   * (since `Hunt` returns nothing, so `Hunt(...) == None` always holds) it
   * then moves whether or not it ate. A survivor is written back.
   */
  function PredatorAct(o: Ocean, self: Cell, draws: seq<nat>): (r: Acted)
    requires Occupies(o, self) && self.Predator? && o.processed[self.y][self.x] && |draws| >= 2
    ensures Evolves(o, r.ocean)
    ensures TookAtMost(draws, r.draws, 2)
    ensures r.survivor.None? <==> self.timeToStarve == 0
  {
    if self.timeToStarve == 0 then
      Acted(Die(o, self), None, draws)
    else
      var s1 := Predator(self.x, self.y, self.reproduceCycle, self.timeToReproduce,
                         self.starveCycle, self.timeToStarve - 1);
      if s1.timeToReproduce == 0 then PredatorBreeds(o, s1, draws)
      else PredatorForages(o, s1, draws)
  }

  /** The reproducing branch of `Predator.Act`, entered with the starvation
      countdown already lowered. */
  function PredatorBreeds(o: Ocean, s1: Cell, draws: seq<nat>): (r: Acted)
    requires Occupies(o, s1) && s1.Predator? && o.processed[s1.y][s1.x] && |draws| >= 1
    requires s1.timeToReproduce == 0
    ensures Evolves(o, r.ocean)
    ensures TookAtMost(draws, r.draws, 1)
    ensures r.survivor.Some?
  {
    var rep := Reproduce(o, s1, draws);
    var s2 := Predator(s1.x, s1.y, s1.reproduceCycle, s1.reproduceCycle,
                       s1.starveCycle, s1.timeToStarve);
    var placed := Place(rep.ocean, s2);
    EvolvesTransitive(o, rep.ocean, placed);
    Acted(placed, Some(s2), rep.draws)
  }

  /** The hunting branch of `Predator.Act`: hunt, then move regardless. */
  function PredatorForages(o: Ocean, s1: Cell, draws: seq<nat>): (r: Acted)
    requires Occupies(o, s1) && s1.Predator? && o.processed[s1.y][s1.x] && |draws| >= 2
    requires s1.timeToReproduce != 0
    ensures Evolves(o, r.ocean)
    ensures TookAtMost(draws, r.draws, 2)
    ensures r.survivor.Some?
  {
    var s2 := Predator(s1.x, s1.y, s1.reproduceCycle, s1.timeToReproduce - 1,
                       s1.starveCycle, s1.timeToStarve);
    var h := Hunt(o, s2, draws);
    var m := Move(h.ocean, h.self, h.draws);
    var placed := Place(m.ocean, m.self);
    EvolvesTransitive(o, h.ocean, m.ocean);
    EvolvesTransitive(o, m.ocean, placed);
    TookSum(draws, h.draws, m.draws, 1, 1);
    Acted(placed, Some(m.self), m.draws)
  }

  /** A predator's act keeps every counter of the ocean within its cycles. */
  lemma PredatorActInRange(o: Ocean, self: Cell, draws: seq<nat>)
    requires Occupies(o, self) && self.Predator? && o.processed[self.y][self.x] && |draws| >= 2
    requires AllInRange(o.data) && CountersInRange(self)
    ensures AllInRange(PredatorAct(o, self, draws).ocean.data)
  {
    if self.timeToStarve == 0 {
      UpdateInRange(o.data, self.x, self.y, Empty(self.x, self.y));
    } else if self.timeToReproduce == 0 {
      PredatorBreedingInRange(o, self, draws);
    } else {
      PredatorForagingInRange(o, self, draws);
    }
  }

  lemma PredatorBreedingInRange(o: Ocean, self: Cell, draws: seq<nat>)
    requires Occupies(o, self) && self.Predator? && o.processed[self.y][self.x] && |draws| >= 2
    requires AllInRange(o.data) && CountersInRange(self)
    requires self.timeToStarve != 0 && self.timeToReproduce == 0
    ensures AllInRange(PredatorAct(o, self, draws).ocean.data)
  {
    var rep := Reproduce(o, self, draws);
    var s2 := Predator(self.x, self.y, self.reproduceCycle, self.reproduceCycle,
                       self.starveCycle, self.timeToStarve - 1);
    ReproduceInRange(o, self, draws);
    UpdateInRange(rep.ocean.data, s2.x, s2.y, s2);
  }

  lemma PredatorForagingInRange(o: Ocean, self: Cell, draws: seq<nat>)
    requires Occupies(o, self) && self.Predator? && o.processed[self.y][self.x] && |draws| >= 2
    requires AllInRange(o.data) && CountersInRange(self)
    requires self.timeToStarve != 0 && self.timeToReproduce != 0
    ensures AllInRange(PredatorAct(o, self, draws).ocean.data)
  {
    var s1 := Predator(self.x, self.y, self.reproduceCycle, self.timeToReproduce,
                       self.starveCycle, self.timeToStarve - 1);
    ForagesInRange(o, s1, draws);
    assert PredatorAct(o, self, draws) == PredatorForages(o, s1, draws);
  }

  lemma ForagesInRange(o: Ocean, s1: Cell, draws: seq<nat>)
    requires Occupies(o, s1) && s1.Predator? && o.processed[s1.y][s1.x] && |draws| >= 2
    requires s1.timeToReproduce != 0 && AllInRange(o.data) && CountersInRange(s1)
    ensures AllInRange(PredatorForages(o, s1, draws).ocean.data)
  {
    var s2 := Predator(s1.x, s1.y, s1.reproduceCycle, s1.timeToReproduce - 1,
                       s1.starveCycle, s1.timeToStarve);
    var h := Hunt(o, s2, draws);
    HuntInRange(o, s2, draws);
    var m := Move(h.ocean, h.self, h.draws);
    MoveInRange(h.ocean, h.self, h.draws);
    UpdateInRange(m.ocean.data, m.self.x, m.self.y, m.self);
  }

  /** Whatever occupies (x, y), its act keeps every counter within its cycles. */
  lemma CellActInRange(o: Ocean, x: nat, y: nat, draws: seq<nat>)
    requires o.Valid() && InBounds(o.width, o.height, x, y) && o.processed[y][x] && |draws| >= 2
    requires AllInRange(o.data)
    ensures AllInRange(CellAct(o, x, y, draws).ocean.data)
  {
    var c := o.data[y][x];
    if c.Prey? {
      PreyActInRange(o, c, draws);
    } else if c.Predator? {
      PredatorActInRange(o, c, draws);
    }
  }

  /**
   * `Cell.Act` and its overrides, dispatched on the occupant of (x, y):
   * Empty and Obstacle return themselves and change nothing.
   */
  function CellAct(o: Ocean, x: nat, y: nat, draws: seq<nat>): (r: Acted)
    requires o.Valid() && InBounds(o.width, o.height, x, y) && o.processed[y][x] && |draws| >= 2
    ensures Evolves(o, r.ocean)
    ensures TookAtMost(draws, r.draws, 2)
    ensures !o.data[y][x].IsCreature() ==> r == Acted(o, Some(o.data[y][x]), draws)
  {
    var c := o.data[y][x];
    match c
    case Empty(_, _) => Acted(o, Some(c), draws)
    case Obstacle(_, _) => Acted(o, Some(c), draws)
    case Prey(_, _, _, _) => PreyAct(o, c, draws)
    case Predator(_, _, _, _, _, _) => PredatorAct(o, c, draws)
  }

  /**
   * A predator whose starvation countdown is 0 dies: its slot becomes Empty
   * and nothing else changes, no reproduction, hunt, move or write-back,
   * and no draw is taken.
   */
  lemma PredatorStarves(o: Ocean, self: Cell, draws: seq<nat>)
    requires Occupies(o, self) && self.Predator? && o.processed[self.y][self.x] && |draws| >= 2
    requires self.timeToStarve == 0
    ensures var r := PredatorAct(o, self, draws);
      && r.survivor.None?
      && r.ocean.width == o.width && r.ocean.height == o.height
      && r.ocean.processed == o.processed
      && r.ocean.data == Update(o.data, self.x, self.y, Empty(self.x, self.y))
      && r.draws == draws
  {
  }

  /**
   * A predator that survives is written into the grid within one step of
   * where it stood, with the same cycles. Its reproduction countdown
   * restarts when it was 0 and drops by one otherwise; its starvation
   * countdown drops by one, except that it restarts at the starvation cycle
   * when the predator ate, which it does exactly when it did not reproduce
   * and a neighbour is exactly Prey. A predator that reproduces does not
   * move. Counters within their cycles stay within them.
   */
  lemma PredatorActCountdown(o: Ocean, self: Cell, draws: seq<nat>)
    requires Occupies(o, self) && self.Predator? && o.processed[self.y][self.x] && |draws| >= 2
    requires self.timeToStarve != 0
    ensures var s := PredatorAct(o, self, draws).survivor.value;
      && s.Predator?
      && s.reproduceCycle == self.reproduceCycle && s.starveCycle == self.starveCycle
      && s.timeToReproduce == (if self.timeToReproduce == 0 then self.reproduceCycle else self.timeToReproduce - 1)
      && s.timeToStarve == (if self.timeToReproduce != 0 && HasNeighbor(o, self.x, self.y, PreyKind)
                            then self.starveCycle else self.timeToStarve - 1)
      && InBounds(o.width, o.height, s.x, s.y) && Near(self.x, self.y, s.x, s.y)
      && PredatorAct(o, self, draws).ocean.data[s.y][s.x] == s
      && (self.timeToReproduce == 0 ==> s.x == self.x && s.y == self.y)
      && (CountersInRange(self) ==> CountersInRange(s))
  {
    var s1 := Predator(self.x, self.y, self.reproduceCycle, self.timeToReproduce,
                       self.starveCycle, self.timeToStarve - 1);
    if self.timeToReproduce != 0 {
      var s2 := Predator(s1.x, s1.y, s1.reproduceCycle, s1.timeToReproduce - 1,
                         s1.starveCycle, s1.timeToStarve);
      HuntKillsOnlyPrey(o, s2, draws);
    }
  }

  /**
   * The hunt's result is ignored, so a predator that eats also moves in the
   * same act; and since the prey's slot has just become Empty it always
   * finds somewhere to go.
   */
  lemma PredatorThatEatsAlsoMoves(o: Ocean, self: Cell, draws: seq<nat>)
    requires Occupies(o, self) && self.Predator? && o.processed[self.y][self.x] && |draws| >= 2
    requires self.timeToStarve != 0 && self.timeToReproduce != 0
    requires HasNeighbor(o, self.x, self.y, PreyKind)
    ensures var s := PredatorAct(o, self, draws).survivor.value;
      (s.x, s.y) != (self.x, self.y)
  {
    var s1 := Predator(self.x, self.y, self.reproduceCycle, self.timeToReproduce,
                       self.starveCycle, self.timeToStarve - 1);
    ForagerThatEatsMoves(o, s1, draws);
    assert PredatorAct(o, self, draws) == PredatorForages(o, s1, draws);
  }

  lemma ForagerThatEatsMoves(o: Ocean, s1: Cell, draws: seq<nat>)
    requires Occupies(o, s1) && s1.Predator? && o.processed[s1.y][s1.x] && |draws| >= 2
    requires s1.timeToReproduce != 0
    requires HasNeighbor(o, s1.x, s1.y, PreyKind)
    ensures var s := PredatorForages(o, s1, draws).survivor.value;
      (s.x, s.y) != (s1.x, s1.y)
  {
    var s2 := Predator(s1.x, s1.y, s1.reproduceCycle, s1.timeToReproduce - 1,
                       s1.starveCycle, s1.timeToStarve);
    EatThenMove(o, s2, draws);
  }

  /** The prey a hunter eats leaves an Empty neighbour, so the hunter's move afterwards always succeeds. */
  lemma EatThenMove(o: Ocean, self: Cell, draws: seq<nat>)
    requires Occupies(o, self) && self.Predator? && |draws| >= 2
    requires HasNeighbor(o, self.x, self.y, PreyKind)
    ensures var h := Hunt(o, self, draws);
      var m := Move(h.ocean, h.self, h.draws);
      (m.self.x, m.self.y) != (self.x, self.y)
  {
    var h := Hunt(o, self, draws);
    HuntLeavesEmptyNeighbor(o, self, draws);
    HunterStaysPut(o, self, draws);
    MovesAway(h.ocean, h.self, h.draws);
  }

  /** A hunter still occupies its own slot after the hunt, with a draw to spare. */
  lemma HunterStaysPut(o: Ocean, self: Cell, draws: seq<nat>)
    requires Occupies(o, self) && self.Predator? && |draws| >= 2
    ensures var h := Hunt(o, self, draws);
      Occupies(h.ocean, h.self) && (h.self.x, h.self.y) == (self.x, self.y) && |h.draws| >= 1
  {
  }

  /** A creature with an Empty neighbour leaves its slot when it moves. */
  lemma MovesAway(o: Ocean, self: Cell, draws: seq<nat>)
    requires Occupies(o, self) && |draws| >= 1
    requires HasNeighbor(o, self.x, self.y, EmptyKind)
    ensures var m := Move(o, self, draws); (m.self.x, m.self.y) != (self.x, self.y)
  {
    MoveOnlyIntoEmpty(o, self, draws);
  }

  /** After a successful hunt the prey's slot is an Empty neighbour of the hunter. */
  lemma HuntLeavesEmptyNeighbor(o: Ocean, self: Cell, draws: seq<nat>)
    requires Occupies(o, self) && self.Predator? && |draws| >= 1
    requires HasNeighbor(o, self.x, self.y, PreyKind)
    ensures var h := Hunt(o, self, draws);
      h.self.x == self.x && h.self.y == self.y && HasNeighbor(h.ocean, self.x, self.y, EmptyKind)
  {
    var h := Hunt(o, self, draws);
    HuntKillsOnlyPrey(o, self, draws);
    var i, j :| InBounds(o.width, o.height, i, j) && Near(self.x, self.y, i, j)
      && o.data[j][i].Prey?
      && h.ocean.data == Update(o.data, i, j, Empty(i, j));
    EmptiedNeighbor(o, h.ocean, self.x, self.y, i, j);
  }

  /** A neighbour slot just overwritten with Empty is an Empty neighbour. */
  lemma EmptiedNeighbor(o: Ocean, o': Ocean, x: nat, y: nat, i: nat, j: nat)
    requires o.Valid() && o'.Valid() && o'.width == o.width && o'.height == o.height
    requires InBounds(o.width, o.height, i, j) && Near(x, y, i, j)
    requires o'.data == Update(o.data, i, j, Empty(i, j))
    ensures HasNeighbor(o', x, y, EmptyKind)
  {
    NeighborsExactly(o', x, y, Empty(i, j));
  }
}
