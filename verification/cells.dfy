/**
 * The occupants of an ocean cell: the classes Cell, EmptyCell, Obstacle,
 * Creature, Prey and Predator, as one tagged union whose tag is the cell's
 * exact class, its Kind.
 */
module Cells {
  import opened Wrappers

  /** The exact class of a cell, what `type(c)` yields. */
  datatype Kind = EmptyKind | ObstacleKind | PreyKind | PredatorKind

  /** Every variant stores the position it occupies, so a cell knows where it stands. */
  datatype Cell =
    | Empty(x: nat, y: nat)
    | Obstacle(x: nat, y: nat)
    | Prey(x: nat, y: nat, reproduceCycle: int, timeToReproduce: int)
    | Predator(x: nat, y: nat, reproduceCycle: int, timeToReproduce: int,
               starveCycle: int, timeToStarve: int)
  {
    /** Prey and Predator are the Creature subclasses. */
    predicate IsCreature() {
      Prey? || Predator?
    }
  }

  function KindOf(c: Cell): Kind {
    match c
    case Empty(_, _) => EmptyKind
    case Obstacle(_, _) => ObstacleKind
    case Prey(_, _, _, _) => PreyKind
    case Predator(_, _, _, _, _, _) => PredatorKind
  }

  /** The glyph a kind is drawn with (the class attribute `image`). */
  function Image(k: Kind): char {
    match k
    case EmptyKind => ' '
    case ObstacleKind => '*'
    case PreyKind => 'O'
    case PredatorKind => 'X'
  }

  /** Reads a glyph back; `None` for any character that is not one of the four. */
  function KindOfImage(ch: char): (r: Option<Kind>)
    ensures r.None? <==> ch !in {' ', '*', 'O', 'X'}
    ensures r.Some? ==> Image(r.value) == ch
    ensures forall k :: Image(k) == ch ==> r == Some(k)
  {
    if ch == ' ' then Some(EmptyKind)
    else if ch == '*' then Some(ObstacleKind)
    else if ch == 'O' then Some(PreyKind)
    else if ch == 'X' then Some(PredatorKind)
    else None
  }

  /** The cycle constants a configuration gives to every creature it creates. */
  datatype Params = Params(preyReproduceCycle: int, predatorReproduceCycle: int,
                           predatorStarveCycle: int)

  /** A freshly constructed cell of kind `k` at (x, y): counters start at their cycles. */
  function NewCell(k: Kind, x: nat, y: nat, p: Params): (c: Cell)
    ensures KindOf(c) == k && c.x == x && c.y == y
    ensures c.Prey? ==> c.reproduceCycle == p.preyReproduceCycle && c.timeToReproduce == p.preyReproduceCycle
    ensures c.Predator? ==>
      && c.reproduceCycle == p.predatorReproduceCycle && c.timeToReproduce == p.predatorReproduceCycle
      && c.starveCycle == p.predatorStarveCycle && c.timeToStarve == p.predatorStarveCycle
  {
    match k
    case EmptyKind => Empty(x, y)
    case ObstacleKind => Obstacle(x, y)
    case PreyKind => Prey(x, y, p.preyReproduceCycle, p.preyReproduceCycle)
    case PredatorKind =>
      Predator(x, y, p.predatorReproduceCycle, p.predatorReproduceCycle,
               p.predatorStarveCycle, p.predatorStarveCycle)
  }

  /**
   * The child a creature places at (x, y) when it reproduces: same kind, same
   * cycle constants, counters reset to those cycles.
   */
  function Offspring(parent: Cell, x: nat, y: nat): (c: Cell)
    requires parent.IsCreature()
    ensures KindOf(c) == KindOf(parent) && c.x == x && c.y == y
    ensures c.reproduceCycle == parent.reproduceCycle
    ensures c.timeToReproduce == parent.reproduceCycle
    ensures c.Predator? ==> c.starveCycle == parent.starveCycle && c.timeToStarve == parent.starveCycle
  {
    match parent
    case Prey(_, _, rc, _) => Prey(x, y, rc, rc)
    case Predator(_, _, rc, _, sc, _) => Predator(x, y, rc, rc, sc, sc)
  }

  /** Each countdown lies between 0 and its cycle length. */
  predicate CountersInRange(c: Cell) {
    match c
    case Prey(_, _, rc, t) => 0 <= t <= rc
    case Predator(_, _, rc, t, sc, s) => 0 <= t <= rc && 0 <= s <= sc
    case _ => true
  }
}
