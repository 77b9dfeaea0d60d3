# Wa-Tor ocean, modelled in Dafny

A model of `main.py`, a Wa-Tor predator/prey cellular automaton. The ocean
is a `height` by `width` grid. Each cell holds one of four occupants:

- Empty (`' '`);
- Obstacle (`'*'`);
- Prey (`'O'`), with a reproduction countdown;
- Predator (`'X'`), with a reproduction countdown and a starvation countdown.

An ocean is built from a preset text layout (`Ocean.ParseInitialState`).
In one tick (`Ocean.Act`) the grid is scanned row by row, left to right. Every
position not yet marked processed is marked, and its occupant acts:

- A prey reproduces into a random Empty neighbour when its countdown is 0;
  otherwise it moves to one.
- A predator dies when its starvation countdown is 0. Otherwise it reproduces,
  or it hunts a Prey neighbour and then moves.
- Every creature marks the position it moves or gives birth into, so a
  creature acts at most once per tick.

The ocean is printed one glyph per cell (`Ocean.__str__`).

Modules, in dependency order:

- `Wrappers`: `Option` and `Result`.
- `Cells`: the occupants, their kinds and glyphs, and fresh cells.
- `Grids`: the grid, the processed mask, the `Ocean` record, the legal
  evolutions of an ocean (`Evolves`) and the census (`Count`).
- `Neighbors`: `GetNeighbors`, over row-major position lists.
- `Creatures`: `ChooseNeighbor`, `Move`, `Die`, `Reproduce`, `Hunt` and the
  write-back `Place`.
- `Behaviour`: `Cell.Act`, `Prey.Act` and `Predator.Act`.
- `Population`: census deltas of every act-step.
- `Ticks`: one tick, `Ocean.Act`.
- `Text`: `'\n'.join` and `split('\n')`.
- `Rendering`: `__str__`.
- `Preset`: building an ocean from a layout.
- `Scenarios`: small concrete oceans.

Randomness is an explicit stream of draws, `seq<nat>`. Each
`random.randrange(n)` takes the next draw `d` and uses `d % n`; no other step
takes a draw. `ChooseCoversCandidates` shows that every candidate is
reachable this way.

`Predator.Hunt` returns nothing, so `self.Hunt(ocean) == None` always holds
(main.py:103-104); a predator that eats therefore also moves, which
`PredatorThatEatsAlsoMoves` proves.

## Model

| member | source | states |
|---|---|---|
| `Cells.KindOfImage` | main.py:120-130 | A glyph is accepted exactly when it is one of `' '`, `'*'`, `'O'`, `'X'`; an accepted glyph reads back as the one kind drawn with it. |
| `Cells.NewCell` | main.py:122-130 | A cell built from a glyph at (x, y) has that glyph's kind and stands at (x, y); a Prey or Predator carries the configured cycles with each countdown equal to its cycle. |
| `Cells.Offspring` | main.py:57-61 | A child has its parent's kind and cycles, both countdowns at their cycles, and stands on the chosen neighbour. |
| `Neighbors.GetNeighbors` | main.py:132-137 | At most nine cells, the centre among them. In a well-placed grid each one lies in bounds, within one step, at its own slot. |
| `Neighbors.NeighborsExactly` | main.py:132-137 | A cell is a neighbour of (x, y) if and only if it occupies an in-bounds position within one step of (x, y), centre included. |
| `Creatures.ChooseNeighbor` | main.py:30-35 | `None` exactly when no neighbour is of exactly the asked kind. Otherwise a neighbour of that kind, at the cost of exactly one draw; no draw when there is none. |
| `Creatures.ChooseCoversCandidates` | main.py:33 | Every neighbour of the asked kind is the choice for some draw. |
| `Creatures.Move` | main.py:37-43 | The creature keeps its counters and ends in bounds within one step, never on an obstacle. Its new position is marked when its old one was. The change is a legal evolution, and at most one draw is taken. |
| `Creatures.MoveOnlyIntoEmpty` | main.py:37-43 | It moves if and only if a neighbour is Empty. It then moves onto an Empty slot, empties its old slot, marks only the target and takes one draw. Otherwise nothing changes. |
| `Creatures.Die` | main.py:48-49 | The cell's own slot becomes Empty; the mask and every other slot are unchanged. |
| `Creatures.Reproduce` | main.py:80-85 | The parent's slot is untouched, the evolution is legal, and at most one draw is taken. |
| `Creatures.ReproduceOnlyIntoEmpty` | main.py:57-61 | With an Empty neighbour: exactly one Empty neighbour slot gets the offspring and is marked, using one draw. Without one: nothing changes and no draw is taken. |
| `Creatures.Hunt` | main.py:87-91 | The hunter's slot and the mask are untouched. The hunter is unchanged or has its starvation countdown reset to its cycle. At most one draw is taken. |
| `Creatures.HuntKillsOnlyPrey` | main.py:87-91 | With no Prey neighbour, nothing changes. Otherwise exactly one neighbour of kind exactly Prey becomes Empty, the starvation countdown restarts, and one draw is taken. |
| `Creatures.Place` | main.py:71 | The write-back stores the creature at its coordinates and nothing else; over a marked, non-obstacle slot this is a legal evolution. |
| `Behaviour.CellAct` | main.py:11-12 | Empty and Obstacle occupants return themselves and change nothing. Every occupant's act is a legal evolution taking at most two draws. |
| `Behaviour.PreyAct` | main.py:63-71 | A prey's act is a legal evolution: obstacles are kept, marks only grow, and an unmarked slot keeps its occupant or becomes Empty. It takes at most one draw and the prey survives. |
| `Behaviour.PreyActCountdown` | main.py:63-71 | The prey is written back within one step with its cycle. Its countdown restarts at 0 and drops by one otherwise. A reproducing prey does not move. Counters stay in range. |
| `Behaviour.PreyActInRange` | main.py:63-71 | A prey's act keeps every counter in the grid within its cycle. |
| `Behaviour.PredatorAct` | main.py:93-107 | A predator's act is a legal evolution taking at most two draws. The predator dies exactly when its starvation countdown is 0. |
| `Behaviour.PredatorStarves` | main.py:94-95 | At starvation countdown 0 only its own slot becomes Empty. The mask is unchanged and no draw is taken. |
| `Behaviour.PredatorActCountdown` | main.py:96-107 | A survivor is written back within one step with its cycles. Its reproduction countdown restarts or drops. Its starvation countdown restarts exactly when it did not reproduce and had a Prey neighbour, and drops by one otherwise. A breeder does not move. |
| `Behaviour.PredatorThatEatsAlsoMoves` | main.py:101-106 | A predator that eats also moves in the same act: it always ends on a different position, since the prey's slot is now Empty. |
| `Behaviour.PredatorActInRange` | main.py:93-107 | A predator's act keeps every counter in the grid within its cycles. |
| `Behaviour.CellActInRange` | main.py:157 | Any occupant's act keeps every counter in the grid within its cycles. |
| `Population.MoveKeepsCensus` | main.py:37-43 | A move followed by the write-back leaves the count of every kind unchanged. |
| `Population.ReproduceCensus` | main.py:80-85 | A birth happens exactly when a neighbour is Empty and turns one Empty cell into one cell of the parent's kind. |
| `Population.HuntCensus` | main.py:87-91 | A hunt turns one Prey into one Empty exactly when a Prey neighbour exists, and changes no count otherwise. |
| `Population.PreyActCensus` | main.py:63-71 | A prey's act adds one Prey in place of one Empty exactly when its countdown is 0 and a neighbour is Empty; otherwise no count changes. |
| `Population.PredatorActCensus` | main.py:93-107 | A predator's act changes the census exactly one way, or not at all: starvation (Predator to Empty), birth with an Empty neighbour (Empty to Predator), or a kill with a Prey neighbour (Prey to Empty). |
| `Population.ObstacleCensusKept` | main.py:151-157 | Any legal evolution keeps the number of obstacles. |
| `Population.TickKeepsObstacleCensus` | main.py:151-157 | A tick keeps the number of obstacles. |
| `Ticks.Tick` | main.py:151-157 | A tick keeps the dimensions and every obstacle in place, creates none, and takes at most two draws per position. |
| `Ticks.TickMarksAll` | main.py:152-156 | After a tick every position is marked processed. |
| `Ticks.TickTurnsInOrder` | main.py:153-157 | Turns are taken in strictly row-major order at in-bounds positions, so no position acts twice in a tick. |
| `Ticks.TickActorsOriginal` | main.py:153-157 | Each cell that acts is the one that stood there when the tick began, or Empty. Nothing that arrived during the tick acts in it. |
| `Ticks.TickInRange` | main.py:151-157 | A tick keeps every counter within its cycles. |
| `Text.Split` | main.py:117 | `split('\n')` gives at least one piece, no piece holds a newline, and joining the pieces gives the text back. |
| `Text.SplitJoin` | main.py:117 | Splitting a join of newline-free lines gives the lines back. |
| `Rendering.RenderSplits` | main.py:159-166 | Splitting the rendering on newlines gives one line of glyphs per row, then an empty piece. |
| `Rendering.RenderByKinds` | main.py:159-166 | The rendering depends only on the kind at each position. |
| `Preset.ParseInitialState` | main.py:116-130 | Succeeds if and only if every glyph after the first character is known and inside the grid. Then each slot holds a fresh cell of its glyph's kind, or the placeholder where the layout has no glyph. Otherwise the error is the first bad glyph in reading order: an unknown glyph, else one out of bounds. |
| `Preset.BuildOcean` | main.py:147 | The ocean is built if and only if no placeholder remains, holding the parsed cells. |
| `Preset.NewOcean` | main.py:147-149 | A built ocean has the configured size and every cell at its own coordinates. |
| `Preset.NewOceanInRange` | main.py:25-28 | With non-negative cycle constants, every creature of a freshly built ocean has its counters within its cycles, as the tick's range lemmas require. |
| `Preset.UnknownGlyphRejected` | main.py:120-121 | A glyph outside the four makes the parse fail. |
| `Preset.RenderThenParse` | main.py:159-166 | Reading a rendering back behind any first character gives an ocean of the same size with a fresh cell of the same kind at every position, and the same rendering. |
| `Scenarios.ImmediateStarvation` | main.py:94-95 | In `X ` with the predator's starvation countdown at 0, one tick leaves `  `. |
| `Scenarios.UnknownGlyphScenario` | main.py:120-121 | The layout `Z` is refused at (0, 0) with the unknown glyph `'Z'`. |
| `Scenarios.OutsideBeforeUnknownScenario` | main.py:118-127 | In a 1 by 1 ocean, `OOZ` fails with the index error at (1, 0) before it reaches `'Z'`. |

## Left out

- Configuration reading (`GetData`, main.py:139-146) and the command line and output loop (main.py:168-181) are file and stream I/O. The model takes width, height and the three cycle constants as parameters (`Params`).
- The non-preset mode of `GetData` (main.py:148) is left out. It leaves every slot as the `'@'` placeholder, and the program has no other initialisation.
- Preset.BuildOcean: refuses a grid with a placeholder left as `Uninitialized`, at construction. The program builds such an ocean without error (main.py:147-149) and fails later with an `AttributeError`, at the first `str(ocean)` (main.py:164, reached from main.py:178).
- Preset.ParseInitialState: its `ParseError` carries the position, and for `InvalidInitialState` the glyph. The program's `ValueError` (main.py:121) and `IndexError` carry only a message. The failing condition and its order are modelled; the message text is not.
- Preset.ParseInitialState: reads the layout as Dafny characters. The program reads a Python 2 byte string. The four glyphs and `'\n'` are single bytes, so the splitting and the glyph tests agree; the model does not cover multi-byte input.
- Creatures.ChooseNeighbor: `random.randrange(n)` (main.py:33) is modelled as the next draw `d` of a finite stream, taken as `d % n`. The probability distribution is not modelled. A tick needs a stream of at least `2 * width * height` draws, two per act-step at most.
- Behaviour.CellAct: cells are values, not objects, so in-place mutation of a creature's counters and coordinates becomes a fresh record written back by `Place`. This is equivalent here: between a creature being read from the grid and written back, only kinds and coordinates are read from the grid.
- Cycle constants are unbounded integers and are not checked, as in the program. The range lemmas require counters within their cycles at the start.
