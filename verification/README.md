# Game of Life simulator — a Dafny model of its core

The program is a Conway's Game of Life toy built on pygame. Its logic lives
in `main.py`:

- `get_neighbors` lists the in-bounds cells around a position on a
  non-wrapping grid of `GRID_WIDTH` x `GRID_HEIGHT` tiles.
- `adjust_grid` computes one generation from the set of live cells. It
  runs two loops: survival over the live cells, then birth over the union
  of their neighbour lists.
- The event loop of `main` holds the state `(playing, count, gen_count,
  positions)`. Every frame it advances the counters while playing and
  steps the grid once every 60 played frames. It then turns clicks and key presses into play, pause,
  clear, toggle-cell, toggle-playing and reseed actions.

The model keeps the grid size as a parameter, `Geometry.Grid(width,
height)`. The program's own grid is `Geometry.ScreenGrid`, which is
1200 / 20 by 800 / 20 tiles. Live sets are arbitrary finite sets of
integer pairs, so cells outside the grid are covered too.

Modules:

- `Geometry` (`geometry.dfy`): cells, grid bounds, adjacency, and small
  facts about sequences and sets.
- `Neighbours` (`neighbours.dfy`): `get_neighbors`, built by walking the
  eight offsets in the order the source's two loops visit them.
- `Life` (`life.dfy`): the neighbour count, the step as a declarative set
  (`Step`), the rule it satisfies (`StepRule`), and the two loops of
  `adjust_grid` as methods proved equal to `Step`. The `all_neighbors` set
  is modelled as `Candidates`, the in-bounds cells at one of the eight
  offsets from a live cell, and proved equal to the union of the neighbour
  lists.
- `Patterns` (`patterns.dfy`): the empty board, a lone cell, the block and
  the blinker.
- `Seeding` (`seeding.dfy`): the random seeder `gen`, both as written and
  corrected (see Findings). The controller's `g` key uses `gen` as
  written, as the program does.
- `Controller` (`controller.dfy`): the tick, the commands, click and key
  dispatch, and whole frames, as pure functions on an immutable state
  record.

The step is a pure function of the live set and the grid. `AdjustGrid`
only reads its input and returns a new set, as the source does.

## Model

| member | source | states |
|---|---|---|
| Neighbours.GetNeighbors | main.py:59-73 | a cell is in the list exactly when it is one of the eight cells around the position and lies in [0, width) x [0, height); only the neighbour is bounds-checked, never the position. The list has no repetitions and at most eight entries |
| Neighbours.NeighboursFrom | main.py:62-71 | walking a list of offsets, a cell is appended exactly when it lies in [0, width) x [0, height) at one of the offsets from the position. There are never more entries than offsets, and none repeats when the offsets do not repeat |
| Neighbours.OffsetsAreTheEightDirections | main.py:62-69 | the offsets the two loops visit, with (0, 0) skipped, are exactly the eight directions to an adjacent cell, each visited once |
| Neighbours.AllInBounds | main.py:62-71 | when every offset leads into the grid, every offset contributes one entry |
| Neighbours.InteriorHasEight | main.py:59-73 | a position whose eight surrounding cells all lie in the grid has exactly eight neighbours |
| Neighbours.NeighbourSymmetric | main.py:59-73 | if c is listed for an in-bounds position p, then p is listed for c |
| Life.CountLive | main.py:45-47 | the length of the live filter of a list is at most the length of the list; `CountLiveElements` states its value |
| Life.LiveNeighbours | main.py:45-47 | the count `adjust_grid` takes for a cell; `LiveNeighboursCount` proves it equals the number of live in-bounds adjacent cells |
| Life.CountLiveElements | main.py:45-47 | for a list without repetitions, the length of its live filter equals the number of distinct live cells it holds |
| Life.LiveNeighboursCount | main.py:45-47 | the count the source takes (the length of the filtered neighbour list) equals the number of live in-bounds cells adjacent to the cell, and is at most 8 |
| Life.Step | main.py:37-57 | the result of `adjust_grid`; `StepRule` characterises it cell by cell and `AdjustGrid` proves the two loops compute it |
| Life.AliveNext | main.py:45-55 | the cell-by-cell rule: live with 2 or 3 counted neighbours, or dead, in the grid and with 3; `StepRule` proves `Step` agrees with it |
| Life.StepRule | main.py:37-57 | a cell is live in the next generation exactly when it is live with 2 or 3 live neighbours, or dead, inside the grid and with exactly 3; so every dead cell outside the grid stays dead |
| Life.CandidatesAreNeighbourLists | main.py:41-43 | a cell is collected in `all_neighbors` exactly when it appears in the neighbour list of a visited live cell |
| Life.CandidatesAdd | main.py:41-43 | visiting one more live cell adds exactly the entries of its neighbour list to `all_neighbors` |
| Life.StepRuleByAdjacency | main.py:37-57 | the rule of `StepRule`, with the count taken as the number of live in-bounds cells adjacent to the cell |
| Life.BornIsCandidate | main.py:41-43 | an in-bounds cell with at least one live neighbour is in the collected `all_neighbors` set |
| Life.CandidateInBounds | main.py:50-55 | every candidate for birth lies in the grid |
| Life.StepWithinBounds | main.py:41-57 | every cell of the next generation was live or lies in the grid, so a live set inside the grid stays inside it |
| Life.AdjustGrid | main.py:37-57 | the two loops, visiting the sets in any order, return exactly the declarative step |
| Life.SurvivalLoop | main.py:41-48 | the first loop collects the union of the live cells' neighbour lists and keeps exactly the live cells with 2 or 3 live neighbours |
| Life.BirthLoop | main.py:50-55 | the second loop adds exactly the candidates with 3 live neighbours |
| Patterns.EmptyStaysEmpty | main.py:37-57 | the step of the empty set is empty |
| Patterns.LoneCellDies | main.py:37-57 | a single live cell dies, wherever it is |
| Patterns.BlockIsStill | main.py:37-57 | a 2x2 block inside the grid is unchanged by one step |
| Patterns.BlinkerTurns | main.py:37-57 | three cells in a line around a centre that is at least one cell from the edges turn into the perpendicular line in one step |
| Patterns.BlinkerPeriodTwo | main.py:37-57 | such a blinker returns to itself after two steps |
| Patterns.EdgeBlinker | main.py:37-57 | on the 60 x 40 grid, {(1,0),(1,1),(1,2)} becomes {(0,1),(1,1),(2,1)}, and that becomes {(1,0),(1,1),(1,2)} again |
| Seeding.SeedAsWritten | main.py:22-23 | the seeder as written puts columns below the height and rows below the width |
| Seeding.SeedAsWrittenLeavesGrid | main.py:22-23 | on the 60 x 40 grid the seeder as written can produce cell (0, 45), which lies outside the grid |
| Seeding.Seed | main.py:22-23 | the corrected seeder puts every cell inside the grid |
| Seeding.ImageSize | main.py:23 | the set built from a sequence of draws has at most as many cells as there are draws, because duplicates collapse |
| Seeding.SeedSize | main.py:23 | the corrected seeder gives at most as many cells as there are draws |
| Seeding.SeedAsWrittenSize | main.py:23 | the seeder as written gives at most as many cells as there are draws |
| Seeding.SeedFitsGrid | main.py:23 | the corrected seeder gives at most width x height cells |
| Seeding.SeedAsWrittenFitsGrid | main.py:23 | the seeder as written also gives at most width x height cells, since its height x width box has as many cells as the grid |
| Seeding.SeedReachesEveryCell | main.py:23 | the corrected seeder reaches every in-bounds cell with a single draw |
| Seeding.SeedAsWrittenMissesColumns | main.py:23 | on the 60 x 40 grid the seeder as written never produces the in-bounds cell (45, 0), whatever the draws: columns 40 to 59 are never seeded |
| Controller.Tick | main.py:105-111 | a tick leaves `playing` unchanged, leaves `count` below 60 and keeps it non-negative |
| Controller.Generation | main.py:113 | the generation shown in the caption; `TickPlaying` proves it rises by one exactly when a tick computes a new generation |
| Controller.TickPaused | main.py:105-111 | under the loop invariant, a tick while paused changes nothing |
| Controller.TickPlaying | main.py:105-113 | a tick while playing adds one to `gen_count` and keeps the invariant. The displayed generation rises by one exactly when the grid is stepped and `count` is reset; otherwise `count` rises by one and the cells stay as they are |
| Controller.TickKeepsValid | main.py:105-111 | every tick keeps `count == gen_count % 60` with `gen_count >= 0` |
| Controller.ToggleCell | main.py:140-143 | the clicked cell flips between live and dead and no other cell changes |
| Controller.ToggleTwice | main.py:140-143 | toggling the same cell twice restores the set |
| Controller.Apply | main.py:126-156 | clear resets to the empty, paused, zero-counter state whatever the state was. No other command touches the counters. Play, pause and toggle-playing set `playing` and leave the cells alone. Toggle flips one cell only. Reseed calls `gen` as written, so every new cell has its column below the height and its row below the width. Every command keeps the invariant |
| Controller.PixelCell | main.py:136-138 | the tile chosen by floor division is the one whose 20-pixel square holds the pixel |
| Controller.ClickCommand | main.py:126-143 | a click gives Play exactly inside the play button, Pause exactly inside the pause button and Clear exactly inside the clear button. Anywhere else it toggles the tile under the pointer |
| Controller.HandleEvents | main.py:117-156 | the frame's events handled in order; characterised by the lemmas below |
| Controller.HandleEventsAppend | main.py:117-156 | handling two batches of events in turn is handling them as one batch, so the effect of a frame's events is the composition of the single events' effects |
| Controller.ClearKeyIsClearClick | main.py:130-153 | the `c` key and a click inside the clear button both give the initial state, whatever the state was |
| Controller.SpaceTwice | main.py:146-147 | pressing space twice restores the state |
| Controller.IgnoredEvents | main.py:117-156 | events that are neither a click nor space, `c` or `g` leave the state unchanged |
| Controller.HandleEventsKeepValid | main.py:117-156 | handling any sequence of events keeps the loop invariant |
| Controller.Frame | main.py:102-156 | one loop iteration: the tick, then the frame's events; characterised by `FrameKeepsValid` |
| Controller.FrameKeepsValid | main.py:102-156 | after every frame the invariant holds, so `count` lies in [0, 60) |
| Controller.StartIsValid | main.py:95-101 | the initial state is paused, empty, at generation 0 and satisfies the invariant |

Details of the code that the model keeps:

- Clicks are not bounds-checked. `ClickCommand` toggles the tile
  `(x // 20, y // 20)` of any click outside the buttons, as the code does.
- Live cells need not lie in the grid: the seeder as written can place
  cells outside it (see Findings). So `Step` is specified for arbitrary live sets.
- The tick resets when `count >= 60`, and it tests this whether or not the
  game is playing. `Tick` keeps both details.

## Left out

- Rendering: `draw_grid`, the drawing half of `draw_buttons`, the screen
  fill and the display update. They are pure presentation.
- Window, clock and font setup (main.py:4-20), and the frame-rate wait.
  These are I/O.
- The caption text (main.py:115). Only the generation number it shows is
  modelled, as `Controller.Generation`.
- Event polling, the QUIT event and `pygame.quit`. The events of a frame
  are a parameter of `Controller.Frame`, and leaving the loop is not
  modelled.
- Button hits assume that pygame's `Rect.collidepoint` tests the half-open
  box [left, left + width) x [top, top + height). pygame is not part of
  this model.
- The pointer position comes from `pygame.mouse.get_pos()`, read when the
  event is handled. Each `MouseDown` carries its own position, which
  covers that.
- Randomness: each `random.randrange(0, n)` is an arbitrary natural
  number taken modulo `n`, carried by the `g` key event.
- The reseed count `random.randrange(4, 10) * GRID_WIDTH` is not
  constrained. The number of draws is whatever the event carries.
- Python's set iteration order: the loops of `AdjustGrid` pick elements
  in an arbitrary order, so any order is covered.
- Neighbours.GetNeighbors: the contract states membership, the absence of
  repetitions and the size bound, but not the order of the list. The
  order is fixed by the definition, which follows the source's loops, and
  `adjust_grid` does not depend on it.

## Findings

| source | as written | input that shows it | evidently intended | confidence | as-written member | corrected member |
|---|---|---|---|---|---|---|
| main.py:23 | `gen` builds `(randrange(0, GRID_HEIGHT), randrange(0, GRID_WIDTH))`, but cells are `(column, row)` everywhere else. Columns are drawn only from [0, 40) and rows from [0, 60) | on the 60 x 40 grid, a second draw of 45 gives cell (0, 45), whose row lies below the last row 39; it is off-screen and never counts as anyone's neighbour. Conversely, no draws give the in-bounds cell (45, 0) (`Seeding.SeedAsWrittenMissesColumns`) | column from [0, GRID_WIDTH), row from [0, GRID_HEIGHT), so every seeded cell lies in the grid | high; not executed | Seeding.SeedAsWrittenLeavesGrid | Seeding.Seed |
