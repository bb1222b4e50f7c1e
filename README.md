# Minesweeper game-state engine, modelled in Dafny

This project models the game-state engine of a browser minesweeper game
(`minesweeper.js`). It covers the grid of cells, each with the fields `isMine`,
`revealed`, `flagged` and `count`, and the operations on that grid:

- the difficulty table;
- starting a round: clearing every cell, placing the mines by rejection sampling
  and filling in the adjacency counts;
- counting the mines around a cell;
- the breadth-first flood-fill reveal, with its Loss and Win outcomes;
- revealing every mine;
- flag toggling;
- the win test.

The code is organised into five modules:

- `Grid` (`grid.dfy`): positions, the 8-neighbourhood, and the offsets in the order
  the nested `dx`/`dy` loops visit them. It also proves that a `width x height`
  board has `width * height` cells.
- `Neighbourhood` (`neighbourhood.dfy`): the mine count over the eight offsets,
  computed over a set of mine positions. It proves the count equals the number of
  mined neighbours, is at most 8, and is 0 exactly when no neighbour is a mine.
- `FloodFill` (`floodfill.dfy`): the fill rule, stated over a snapshot of the parts
  of the board that a reveal never changes. The flood fill from a start cell is the
  least set closed under the rule. The module proves:
  - the flood fill is unique;
  - it is the set of cells reachable along fill paths;
  - with correct counts it holds no mine, unless it starts on one;
  - the invariant of the breadth-first loop, one step at a time.
- `Minesweeper` (`minesweeper.dfy`): the class `Minefield`. Its methods update the
  board in place, as the source's functions update `cells`. Each field of the cell
  record is its own `width x height` array, and each method names in its
  `modifies` clause the fields it writes. The inner `dy` loop of
  `countAdjacentMines` and the arming step of `placeMines` are methods of their
  own (`CountColumn`, `ArmCell`). They run the same steps in the same order as
  the source.
- `Scenarios` (`scenarios.dfy`): small boards played through the engine:
  - revealing the centre of an empty 3 x 3 board wins;
  - revealing the only mine loses and shows that mine alone;
  - revealing a numbered cell shows that cell alone;
  - placing two mines from the draws (0,0), (0,0), (1,1), (2,2) passes over the repeated
    draw and leaves the last draw unused;
  - flagging a cell twice changes nothing.

## Model

| member | source | states |
|---|---|---|
| Minesweeper.SettingsFor | minesweeper.js:9-35 | each difficulty gives a non-empty square board with fewer mines than cells; any unknown name plays as easy (10 x 10, 10 mines) |
| Minesweeper.Minefield.constructor | minesweeper.js:68-78 | allocates a grid of `width x height` cells |
| Minesweeper.Minefield.AllCells | minesweeper.js:98-100 | a position is a cell of the board exactly when `inBounds` accepts it |
| Grid.BlockSize | minesweeper.js:68-78 | the two nested loops over `x < width` and `y < height` visit exactly `width * height` cells |
| Minesweeper.Minefield.ClearCells | minesweeper.js:68-78 | afterwards every cell is `{isMine: false, revealed: false, flagged: false, count: 0}` |
| Minesweeper.DrawAccounting | minesweeper.js:104-111 | a draw on a mine leaves the unmined drawn cells as they were; a draw on a fresh cell takes exactly that cell out of them, so one fewer remains |
| Minesweeper.PlacedCount | minesweeper.js:102-113 | given at least `k` distinct drawn cells without a mine, placing `k` mines keeps every old mine, adds only drawn cells, and adds exactly `k` of them |
| Minesweeper.PlacedStep | minesweeper.js:104-111 | one draw: a fresh cell is armed and one fewer mine remains to place; a draw on a mine is passed over and changes nothing |
| Minesweeper.PlacingStep | minesweeper.js:103-111 | while mines remain to be placed another draw exists, and taking it keeps the placing loop on course to the same final mines, which have as many more mines as remain to be placed |
| Minesweeper.Minefield.ArmCell | minesweeper.js:108-111 | arms the drawn cell exactly when it held no mine, and says whether it did; afterwards the mines are the old ones plus that cell, and nothing else changes |
| Minesweeper.Minefield.PlaceMines | minesweeper.js:102-113 | the mines afterwards are exactly the old ones plus the first `mineCount` draws that landed on a cell without a mine, in draw order; draws on mines are passed over. Hence no mine is removed, every new mine is a drawn cell, exactly `mineCount` are added, and the loop ends given enough distinct draws |
| Minesweeper.Minefield.MineCountBound | minesweeper.js:102-113 | a board never holds more mines than cells, so `placeMines` can only finish when `mineCount <= width * height` |
| Minesweeper.Minefield.InitMinefield | minesweeper.js:65-81 | a new round's mines are exactly the first `mineCount` distinct draws, in draw order; there are `mineCount` of them, all at drawn cells; no cell is revealed or flagged; every count is correct |
| Grid.OffsetIndex | minesweeper.js:128-132 | the number of offsets the nested `dx`/`dy` loops have visited on reaching `(dx, dy)`, skipping the centre, and the offset found at that position |
| Grid.OffsetsAreNeighbourhood | minesweeper.js:128-136 | the eight offsets are exactly the steps to the 8-neighbours (diagonals included, the cell itself excluded) |
| Grid.NeighbourOffsetsDistinct | minesweeper.js:128-132 | the loops never visit the same offset twice |
| Neighbourhood.MinesAmong | minesweeper.js:125-144 | the count over a list of offsets never exceeds the length of the list |
| Neighbourhood.OffsetStep | minesweeper.js:134-139 | visiting offset `(dx, dy)` adds one to the count exactly when `(x+dx, y+dy)` is a mine |
| Neighbourhood.MinesAmongCountsOffsets | minesweeper.js:125-144 | over offsets without repeats, the count is the number of offsets that lead to a mine |
| Neighbourhood.CountIsMinedNeighbours | minesweeper.js:125-144 | the count over the eight offsets equals the number of mined 8-neighbours, so it lies in 0..8 |
| Neighbourhood.CountZeroIffNoMinedNeighbour | minesweeper.js:125-144 | the count is 0 if and only if no 8-neighbour is a mine |
| Minesweeper.Minefield.MineSetMember | minesweeper.js:137 | a position holds a mine exactly when it is in bounds and its `isMine` is set |
| Minesweeper.Minefield.AdjacentMinesZero | minesweeper.js:125-144 | on the board, no mine is counted around `(x, y)` exactly when none of its in-bounds neighbours is a mine |
| Minesweeper.Minefield.CountAdjacentMines | minesweeper.js:125-144 | the nested loops return the count over the eight offsets (which equals the number of mined neighbours) |
| Minesweeper.Minefield.CountColumn | minesweeper.js:129-140 | one pass of the inner `dy` loop adds the mines at offsets `(dx, -1)`, `(dx, 0)` and `(dx, 1)` to the count, skipping the cell itself |
| Minesweeper.Minefield.CalculateCounts | minesweeper.js:115-123 | every non-mine cell gets its number of adjacent mines; mine cells keep their count; no other field changes |
| Minesweeper.Minefield.ToggleFlag | minesweeper.js:220-225 | an unrevealed cell's flag is flipped; a revealed cell keeps its flag; every other cell is untouched |
| Scenarios.ToggleTwiceRestores | minesweeper.js:220-225 | toggling the same cell twice restores every flag |
| Minesweeper.Minefield.RevealMines | minesweeper.js:157-158 | afterwards the revealed cells are those revealed before plus every mine, flagged or not; nothing else changes |
| Minesweeper.Minefield.ZerosAreSafe | minesweeper.js:115-144 | with correct counts, a non-mine cell showing 0 has no mine among its neighbours |
| Minesweeper.Minefield.PushableIsOpen | minesweeper.js:196 | the test before queueing a neighbour accepts exactly the open cells: in bounds, not revealed and not flagged |
| Minesweeper.Minefield.HiddenNeighbours | minesweeper.js:188-200 | the entries queued after a zero cell are exactly its in-bounds neighbours that are neither revealed nor flagged |
| Minesweeper.Minefield.FloodReveal | minesweeper.js:165-201 | the queue loop stops on a mine if and only if the start cell is an open mine, and then it has revealed that cell alone; otherwise the new cells are exactly the flood fill from the start |
| Minesweeper.Minefield.RevealCell | minesweeper.js:165-217 | Loss if and only if `(x, y)` is an in-bounds, unrevealed, unflagged mine, and then every mine is revealed. Otherwise the newly revealed cells are the least set closed under the fill rule, none of them flagged or a mine, and the outcome is Win if and only if every non-mine cell is revealed |
| Minesweeper.Minefield.NewCellsSafe | minesweeper.js:171-186 | a flood fill that does not start on an open mine reveals only in-bounds, unflagged, non-mine cells |
| FloodFill.FillStart | minesweeper.js:166 | the loop invariant holds with nothing revealed and the start cell queued |
| FloodFill.FillSkip | minesweeper.js:171-173 | dropping an off-board, revealed or flagged entry keeps the invariant |
| FloodFill.FillHitsMine | minesweeper.js:175-186 | only the start cell can be a mine when dequeued, and then nothing else has been revealed |
| FloodFill.FillReveal | minesweeper.js:175-200 | revealing a non-mine entry, and queueing its hidden neighbours when it shows 0, keeps the invariant |
| FloodFill.FillDone | minesweeper.js:168 | when the queue is empty, the revealed cells are exactly the flood fill, and the start was not an open mine |
| FloodFill.FloodFillUnique | minesweeper.js:165-201 | at most one set is the flood fill from a given start |
| FloodFill.FloodFilledSafe | minesweeper.js:188-200 | with correct zero counts, a flood fill that does not start on an open mine holds only open non-mine cells |
| FloodFill.FillFromClosedIsEmpty | minesweeper.js:171-173 | a reveal started on an off-board, revealed or flagged cell reveals nothing |
| FloodFill.FillStopsAtNumber | minesweeper.js:188 | a reveal started on an open cell that does not show 0 reveals that cell alone |
| FloodFill.FillPathPrefix | minesweeper.js:188-200 | every prefix of a fill path is a fill path |
| FloodFill.ClosedHoldsPath | minesweeper.js:188-200 | every set closed under the fill rule contains the end of every fill path |
| FloodFill.ReachableClosed | minesweeper.js:188-200 | the cells reachable along fill paths form a set closed under the fill rule |
| FloodFill.FloodFilledIsReachable | minesweeper.js:165-201 | a cell is in the flood fill if and only if a chain of open cells leads to it from the start, each cell but the last a non-mine cell showing 0 |
| Minesweeper.Minefield.WonIffSafeCellsRevealed | minesweeper.js:146-155 | winning means every cell without a mine is revealed |
| Minesweeper.Minefield.CheckForWin | minesweeper.js:146-155 | returns true if and only if every non-mine cell is revealed |
| Scenarios.EmptyBoardWins | minesweeper.js:165-217 | on a 3 x 3 board without mines, revealing the centre reveals every cell and wins |
| Scenarios.RepeatedDrawSkipped | minesweeper.js:102-113 | on a 3 x 3 board, placing two mines with the draws (0, 0), (0, 0), (1, 1), (2, 2) mines (0, 0) and (1, 1): the repeated draw is passed over and the last draw is never used |
| Scenarios.OneMineBoard | minesweeper.js:65-123 | a 5 x 5 round whose single draw is (2, 2) has its one mine there, correct counts and nothing revealed or flagged |
| Scenarios.MineLoses | minesweeper.js:175-186 | revealing that mine loses and shows the mine alone |
| Scenarios.NumberStops | minesweeper.js:188 | revealing (1, 1), next to that mine, continues and shows that cell alone |

## Left out

- Rendering the grid as DOM elements, click handlers and CSS classes (`renderMinefield`, `classList`): presentation, not game state.
- Fetching the background image list over the network and choosing one at random: I/O that does not touch the grid.
- The delayed restarts (`setTimeout` followed by `initMinefield`) and the `alert` with the elapsed time: scheduling and user interface. `RevealCell` returns the outcome that decides between them.
- `performance.now()` and the elapsed-time arithmetic: clock input. The outcome Win is modelled, but the time carried with it is not.
- Reading `difficulty` from the page URL: `SettingsFor` takes the name as a parameter.
- Minesweeper.Minefield.PlaceMines: `Math.random` is replaced by a finite sequence `picks` of drawn cells. The method requires that the draws hold at least `mineCount` distinct cells not yet mined. With a fair random source this happens with probability 1, but the model does not prove that an unbounded random loop terminates.
- Minesweeper.Minefield.InitMinefield: the source allocates fresh arrays for every round. The model resets the same arrays in place, which leaves the same cell values.
- Each cell is a record of four fields in the source. The model keeps one array per field, so the frames show which fields each operation writes.
- Minesweeper.Minefield.RevealCell: requires the counts to be correct. Every round starts that way and nothing changes them afterwards.
- Minesweeper.Minefield.ToggleFlag: requires an in-bounds cell. The source is only called with cells of the board and would fail on any other.

The model follows the code in three places where the game's usual rules might suggest otherwise:

- On a loss, the reveal itself reveals every mine, flagged mines included. A flagged mine can therefore end the round both revealed and flagged.
- After a zero cell, the code queues only neighbours that are in bounds, not revealed and not flagged, rather than all eight.
- There is no separate "unchanged" outcome. Revealing a revealed or flagged cell runs the win test and returns Win or Continue.
