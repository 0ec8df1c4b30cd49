# Minesweeper board, modelled in Dafny

This project models the game logic of a Minesweeper game written in Java
(`src/MinesweeperWorld.java`): the `Board` that owns a grid of cells and the
`Cell` entity. It covers construction and its argument checks, the grid
allocation, the 2x2-window sweep that links neighbours, random mine placement
from a shrinking pool, the mine counts, the recursive flood fill, the mapping
from pixel to cell, and the state machine of mouse clicks, win/loss and restart.

Layout:

- `grid.dfy` (module `Grid`): cells as values, the grid, positions, mine counts
  and the sets of mines, safe cells and clicked cells.
- `wiring.dfy` (module `Wiring`): what a linked grid is (`Wired`) and when the
  sweep links each adjacent pair (`Key`). Also the order of each list,
  symmetry, the exact neighbour counts, the 2x2 case and the cached count.
- `pool.dfy` (module `Pool`): the `nonMines` pool of `placeMines` as a list of
  rows, and a draw from it.
- `reveal.dfy` (module `Reveal`): what a flood fill clicks, stated as paths of
  eligible cells (`Reveals`), with the relation `FloodFilled` between the grid
  before and after.
- `score.dfy` (module `Score`): how each action changes the sets that
  `visibleCells` and `win` describe.
- `random.dfy` (module `JavaRandom`): `java.util.Random.nextInt` as an arbitrary
  choice per call, reduced to the bound.
- `board.dfy` (module `Minesweeper`): the `Board` class with the source's
  fields and methods, and the factory `NewBoard` for the constructor's
  error cases.

`Board` keeps the source's fields: `rows`, `cols`, `mines`, `rand`,
`visibleCells`, `cells`, `minesList`, `gameOver` and `win`. A Java `Cell` object
becomes a value of datatype `Cell` stored in the grid `cells`. Its handle is its
position `Pos(row, col)`. Neighbour lists and `minesList` hold positions, and
each mutating method of `Cell` becomes a `Board` method that updates the cell
at a given position. `Board.get(row, col)` is `Grid.At(cells, Pos(row, col))`.
The `isMine`, `isFlagged` and `isClicked` accessors are the fields of `Cell`.

The central invariant is `Board.Accounting`:

- `minesList` lists exactly the mines, each once;
- `visibleCells` is the number of clicked safe cells;
- no mine is clicked while the game runs;
- `win` means every safe cell is clicked.

A new or restarted board satisfies it, and both `onMouseClicked` and
`onKeyEvent` preserve it.

The code and the natural reading differ on one point, and the model follows
the code. The constructor has no check that the mine count is non-negative. A
negative count passes the three checks, and the construction then fails at
`new ArrayList<Cell>(mines)` in `placeMines`. The model reports this as the
error `IllegalCapacity`.

On a 2x2 board the code gives cell (1,1) the list (0,0), (1,0), (0,1): the
bottom-pair link of line 142 comes before the last-column link of line 150.
`src/MinesweeperTests.java:347-348` writes that list as (0,0), (0,1), (1,0).
The model follows the code.

## Model

| member | source | states |
|---|---|---|
| Minesweeper.Validate | src/MinesweeperWorld.java:34-42 | arguments pass exactly when mines <= rows*cols, rows >= 2 and cols >= 2; the mine check is made first, then rows, then columns |
| Minesweeper.NewBoard | src/MinesweeperWorld.java:33-64 | each failed check gives its error and leaves the random source untouched; a negative mine count fails with IllegalCapacity; otherwise a fresh board with the given size, mine count and random source, in the fresh-game state, after 2*mines draws |
| Minesweeper.Board.constructor | src/MinesweeperWorld.java:33-64 | with checked arguments: fields set as given, visibleCells 0, not over, not won, grid of rows x cols cells linked to exactly their adjacent cells, minesList lists the mines without repeats, no cell clicked or flagged, every cached count correct |
| Minesweeper.Board.SetUp | src/MinesweeperWorld.java:50-59 | the shared build sequence: the grid is wired with every list in sweep order, exactly the listed cells are mines, nothing is clicked or flagged and every cell caches its live mine count |
| Minesweeper.Board.InitializeCells | src/MinesweeperWorld.java:85-103 | the grid has rows rows of cols cells, each a fresh cell |
| Minesweeper.Board.InitializeNeighbors | src/MinesweeperWorld.java:108-152 | after the sweep, every cell is linked to exactly its grid-adjacent cells (orthogonal and diagonal), each once; every list is in the order its links were made; on a 2x2 board the four lists are exactly those of `TwoByTwoOrder`; nothing but the links changes |
| Minesweeper.Board.LinkWindow | src/MinesweeperWorld.java:125-146 | one inner pass makes the grid `WindowLinks` of the old one: the four `addNeighbor` calls of the 2x2 window at (i, j) in source order, plus the bottom pair on the second-last row; the wiring invariant advances by one window |
| Minesweeper.Board.LinkLastColumn | src/MinesweeperWorld.java:147-150 | the end of an outer pass makes the grid `ColumnLink` of the old one, linking the last-column cell of row i with the one below; row i is complete |
| Wiring.WiringComplete | src/MinesweeperWorld.java:124-151 | once every pair's slot in the sweep has passed, the grid is wired and every list is in sweep order; a 2x2 grid then has the lists of `TwoByTwoOrder` |
| Minesweeper.Board.LinkingStart | src/MinesweeperWorld.java:124 | a grid of unlinked cells satisfies the sweep invariant before the first window |
| Minesweeper.Board.LinkingDone | src/MinesweeperWorld.java:124-151 | the sweep invariant past the last row gives a wired grid, every list in sweep order, only links changed |
| Wiring.SortedAppend | src/MinesweeperWorld.java:456-457 | appending to a list in sweep order an entry linked after all of its entries keeps it in sweep order |
| Wiring.LinkStep | src/MinesweeperWorld.java:455-458 | adding the link of the pair whose turn it is in the sweep keeps the no-duplicates, exact-links and order invariant |
| Wiring.LinkKeepsOrder | src/MinesweeperWorld.java:455-458 | appending a pair linked after every link already in the two lists keeps each list in the order its links were made |
| Wiring.KeyInjective | src/MinesweeperWorld.java:124-151 | two different adjacent pairs have different moments in the sweep, so no pair is linked twice |
| Wiring.LinksSymmetric | src/MinesweeperWorld.java:455-458 | on a wired grid, q is a neighbour of p exactly when p is a neighbour of q |
| Wiring.TwoByTwoThreeNeighbors | src/MinesweeperWorld.java:124-151 | on a wired 2x2 grid every cell has exactly 3 neighbours |
| Wiring.NeighborCount | src/MinesweeperWorld.java:124-151 | on a wired grid a cell has exactly (rows among its row and the two around it that lie in the grid) times (such columns) minus one neighbours |
| Wiring.CornerEdgeInterior | src/MinesweeperWorld.java:124-151 | on a wired grid of at least 2x2, a corner cell has 3 neighbours, a non-corner border cell 5 and an interior cell 8 |
| Wiring.ListInKeyOrder | src/MinesweeperWorld.java:124-151 | on a 2x2 grid in sweep order, a cell's list is its three other cells sorted by the step that linked each |
| Wiring.TwoByTwoNeighborOrder | src/MinesweeperWorld.java:124-151 | a wired 2x2 grid in sweep order has the lists (0,0): (0,1), (1,0), (1,1); (0,1): (0,0), (1,0), (1,1); (1,0): (0,0), (0,1), (1,1); (1,1): (0,0), (1,0), (0,1) |
| Wiring.AtMostEightNeighbors | src/MinesweeperWorld.java:415 | on a wired grid a cell has at most 8 neighbours |
| Wiring.CachedCountIsAdjacentMines | src/MinesweeperWorld.java:476-489 | on a wired grid the count over the neighbour list is the number of grid-adjacent mines |
| Minesweeper.Board.CopyCells | src/MinesweeperWorld.java:188-203 | the copy has rows rows; row i holds the handles of columns 0 to cols-1 of row i, in order |
| Minesweeper.Board.PlaceMines | src/MinesweeperWorld.java:157-180 | afterwards, minesList holds mines distinct cells, a cell is a mine exactly when it is listed, only mine flags changed, and 2*mines random draws were taken, each with a positive bound |
| Minesweeper.Board.PlaceMine | src/MinesweeperWorld.java:165-179 | one pass: the row index is the next `nextInt` over the number of pool rows and the column index the one after over that row's length; the drawn cell was not listed before and is appended to minesList; the pool becomes `Draw` of the two indices; only mine flags change; the loop invariant advances by one mine |
| Minesweeper.Board.DrawCell | src/MinesweeperWorld.java:166-167 | the two `nextInt` calls: a row index below the number of pool rows, then a column index below that row's length, each the next choice of the random source, two calls in all |
| Minesweeper.PlacedStep | src/MinesweeperWorld.java:169-178 | the drawn cell lies in the grid, is unlisted and not yet a mine; making it a mine, appending it and removing it from the pool keeps pool plus list equal to all cells once, and the mines exactly the listed cells |
| Minesweeper.Board.PlacingStart | src/MinesweeperWorld.java:159-162 | the copied pool with the empty list holds every cell once and satisfies the loop invariant with no mine drawn |
| Minesweeper.Board.PlacingDone | src/MinesweeperWorld.java:165-180 | after `mines` passes, minesList holds the mines without repeats, exactly `mines` of them |
| Pool.Draw | src/MinesweeperWorld.java:173-178 | the drawn entry leaves its row (`remove(randCol)`); a row left empty by that is removed from the pool (`remove(randRow)`); every other row stays as it was |
| Pool.RemoveAt | src/MinesweeperWorld.java:173 | `ArrayList.remove(int)`: one entry shorter, entries before the index kept, entries after it shifted down by one |
| Pool.PoolDraw | src/MinesweeperWorld.java:169-178 | removing the drawn cell (and its row once empty) keeps pool plus taken cells equal to all cells, and shrinks the pool by one |
| Pool.HandleRowsEntries | src/MinesweeperWorld.java:159 | the copied pool holds every grid position exactly once, rows*cols entries |
| Minesweeper.Board.UniqueByMultiset | src/MinesweeperWorld.java:165-179 | cells drawn from a pool in which each position occurs once are pairwise distinct |
| Minesweeper.Board.InitMineCounts | src/MinesweeperWorld.java:55-59 | every cell caches the count of mines among its neighbours, and nothing else changes |
| Minesweeper.Board.NegMine | src/MinesweeperWorld.java:436-438 | the mine flag of the cell at p is toggled, nothing else changes |
| Minesweeper.Board.NegFlag | src/MinesweeperWorld.java:442-444 | the flag of the cell at p is toggled, nothing else changes, and the accounting invariant is kept |
| Minesweeper.Board.Click | src/MinesweeperWorld.java:448-450 | the cell at p is clicked, nothing else changes |
| Grid.At | src/MinesweeperWorld.java:183-185 | `get(row, column)`: the cell at that row and column, defined for positions in the grid; `Grid.Update` states that after replacing the cell at p, At gives the new cell at p and the old cell everywhere else |
| Wiring.Link | src/MinesweeperWorld.java:455-458 | `addNeighbor` on grid values: for distinct cells, a's neighbour list gains b at its end and b's list gains a at its end; a cell linked with itself gains itself twice; every other cell and the grid's shape are unchanged |
| Minesweeper.Board.AddNeighbor | src/MinesweeperWorld.java:455-458 | a's list gains b at its end and b's list gains a at its end; nothing else changes |
| Minesweeper.Board.CountMineNeighbors | src/MinesweeperWorld.java:483-489 | the result is the number of entries of the neighbour list that are mines, between 0 and the length of the list |
| Minesweeper.Board.InitMineNeighbors | src/MinesweeperWorld.java:476-478 | the cell at p caches its live count, nothing else changes |
| Minesweeper.Board.FloodFill | src/MinesweeperWorld.java:523-536 | the newly clicked cells are exactly those Reveals names; the result is numClicked plus their number; a cell that fails the guard changes nothing and returns numClicked; otherwise the cell is clicked and the result exceeds numClicked |
| Reveal.FloodFilledSafe | src/MinesweeperWorld.java:524 | a fill never clicks a mine or a flagged cell, never unclicks a cell and changes no mine or flag |
| Reveal.RevealsOnlyEligible | src/MinesweeperWorld.java:524 | every cell a fill clicks passes the guard: not clicked, not flagged, not a mine |
| Reveal.GuardFailsRevealsNothing | src/MinesweeperWorld.java:524-535 | a fill from a cell that fails the guard clicks nothing |
| Reveal.NumberedCellRevealsItself | src/MinesweeperWorld.java:528-533 | a fill from an eligible cell with a mine among its neighbours (live count) clicks that cell only |
| Reveal.RevealsPrepend | src/MinesweeperWorld.java:528-532 | a zero-count eligible cell cascades to whatever its neighbours' fills click |
| Reveal.FillStep | src/MinesweeperWorld.java:530-532 | the fill of one more neighbour keeps the invariant of the neighbour loop and adds its clicks to the count |
| Reveal.FillEnd | src/MinesweeperWorld.java:523-536 | after all neighbours, the cells clicked are exactly those the fill reaches |
| Reveal.ClosedPath | src/MinesweeperWorld.java:528-532 | every cell on a cascade path from a newly clicked cell is newly clicked |
| Reveal.UnclickedShrinks | src/MinesweeperWorld.java:525 | clicking the start cell strictly shrinks the set of unclicked cells, the measure of the recursion |
| Score.FillKeepsScore | src/MinesweeperWorld.java:353-359 | during play a fill keeps the mine list exact and clicks no mine; visibleCells plus the new cells is the number of clicked safe cells, and it reaches rows*cols - mines exactly when every safe cell is clicked |
| Score.AllSafeClicked | src/MinesweeperWorld.java:356 | all safe cells are clicked exactly when the clicked safe cells number rows*cols minus the number of mines |
| Score.MarkMine | src/MinesweeperWorld.java:170-172 | toggling an unlisted non-mine and listing it keeps "mine exactly when listed" |
| Minesweeper.Board.ClickCell | src/MinesweeperWorld.java:353-359 | visibleCells grows by the number of newly clicked cells; the game ends in a win exactly when it reaches rows*cols - mines; during play the accounting holds after, and win means every safe cell is clicked |
| Minesweeper.Board.EndGame | src/MinesweeperWorld.java:362-365 | the game is over and win is the given value |
| Minesweeper.Board.RevealMines | src/MinesweeperWorld.java:303-305 | every listed mine is clicked and nothing else changes; the clicked safe cells stay as counted |
| Minesweeper.Board.OnMouseClicked | src/MinesweeperWorld.java:284-322 | off-board or after the game: no change; left on an unflagged unclicked mine: all mines clicked, loss; left on a safe cell: flood fill and win iff all safe cells are visible; right on an unclicked cell: flag toggled; anything else: no change; the accounting is preserved |
| Minesweeper.OnBoard | src/MinesweeperWorld.java:287-290 | a click is on the board when 0 <= x <= cols*20 and 0 <= y <= rows*20, borders included; `PixelToCell` maps every on-board click into the grid. Without this test, pixels up to 19 to the left of or above the board would also land in column or row 0, because `/` truncates toward zero |
| Minesweeper.JavaDiv | src/MinesweeperWorld.java:336 | Java's integer `/` by a positive divisor: for a >= 0 the quotient q has q*b <= a < q*b + b; for a < 0 it has q*b - b < a <= q*b, truncating toward zero |
| Minesweeper.Board.ClickEffect | src/MinesweeperWorld.java:292-320 | classifies a click: ignored after the game or off the board; a left click on an unflagged, unclicked cell hits a mine or opens it; a right click on an unclicked cell flags; anything else is ignored; the `OnMouseClicked` contract states the effect of each class |
| Minesweeper.Message | src/MinesweeperWorld.java:35-41 | the text each construction error carries, the three messages of the source and the capacity error |
| Minesweeper.PixelToCell | src/MinesweeperWorld.java:325-348 | on-board pixels map into the grid; inside the board the cell contains the pixel; the right and bottom borders map to the last column and row |
| Minesweeper.PixelExamples | src/MinesweeperWorld.java:325-348 | (0,0) and (19,19) map to (0,0), (20,20) to (1,1), and (40,40) on a 2x2 board to (1,1); the off-board pixel (-5,-5) would map to (0,0), which only the `OnBoard` test keeps out |
| Minesweeper.Board.OnKeyEvent | src/MinesweeperWorld.java:370-394 | nothing changes unless the game is over and the key is "enter"; then a fresh game of the same size and mine count; quit is signalled exactly for another key after the game ended; the accounting is preserved |
| Minesweeper.Board.FreshGameAccounting | src/MinesweeperWorld.java:44-62 | a freshly built board satisfies the accounting invariant |
| JavaRandom.Random.NextInt | src/MinesweeperWorld.java:166-167 | the result lies in [0, bound), it is the choice of this call reduced to the bound, and the call count grows by one |

## Left out

- Rendering: `makeScene`, `drawGrid`, `Cell.draw` and the `colors` map
  (src/MinesweeperWorld.java:212-280, 422-432, 492-520) produce images only.
- The `World` base class and its event loop: `endOfWorld(":(")` is modelled as
  the `quit` result of `OnKeyEvent`.
- The bit-exact `java.util.Random` sequence. The model takes one arbitrary
  choice per `nextInt` call, reduced to the bound. Every property holds for
  every sequence of choices.
- The convenience constructor `Board(rows, cols, mines)`. It only passes a new
  `Random()`, which the caller supplies here.
- The drawing-only constructor `Board(ArrayList<ArrayList<Cell>>)`, which leaves
  most fields unset.
- Object identity and aliasing of `Cell` objects. Cells are identified by
  their grid position, and `copyCells` copies positions.
- Minesweeper.Validate: `rows * cols` is computed on unbounded integers. The
  32-bit wrap-around of Java's `int` product is not modelled.
- The other `int` products and differences are unbounded too: `cols * 20` and
  `rows * 20` in `onMouseClicked` and `getCellPos`
  (src/MinesweeperWorld.java:287-288, 332, 340), and `rows * cols - mines` in
  `clickCell` (line 356). They wrap only on boards far too large to allocate.
- Minesweeper.Board.FloodFill: the recursion of `floodFill` can be as deep as
  the number of cells. On a large board with few mines the Java program may
  raise `StackOverflowError`; the model always finishes.
- Minesweeper.Board.PlaceMine: the pool is updated as a value by `Pool.Draw`.
  The two in-place `remove` calls on the copied lists are not modelled
  separately.
- Minesweeper.Message: `IllegalCapacity` carries the text "Illegal Capacity".
  Java's own message also contains the offending capacity.
- Minesweeper.Board.constructor: on a negative mine count, Java has already
  built and linked the grid before it fails. `NewBoard` reports the failure
  without building anything, since the half-built board is never returned.
- `src/MinesweeperTests.java` is used as evidence only.
