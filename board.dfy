/** The Minesweeper board: construction, the flood fill, mouse and key events.

    `Board` keeps the source's fields; its cells live in the grid `cells`,
    and the methods of the source's `Cell` class become methods of `Board`
    that act on the cell at a given position. */
module Minesweeper {
  import opened Grid
  import opened Wiring
  import opened Pool
  import opened Reveal
  import opened Score
  import opened JavaRandom

  /** `IConstants.CELL_SIDE`: the side of a cell, in pixels. */
  const CellSide: int := 20

  datatype Option<T> = None | Some(value: T)

  datatype Result<T, E> = Success(value: T) | Failure(error: E)

  /** The ways construction of a board fails. */
  datatype BoardError =
    | TooManyMines
    | TooFewRows
    | TooFewCols
      /** A negative mine count reaches `new ArrayList(mines)`, which rejects it. */
    | IllegalCapacity

  function Message(e: BoardError): string {
    match e
    case TooManyMines => "Cannot have more mines than cells."
    case TooFewRows => "Must have at least 2 rows in the grid."
    case TooFewCols => "Must have at least 2 columns in the grid."
    case IllegalCapacity => "Illegal Capacity"
  }

  /** The argument checks of the board constructor, in their order. */
  function Validate(rows: int, cols: int, mines: int): (e: Option<BoardError>)
    ensures e.None? <==> mines <= rows * cols && 2 <= rows && 2 <= cols
    ensures mines > rows * cols ==> e == Some(TooManyMines)
    ensures e == Some(TooFewRows) <==> mines <= rows * cols && rows < 2
    ensures e == Some(TooFewCols) <==> mines <= rows * cols && 2 <= rows && cols < 2
  {
    if mines > rows * cols then Some(TooManyMines)
    else if rows < 2 then Some(TooFewRows)
    else if cols < 2 then Some(TooFewCols)
    else None
  }

  /** Java's `/` on `int`: the quotient truncated toward zero. */
  function JavaDiv(a: int, b: int): (q: int)
    requires b > 0
    ensures 0 <= a ==> q * b <= a < q * b + b
    ensures a < 0 ==> q * b - b < a <= q * b
  {
    if a >= 0 then a / b else -((-a) / b)
  }

  /** The click test of `onMouseClicked`: borders included. */
  predicate OnBoard(rows: int, cols: int, x: int, y: int) {
    0 <= x <= cols * CellSide && 0 <= y <= rows * CellSide
  }

  /** `getCellPos`: the cell under pixel (x, y); the right and bottom borders
      belong to the last column and row. */
  function PixelToCell(rows: int, cols: int, x: int, y: int): (p: Pos)
    ensures 0 < rows && 0 < cols && OnBoard(rows, cols, x, y) ==> InBounds(rows, cols, p)
    ensures 0 <= x < cols * CellSide ==> p.col * CellSide <= x < (p.col + 1) * CellSide
    ensures 0 <= y < rows * CellSide ==> p.row * CellSide <= y < (p.row + 1) * CellSide
    ensures x == cols * CellSide ==> p.col == cols - 1
    ensures y == rows * CellSide ==> p.row == rows - 1
  {
    var col := if x == cols * CellSide then cols - 1 else JavaDiv(x, CellSide);
    var row := if y == rows * CellSide then rows - 1 else JavaDiv(y, CellSide);
    Pos(row, col)
  }

  lemma PixelExamples()
    ensures PixelToCell(2, 3, 0, 0) == Pos(0, 0)
    ensures PixelToCell(2, 2, 19, 19) == Pos(0, 0)
    ensures !OnBoard(2, 2, -5, -5) && PixelToCell(2, 2, -5, -5) == Pos(0, 0)
    ensures PixelToCell(2, 2, 40, 40) == Pos(1, 1)
    ensures PixelToCell(2, 3, 19, 39) == Pos(1, 0)
    ensures PixelToCell(2, 3, 20, 20) == Pos(1, 1)
    ensures PixelToCell(2, 3, 60, 40) == Pos(1, 2)
  {
  }

  class Board {
    const rows: int
    const cols: int
    const mines: int
    const rand: Random
    /** How many non-mine cells have been revealed. */
    var visibleCells: int
    var cells: Grid
    /** The cells made mines, in the order they were drawn. */
    var minesList: seq<Pos>
    var gameOver: bool
    var win: bool

    /** The arguments passed the constructor's checks. */
    predicate Dims() {
      2 <= rows && 2 <= cols && 0 <= mines <= rows * cols
    }

    /** The grid has the board's shape and every link points into it. */
    ghost predicate Valid()
      reads this
    {
      Dims() && Shaped(cells, rows, cols) && LinksInGrid(cells) &&
      forall q :: q in minesList ==> InBounds(rows, cols, q)
    }

    /** The state right after construction or a restart. */
    ghost predicate FreshGame()
      reads this
    {
      Valid() && visibleCells == 0 && !gameOver && !win &&
      Wired(cells, rows, cols) && MinesListed(cells, minesList, mines) &&
      forall q :: InGrid(cells, q) ==>
        !At(cells, q).clicked && !At(cells, q).flagged &&
        At(cells, q).numMineNeighbors == CountMines(cells, At(cells, q).neighbors)
    }

    /** The bookkeeping the game relies on: `minesList` lists the mines,
        `visibleCells` counts the revealed safe cells, no mine is revealed while
        the game runs, and a win means every safe cell is revealed. */
    ghost predicate Accounting()
      reads this
      requires Valid()
    {
      MinesListed(cells, minesList, mines) &&
      visibleCells == |ClickedSafe(cells, rows, cols)| &&
      (!gameOver ==> ClickedMines(cells, rows, cols) == {}) &&
      (win ==> gameOver && ClickedSafe(cells, rows, cols) == SafeSet(cells, rows, cols))
    }

    lemma FreshGameAccounting()
      requires FreshGame()
      ensures Accounting()
    {
      assert ClickedSafe(cells, rows, cols) == {};
      assert ClickedMines(cells, rows, cols) == {};
    }

    /** The constructor `Board(rows, cols, mines, rand)` once its checks have passed. */
    constructor (rows: int, cols: int, mines: int, rand: Random)
      requires Validate(rows, cols, mines).None? && 0 <= mines
      modifies rand
      ensures this.rows == rows && this.cols == cols && this.mines == mines && this.rand == rand
      ensures FreshGame() && rand.draws == old(rand.draws) + 2 * mines
    {
      this.rows := rows;
      this.cols := cols;
      this.mines := mines;
      this.rand := rand;
      visibleCells := 0;
      cells := [];
      minesList := [];
      new;
      SetUp();
      gameOver := false;
      win := false;
    }

    /** The set-up shared by the constructor and the restart of `onKeyEvent`:
        new cells, linked, mined, with their counts cached. */
    method SetUp()
      requires Dims() && forall q :: q in minesList ==> InBounds(rows, cols, q)
      modifies this`cells, this`minesList, rand
      ensures Valid() && Wired(cells, rows, cols) && MinesListed(cells, minesList, mines)
      ensures forall q :: InGrid(cells, q) ==> !At(cells, q).clicked && !At(cells, q).flagged
      ensures forall q :: InGrid(cells, q) ==> At(cells, q).numMineNeighbors == CountMines(cells, At(cells, q).neighbors)
      ensures LinkOrdered(cells, rows, cols)
      ensures rand.draws == old(rand.draws) + 2 * mines
    {
      InitializeCells();
      InitializeNeighbors();
      ghost var wired := cells;
      PlaceMines();
      ghost var mined := cells;
      WiredSameLinks(wired, mined, rows, cols);
      InitMineCounts();
      WiredSameLinks(mined, cells, rows, cols);
      forall q | InGrid(cells, q)
        ensures At(cells, q).numMineNeighbors == CountMines(cells, At(cells, q).neighbors)
      {
        CountMinesSameMines(cells, mined, At(cells, q).neighbors);
      }
    }

    // ---------------------------------------------------------------- cells

    /** `Cell.negMine` on the cell at `p`. */
    method NegMine(p: Pos)
      requires Valid() && InGrid(cells, p)
      modifies this`cells
      ensures Valid()
      ensures cells == Update(old(cells), p, old(At(cells, p)).(mine := !old(At(cells, p)).mine))
    {
      UpdateKeepsLinks(cells, p, cells[p.row][p.col].(mine := !cells[p.row][p.col].mine));
      cells := Update(cells, p, cells[p.row][p.col].(mine := !cells[p.row][p.col].mine));
    }

    /** `Cell.negFlag` on the cell at `p`. */
    method NegFlag(p: Pos)
      requires Valid() && InGrid(cells, p)
      modifies this`cells
      ensures Valid()
      ensures cells == Update(old(cells), p, old(At(cells, p)).(flagged := !old(At(cells, p)).flagged))
      ensures old(Accounting()) ==> Accounting()
    {
      if Accounting() {
        FlagScore(cells, p, rows, cols);
      }
      UpdateKeepsLinks(cells, p, cells[p.row][p.col].(flagged := !cells[p.row][p.col].flagged));
      cells := Update(cells, p, cells[p.row][p.col].(flagged := !cells[p.row][p.col].flagged));
    }

    /** `Cell.click` on the cell at `p`. */
    method Click(p: Pos)
      requires Valid() && InGrid(cells, p)
      modifies this`cells
      ensures Valid()
      ensures cells == Update(old(cells), p, old(At(cells, p)).(clicked := true))
    {
      UpdateKeepsLinks(cells, p, cells[p.row][p.col].(clicked := true));
      cells := Update(cells, p, cells[p.row][p.col].(clicked := true));
    }

    /** `Cell.addNeighbor`: `a` records `b`, then `b` records `a`. */
    method AddNeighbor(a: Pos, b: Pos)
      requires Valid() && InGrid(cells, a) && InGrid(cells, b)
      modifies this`cells
      ensures Valid()
      ensures cells == Link(old(cells), a, b)
    {
      AppendKeepsLinks(cells, a, b);
      cells := Update(cells, a, cells[a.row][a.col].(neighbors := cells[a.row][a.col].neighbors + [b]));
      AppendKeepsLinks(cells, b, a);
      cells := Update(cells, b, cells[b.row][b.col].(neighbors := cells[b.row][b.col].neighbors + [a]));
    }

    /** `Cell.countMineNeighbors` for the cell at `p`. */
    method CountMineNeighbors(p: Pos) returns (n: int)
      requires Valid() && InGrid(cells, p)
      ensures n == CountMines(cells, At(cells, p).neighbors)
      ensures 0 <= n <= |At(cells, p).neighbors|
    {
      var nbs := cells[p.row][p.col].neighbors;
      n := 0;
      for i := 0 to |nbs|
        invariant n == CountMines(cells, nbs[..i])
      {
        var c := nbs[i];
        assert c in nbs;
        assert InGrid(cells, c);
        assert nbs[..i + 1][..i] == nbs[..i];
        n := n + if cells[c.row][c.col].mine then 1 else 0;
      }
      assert nbs[..|nbs|] == nbs;
    }

    /** `Cell.initMineNeighbors` for the cell at `p`: cache the count. */
    method InitMineNeighbors(p: Pos)
      requires Valid() && InGrid(cells, p)
      modifies this`cells
      ensures Valid()
      ensures cells == Update(old(cells), p,
        old(At(cells, p)).(numMineNeighbors := CountMines(old(cells), old(At(cells, p)).neighbors)))
    {
      var n := CountMineNeighbors(p);
      UpdateKeepsLinks(cells, p, cells[p.row][p.col].(numMineNeighbors := n));
      cells := Update(cells, p, cells[p.row][p.col].(numMineNeighbors := n));
    }

    /** `Cell.floodFill(numClicked)` for the cell at `p`: clicks exactly the
        cells `Reveals` names and returns `numClicked` plus their number. */
    method FloodFill(p: Pos, numClicked: int) returns (r: int)
      requires Valid() && InGrid(cells, p)
      modifies this`cells
      decreases Unclicked(cells, rows, cols)
      ensures Valid() && FloodFilled(old(cells), cells, p, rows, cols)
      ensures r == numClicked + |Newly(old(cells), cells, rows, cols)|
      ensures !Eligible(old(cells), p) ==> cells == old(cells) && r == numClicked
      ensures Eligible(old(cells), p) ==> At(cells, p).clicked && r > numClicked
    {
      r := numClicked;
      var c := cells[p.row][p.col];
      if !c.clicked && !c.flagged && !c.mine {
        ghost var g0 := cells;
        Click(p);
        r := r + 1;
        ClickOne(g0, p, rows, cols);
        LiveCountPreserved(g0, cells, p);
        var live := CountMineNeighbors(p);
        if live == 0 {
          FillStart(g0, cells, p, rows, cols);
          var nbs := cells[p.row][p.col].neighbors;
          for i := 0 to |nbs|
            invariant Valid() && FillInv(g0, cells, p, nbs, i, rows, cols)
            invariant r == numClicked + |Newly(g0, cells, rows, cols)|
          {
            ghost var g := cells;
            assert nbs[i] in At(g, p).neighbors;
            UnclickedShrinks(g0, g, p, rows, cols);
            var k := FloodFill(nbs[i], 0);
            FillStep(g0, g, cells, p, nbs, i, rows, cols);
            r := r + k;
          }
          FillEnd(g0, cells, p, rows, cols);
        } else {
          FillNumbered(g0, cells, p, rows, cols);
        }
      } else {
        FillNothing(cells, p, rows, cols);
      }
    }

    // --------------------------------------------------------- construction

    /** `initializeCells`: a fresh `rows` by `cols` grid of new cells. */
    method InitializeCells()
      requires Dims() && forall q :: q in minesList ==> InBounds(rows, cols, q)
      modifies this`cells
      ensures Valid()
      ensures forall q :: InGrid(cells, q) ==> At(cells, q) == FreshCell
    {
      cells := [];
      for i := 0 to rows
        invariant |cells| == i
        invariant forall r :: 0 <= r < i ==> |cells[r]| == cols
        invariant forall r, k :: 0 <= r < i && 0 <= k < cols ==> cells[r][k] == FreshCell
      {
        var row: seq<Cell> := [];
        for j := 0 to cols
          invariant |row| == j && forall k :: 0 <= k < j ==> row[k] == FreshCell
        {
          row := row + [FreshCell];
        }
        cells := cells + [row];
      }
    }

    /** `initializeNeighbors`: the 2x2-window sweep links every cell to
        exactly its grid-adjacent cells, each once. */
    method InitializeNeighbors()
      requires Valid() && forall q :: InGrid(cells, q) ==> At(cells, q).neighbors == []
      modifies this`cells
      ensures Valid() && Wired(cells, rows, cols) && SameButLinks(old(cells), cells)
      ensures LinkOrdered(cells, rows, cols)
      ensures rows == 2 && cols == 2 ==> TwoByTwoOrder(cells)
    {
      LinkingStart();
      for i := 0 to rows - 1
        invariant Linking(old(cells), LinkKey(i, 0, 0))
      {
        for j := 0 to cols - 1
          invariant Linking(old(cells), LinkKey(i, j, 0))
        {
          LinkWindow(old(cells), i, j);
        }
        LinkLastColumn(old(cells), i);
      }
      LinkingDone(old(cells));
    }

    /** The invariant of the sweep of `initializeNeighbors` at step `k`,
        starting from grid `g0`. */
    ghost predicate Linking(g0: Grid, k: LinkKey)
      reads this
    {
      Valid() && WiredBefore(cells, rows, cols, k) && SameButLinks(g0, cells)
    }

    /** Unlinked cells satisfy the sweep invariant before the first step. */
    lemma LinkingStart()
      requires Valid() && forall q :: InGrid(cells, q) ==> At(cells, q).neighbors == []
      ensures Linking(cells, LinkKey(0, 0, 0))
    {
      WiringStart(cells, rows, cols);
      SameButLinksRefl(cells);
    }

    /** After the last row of the sweep the grid is wired, in sweep order. */
    lemma LinkingDone(g0: Grid)
      requires Linking(g0, LinkKey(rows - 1, 0, 0))
      ensures Valid() && Wired(cells, rows, cols) && SameButLinks(g0, cells)
      ensures LinkOrdered(cells, rows, cols)
      ensures rows == 2 && cols == 2 ==> TwoByTwoOrder(cells)
    {
      WiringComplete(cells, rows, cols);
    }

    /** The end of a pass of the outer loop of `initializeNeighbors`: the
        last-column cell of row i is linked with the one below. */
    method LinkLastColumn(ghost g0: Grid, i: int)
      requires Linking(g0, LinkKey(i, cols - 1, 0)) && 0 <= i < rows - 1
      modifies this`cells
      ensures Linking(g0, LinkKey(i + 1, 0, 0))
      ensures cells == ColumnLink(old(cells), rows, cols, i)
    {
      var top, bottom := Pos(i, cols - 1), Pos(i + 1, cols - 1);
      ColumnKey(rows, cols, i);
      LinkAdvance(g0, cells, rows, cols, top, bottom, LinkKey(i, cols - 1, 0));
      AddNeighbor(top, bottom);
      RowDone(cells, rows, cols, i);
    }

    /** One pass of the inner loop of `initializeNeighbors`: the links of the
        2x2 window whose top-left cell is (i, j). */
    method LinkWindow(ghost g0: Grid, i: int, j: int)
      requires Linking(g0, LinkKey(i, j, 0)) && 0 <= i < rows - 1 && 0 <= j < cols - 1
      modifies this`cells
      ensures Linking(g0, LinkKey(i, j + 1, 0))
      ensures cells == WindowLinks(old(cells), rows, cols, i, j)
    {
      var topLeft, topRight := Pos(i, j), Pos(i, j + 1);
      var bottomLeft, bottomRight := Pos(i + 1, j), Pos(i + 1, j + 1);
      WindowKeys(rows, cols, i, j);
      LinkAdvance(g0, cells, rows, cols, topLeft, topRight, LinkKey(i, j, 0));
      AddNeighbor(topLeft, topRight);
      LinkAdvance(g0, cells, rows, cols, topLeft, bottomLeft, LinkKey(i, j, 1));
      AddNeighbor(topLeft, bottomLeft);
      LinkAdvance(g0, cells, rows, cols, topLeft, bottomRight, LinkKey(i, j, 2));
      AddNeighbor(topLeft, bottomRight);
      LinkAdvance(g0, cells, rows, cols, topRight, bottomLeft, LinkKey(i, j, 3));
      AddNeighbor(topRight, bottomLeft);
      if i == rows - 2 {
        var left, right := Pos(i + 1, j), Pos(i + 1, j + 1);
        LinkAdvance(g0, cells, rows, cols, left, right, LinkKey(i, j, 4));
        AddNeighbor(left, right);
      }
      WindowDone(cells, rows, cols, i, j);
    }

    /** `copyCells`: the rows of the grid as lists of cell handles. */
    method CopyCells() returns (copy: seq<seq<Pos>>)
      requires Valid()
      ensures |copy| == rows && HandleRows(copy, 0, cols)
    {
      copy := [];
      for i := 0 to rows
        invariant |copy| == i && HandleRows(copy, 0, cols)
      {
        var row: seq<Pos> := [];
        for j := 0 to cols
          invariant |row| == j && forall k :: 0 <= k < j ==> row[k] == Pos(i, k)
        {
          row := row + [Pos(i, j)];
        }
        copy := copy + [row];
      }
    }

    /** `placeMines`: draws `mines` distinct cells from the pool of not-yet-mined
        cells, two random draws per mine, and makes them the mines. */
    method PlaceMines()
      requires Valid() && forall q :: InGrid(cells, q) ==> !At(cells, q).mine
      modifies this`cells, this`minesList, rand
      ensures Valid() && MinesListed(cells, minesList, mines) && SameButMines(old(cells), cells)
      ensures rand.draws == old(rand.draws) + 2 * mines
    {
      var nonMines := CopyCells();
      ghost var universe := multiset(Flatten(nonMines));
      minesList := [];
      PlacingStart(nonMines, universe);
      for i := 0 to mines
        invariant Placing(old(cells), nonMines, universe, old(rand.draws), i)
      {
        var randRow, randCol;
        nonMines, randRow, randCol := PlaceMine(nonMines, universe, old(cells), old(rand.draws), i);
      }
      PlacingDone(old(cells), nonMines, universe, old(rand.draws));
    }

    /** The copied pool and the empty list start the loop of `placeMines`. */
    lemma PlacingStart(pool: seq<seq<Pos>>, universe: multiset<Pos>)
      requires Valid() && minesList == [] && forall q :: InGrid(cells, q) ==> !At(cells, q).mine
      requires |pool| == rows && HandleRows(pool, 0, cols) && universe == multiset(Flatten(pool))
      ensures Placing(cells, pool, universe, rand.draws, 0)
    {
      HandleRowsEntries(pool, 0, cols);
    }

    /** After `mines` passes the listed cells are the mines, each once. */
    lemma PlacingDone(g0: Grid, pool: seq<seq<Pos>>, universe: multiset<Pos>, d0: nat)
      requires Placing(g0, pool, universe, d0, mines)
      ensures Valid() && MinesListed(cells, minesList, mines) && SameButMines(g0, cells)
      ensures rand.draws == d0 + 2 * mines
    {
      UniqueByMultiset(minesList, universe);
    }

    /** The invariant of the loop of `placeMines` after `i` mines, started
        from grid `g0` with `d0` random draws taken (see `Placed`). */
    ghost predicate Placing(g0: Grid, pool: seq<seq<Pos>>, universe: multiset<Pos>, d0: nat, i: int)
      reads this, rand
    {
      Dims() && Placed(rows, cols, g0, cells, minesList, pool, universe, i) && rand.draws == d0 + 2 * i
    }

    /** The two `nextInt` calls of a pass of `placeMines`: a row of the pool,
        then an entry of that row. */
    method DrawCell(nonMines: seq<seq<Pos>>) returns (randRow: int, randCol: int)
      requires nonMines != [] && forall k :: 0 <= k < |nonMines| ==> |nonMines[k]| > 0
      modifies rand
      ensures 0 <= randRow < |nonMines| && 0 <= randCol < |nonMines[randRow]|
      ensures rand.Gave(old(rand.draws), |nonMines|, randRow)
      ensures rand.Gave(old(rand.draws) + 1, |nonMines[randRow]|, randCol)
      ensures rand.draws == old(rand.draws) + 2
    {
      randRow := rand.NextInt(|nonMines|);
      randCol := rand.NextInt(|nonMines[randRow]|);
    }

    /** One pass of the loop of `placeMines`: draw a row of the pool, then a
        cell of that row, make it a mine, list it and take it out of the pool. */
    method PlaceMine(nonMines: seq<seq<Pos>>, ghost universe: multiset<Pos>, ghost g0: Grid, ghost d0: nat, ghost i: int)
      returns (pool: seq<seq<Pos>>, randRow: int, randCol: int)
      requires Placing(g0, nonMines, universe, d0, i) && i < mines
      modifies this`cells, this`minesList, rand
      ensures 0 <= randRow < |nonMines| && 0 <= randCol < |nonMines[randRow]|
      ensures rand.Gave(old(rand.draws), |nonMines|, randRow)
      ensures rand.Gave(old(rand.draws) + 1, |nonMines[randRow]|, randCol)
      ensures DrewMine(nonMines, old(minesList), pool, minesList, randRow, randCol)
      ensures SameButMines(old(cells), cells)
      ensures Placing(g0, pool, universe, d0, i + 1)
    {
      FlattenEmpty(nonMines);
      randRow, randCol := DrawCell(nonMines);
      var mine := nonMines[randRow][randCol];
      PlacedStep(rows, cols, g0, cells, minesList, nonMines, universe, i, randRow, randCol);
      NegMine(mine);
      minesList := minesList + [mine];
      pool := Draw(nonMines, randRow, randCol);
    }

    /** A list whose multiset fits within one of the grid's positions, each at
        most once, has no repeats. */
    static lemma UniqueByMultiset(s: seq<Pos>, universe: multiset<Pos>)
      requires forall q :: universe[q] <= 1
      requires multiset(s) <= universe
      ensures NoDup(s)
    {
      forall i, j | 0 <= i < j < |s| ensures s[i] != s[j] {
        assert s == s[..j] + [s[j]] + s[j + 1..];
        assert s[i] in s[..j];
        assert multiset(s)[s[j]] == multiset(s[..j])[s[j]] + 1 + multiset(s[j + 1..])[s[j]];
        assert multiset(s[..j])[s[i]] >= 1;
      }
    }

    /** The counting loop of the constructor: every cell caches its count. */
    method InitMineCounts()
      requires Valid()
      modifies this`cells
      ensures Valid()
      ensures forall q :: InGrid(old(cells), q) ==> At(cells, q) == WithCount(old(cells), q)
    {
      ghost var g0 := cells;
      for i := 0 to rows
        invariant Valid() && Shaped(g0, rows, cols)
        invariant forall q :: InGrid(g0, q) ==> At(cells, q) == (if q.row < i then WithCount(g0, q) else At(g0, q))
      {
        for j := 0 to cols
          invariant Valid()
          invariant forall q :: InGrid(g0, q) ==>
            At(cells, q) == (if q.row < i || (q.row == i && q.col < j) then WithCount(g0, q) else At(g0, q))
        {
          CountMinesSameMines(cells, g0, At(cells, Pos(i, j)).neighbors);
          InitMineNeighbors(Pos(i, j));
        }
      }
    }

    // --------------------------------------------------------------- events

    /** `endGame(won)`. */
    method EndGame(won: bool)
      modifies this`gameOver, this`win
      ensures gameOver && win == won
    {
      gameOver := true;
      win := won;
    }

    /** `clickCell`: flood fill from `p`, add the revealed cells to
        `visibleCells`, and win once every safe cell is visible. */
    method ClickCell(p: Pos)
      requires Valid() && InGrid(cells, p)
      modifies this`cells, this`visibleCells, this`gameOver, this`win
      ensures Valid() && FloodFilled(old(cells), cells, p, rows, cols)
      ensures visibleCells == old(visibleCells) + |Newly(old(cells), cells, rows, cols)|
      ensures visibleCells == rows * cols - mines ==> gameOver && win
      ensures visibleCells != rows * cols - mines ==> gameOver == old(gameOver) && win == old(win)
      ensures old(Accounting()) && !old(gameOver) ==>
        Accounting() && (win <==> ClickedSafe(cells, rows, cols) == SafeSet(cells, rows, cols))
    {
      ghost var g0 := cells;
      ghost var accounted := Accounting() && !gameOver;
      var n := FloodFill(p, 0);
      visibleCells := visibleCells + n;
      if accounted {
        FillKeepsScore(g0, cells, p, rows, cols, minesList, mines, old(visibleCells));
      }
      if visibleCells == rows * cols - mines {
        EndGame(true);
      }
    }

    /** The loop of `onMouseClicked` that reveals every mine. */
    method RevealMines()
      requires Valid()
      modifies this`cells
      ensures Valid() && ClickedList(old(cells), cells, minesList)
      ensures old(Accounting()) ==>
        MinesListed(cells, minesList, mines) && visibleCells == |ClickedSafe(cells, rows, cols)|
    {
      ghost var g0 := cells;
      ghost var accounted := Accounting();
      for k := 0 to |minesList|
        invariant Valid() && ClickedList(old(cells), cells, minesList[..k])
      {
        assert minesList[..k + 1] == minesList[..k] + [minesList[k]];
        assert minesList[k] in minesList;
        Click(minesList[k]);
      }
      assert minesList[..|minesList|] == minesList;
      if accounted {
        MinesScore(g0, cells, minesList, rows, cols);
      }
    }

    /** What a click with `buttonName` at pixel (x, y) does. */
    ghost function ClickEffect(x: int, y: int, buttonName: string): Effect
      reads this
      requires Valid()
    {
      if gameOver || !OnBoard(rows, cols, x, y) then Ignored
      else
        var c := At(cells, PixelToCell(rows, cols, x, y));
        if buttonName == "LeftButton" && !c.flagged && !c.clicked then
          (if c.mine then HitMine else Opened)
        else if buttonName == "RightButton" && !c.clicked then Flag
        else Ignored
    }

    /** `onMouseClicked`. */
    method OnMouseClicked(x: int, y: int, buttonName: string)
      requires Valid()
      modifies this`cells, this`visibleCells, this`gameOver, this`win
      ensures Valid()
      ensures old(ClickEffect(x, y, buttonName)) == Ignored ==>
        cells == old(cells) && visibleCells == old(visibleCells) && gameOver == old(gameOver) && win == old(win)
      ensures old(ClickEffect(x, y, buttonName)) == HitMine ==>
        ClickedList(old(cells), cells, minesList) && visibleCells == old(visibleCells) && gameOver && !win
      ensures old(ClickEffect(x, y, buttonName)) == Opened ==>
        FloodFilled(old(cells), cells, PixelToCell(rows, cols, x, y), rows, cols) &&
        visibleCells == old(visibleCells) + |Newly(old(cells), cells, rows, cols)| &&
        gameOver == (visibleCells == rows * cols - mines) &&
        win == (gameOver || old(win))
      ensures old(ClickEffect(x, y, buttonName)) == Flag ==>
        var p := PixelToCell(rows, cols, x, y);
        cells == Update(old(cells), p, old(At(cells, p)).(flagged := !old(At(cells, p)).flagged)) &&
        visibleCells == old(visibleCells) && gameOver == old(gameOver) && win == old(win)
      ensures old(Accounting()) ==> Accounting()
      ensures old(Accounting()) && old(ClickEffect(x, y, buttonName)) == Opened ==>
        (win <==> ClickedSafe(cells, rows, cols) == SafeSet(cells, rows, cols))
    {
      var maxX := cols * CellSide;
      var maxY := rows * CellSide;
      var onBoard := 0 <= x && x <= maxX && 0 <= y && y <= maxY;
      if !gameOver && onBoard {
        var p := PixelToCell(rows, cols, x, y);
        var validLeftClick := buttonName == "LeftButton" && !cells[p.row][p.col].flagged && !cells[p.row][p.col].clicked;
        if validLeftClick {
          if cells[p.row][p.col].mine {
            RevealMines();
            EndGame(false);
          } else {
            ClickCell(p);
          }
        }
        var validRightClick := buttonName == "RightButton" && !cells[p.row][p.col].clicked;
        if validRightClick {
          NegFlag(p);
        }
      }
    }

    /** `onKeyEvent`: once the game is over, "enter" starts a new game with
        the same size and mine count; any other key quits. */
    method OnKeyEvent(key: string) returns (quit: bool)
      requires Valid()
      modifies this`cells, this`visibleCells, this`gameOver, this`win, this`minesList, rand
      ensures Valid()
      ensures !old(gameOver) || key != "enter" ==>
        cells == old(cells) && minesList == old(minesList) && visibleCells == old(visibleCells) &&
        gameOver == old(gameOver) && win == old(win) && unchanged(rand)
      ensures quit <==> old(gameOver) && key != "enter"
      ensures old(gameOver) && key == "enter" ==> FreshGame()
      ensures old(Accounting()) ==> Accounting()
    {
      quit := false;
      if gameOver {
        if key == "enter" {
          visibleCells := 0;
          SetUp();
          gameOver := false;
          win := false;
          FreshGameAccounting();
        } else {
          quit := true;
        }
      }
    }
  }

  datatype Effect = Ignored | HitMine | Opened | Flag

  /** The state of `placeMines` after `i` mines, on values: grid `g` has the
      board's shape and in-grid links, `pool` and `list` together hold every
      position of the grid once (`universe`), exactly the listed cells are
      mines, and `g` differs from the starting grid `g0` only in mine flags. */
  ghost predicate Placed(rows: int, cols: int, g0: Grid, g: Grid, list: seq<Pos>, pool: seq<seq<Pos>>,
                         universe: multiset<Pos>, i: int) {
    Shaped(g, rows, cols) && LinksInGrid(g) && (forall q :: q in list ==> InBounds(rows, cols, q)) &&
    |list| == i && (forall q :: universe[q] == if InBounds(rows, cols, q) then 1 else 0) &&
    PoolOk(pool, list, universe) && |Flatten(pool)| + i == rows * cols &&
    (forall q :: InGrid(g, q) ==> (At(g, q).mine <==> q in list)) &&
    SameButMines(g0, g)
  }

  /** Drawing entry `j` of row `k` of the pool, making that cell a mine and
      listing it, advances `Placed` by one mine. */
  lemma PlacedStep(rows: int, cols: int, g0: Grid, g: Grid, list: seq<Pos>, pool: seq<seq<Pos>>,
                   universe: multiset<Pos>, i: int, k: int, j: int)
    requires Placed(rows, cols, g0, g, list, pool, universe, i)
    requires 0 <= k < |pool| && 0 <= j < |pool[k]|
    ensures InGrid(g, pool[k][j]) && pool[k][j] !in list && !At(g, pool[k][j]).mine
    ensures Placed(rows, cols, g0, Update(g, pool[k][j], At(g, pool[k][j]).(mine := true)),
                   list + [pool[k][j]], Draw(pool, k, j), universe, i + 1)
  {
    var x := pool[k][j];
    PoolDraw(pool, list, universe, k, j);
    assert InBounds(rows, cols, x);
    MarkMine(g, list, x);
    var h := Update(g, x, At(g, x).(mine := true));
    UpdateKeepsLinks(g, x, At(g, x).(mine := true));
    assert SameButMines(g, h);
    SameButMinesTrans(g0, g, h);
  }

  /** One pass of `placeMines` drew entry `j` of row `k` of `pool0`: that
      cell was not listed before, it is appended to the list, and the pool
      loses it (and its row, once empty). */
  ghost predicate DrewMine(pool0: seq<seq<Pos>>, list0: seq<Pos>, pool: seq<seq<Pos>>, list: seq<Pos>, k: int, j: int) {
    0 <= k < |pool0| && 0 <= j < |pool0[k]| &&
    pool0[k][j] !in list0 && list == list0 + [pool0[k][j]] && pool == Draw(pool0, k, j)
  }

  /** The cell at `q` with its count cached from grid `g`. */
  function WithCount(g: Grid, q: Pos): Cell
    requires InGrid(g, q)
  {
    At(g, q).(numMineNeighbors := CountMines(g, At(g, q).neighbors))
  }

  /** Building a board: the checks of the constructor, then a fresh game. */
  method NewBoard(rows: int, cols: int, mines: int, rand: Random) returns (result: Result<Board, BoardError>)
    modifies rand
    ensures Validate(rows, cols, mines).Some? ==>
      result == Failure(Validate(rows, cols, mines).value) && unchanged(rand)
    ensures Validate(rows, cols, mines).None? && mines < 0 ==> result == Failure(IllegalCapacity) && unchanged(rand)
    ensures Validate(rows, cols, mines).None? && 0 <= mines ==>
      result.Success? && fresh(result.value) && result.value.rand == rand &&
      result.value.rows == rows && result.value.cols == cols && result.value.mines == mines &&
      result.value.FreshGame() && rand.draws == old(rand.draws) + 2 * mines
  {
    var e := Validate(rows, cols, mines);
    if e.Some? {
      return Failure(e.value);
    }
    if mines < 0 {
      return Failure(IllegalCapacity);
    }
    var b := new Board(rows, cols, mines, rand);
    return Success(b);
  }
}
