/** The cells of a Minesweeper board and the grid that holds them.

    A cell is a value; the board keeps its cells in a row-major grid and a
    cell is identified by its position in that grid.  Neighbour links and the
    list of mines therefore hold positions, not references. */
module Grid {

  /** The handle of a cell: its row and column in the grid. */
  datatype Pos = Pos(row: int, col: int)

  /** The state of one cell.  `numMineNeighbors` is the cached count of mines
      among `neighbors`; it is only refreshed by `initMineNeighbors`. */
  datatype Cell = Cell(mine: bool, flagged: bool, clicked: bool, neighbors: seq<Pos>, numMineNeighbors: int)

  /** A freshly constructed cell: no mine, no flag, not clicked, no links, count 0. */
  const FreshCell := Cell(false, false, false, [], 0)

  /** The board's grid: a list of rows, each a list of cells. */
  type Grid = seq<seq<Cell>>

  /** `g` has `rows` rows of `cols` cells each. */
  predicate Shaped(g: Grid, rows: int, cols: int) {
    |g| == rows && forall r :: 0 <= r < |g| ==> |g[r]| == cols
  }

  predicate InGrid(g: Grid, p: Pos) {
    0 <= p.row < |g| && 0 <= p.col < |g[p.row]|
  }

  predicate InBounds(rows: int, cols: int, p: Pos) {
    0 <= p.row < rows && 0 <= p.col < cols
  }

  /** The cell at position `p` (`Board.get` in the source). */
  function At(g: Grid, p: Pos): Cell
    requires InGrid(g, p)
  {
    g[p.row][p.col]
  }

  /** The grid with the cell at `p` replaced by `c`. */
  function Update(g: Grid, p: Pos, c: Cell): (h: Grid)
    requires InGrid(g, p)
    ensures |h| == |g| && forall r :: 0 <= r < |g| ==> |h[r]| == |g[r]|
    ensures InGrid(h, p) && At(h, p) == c
    ensures forall q :: InGrid(g, q) && q != p ==> At(h, q) == At(g, q)
  {
    g[p.row := g[p.row][p.col := c]]
  }

  /** Every neighbour link of every cell points into the grid. */
  ghost predicate LinksInGrid(g: Grid) {
    forall p, q :: InGrid(g, p) && q in At(g, p).neighbors ==> InGrid(g, q)
  }

  /** Replacing a cell by one with the same links keeps every link in the grid. */
  lemma UpdateKeepsLinks(g: Grid, p: Pos, c: Cell)
    requires LinksInGrid(g) && InGrid(g, p) && c.neighbors == At(g, p).neighbors
    ensures LinksInGrid(Update(g, p, c))
  {
    var h := Update(g, p, c);
    forall x, y | InGrid(h, x) && y in At(h, x).neighbors ensures InGrid(h, y) {
      assert InGrid(g, x);
      if x == p {
        assert y in At(g, p).neighbors;
      } else {
        assert At(h, x) == At(g, x);
      }
      assert InGrid(g, y);
      assert |h[y.row]| == |g[y.row]|;
    }
  }

  /** Adding a link to a cell in the grid keeps every link in the grid. */
  lemma AppendKeepsLinks(g: Grid, p: Pos, q: Pos)
    requires LinksInGrid(g) && InGrid(g, p) && InGrid(g, q)
    ensures LinksInGrid(Update(g, p, At(g, p).(neighbors := At(g, p).neighbors + [q])))
  {
    var h := Update(g, p, At(g, p).(neighbors := At(g, p).neighbors + [q]));
    forall x, y | InGrid(h, x) && y in At(h, x).neighbors ensures InGrid(h, y) {
      assert InGrid(g, x);
      if x == p {
        assert y == q || y in At(g, p).neighbors;
      } else {
        assert At(h, x) == At(g, x);
      }
      assert InGrid(g, y);
      assert |h[y.row]| == |g[y.row]|;
    }
  }

  /** The positions in rows `r0` to `r1`-1 and columns `c0` to `c1`-1. */
  function Rect(r0: int, r1: int, c0: int, c1: int): (s: set<Pos>)
    ensures forall q :: q in s <==> r0 <= q.row < r1 && c0 <= q.col < c1
  {
    var s := set r, c | r0 <= r < r1 && c0 <= c < c1 :: Pos(r, c);
    assert forall q: Pos :: r0 <= q.row < r1 && c0 <= q.col < c1 ==> Pos(q.row, q.col) in s;
    s
  }

  /** The positions of a `rows` by `cols` grid. */
  function AllPos(rows: int, cols: int): (s: set<Pos>)
    ensures forall q :: q in s <==> InBounds(rows, cols, q)
  {
    Rect(0, rows, 0, cols)
  }

  lemma {:induction false} RowCard(r: int, c0: int, c1: int)
    requires c0 <= c1
    ensures |Rect(r, r + 1, c0, c1)| == c1 - c0
    decreases c1 - c0
  {
    if c0 < c1 {
      var prev := Rect(r, r + 1, c0, c1 - 1);
      RowCard(r, c0, c1 - 1);
      assert Pos(r, c1 - 1) !in prev;
      assert Rect(r, r + 1, c0, c1) == prev + {Pos(r, c1 - 1)};
    } else {
      assert Rect(r, r + 1, c0, c1) == {};
    }
  }

  /** A rectangle of positions has as many elements as its area. */
  lemma {:induction false} RectCard(r0: int, r1: int, c0: int, c1: int)
    requires r0 <= r1 && c0 <= c1
    ensures |Rect(r0, r1, c0, c1)| == (r1 - r0) * (c1 - c0)
    decreases r1 - r0
  {
    if r0 < r1 {
      var prev, last := Rect(r0, r1 - 1, c0, c1), Rect(r1 - 1, r1, c0, c1);
      RectCard(r0, r1 - 1, c0, c1);
      RowCard(r1 - 1, c0, c1);
      assert Rect(r0, r1, c0, c1) == prev + last;
      assert prev !! last;
      MulStep(r1 - r0, c1 - c0);
    } else {
      assert Rect(r0, r1, c0, c1) == {};
    }
  }

  /** A `rows` by `cols` grid has `rows * cols` positions. */
  lemma AllPosCard(rows: nat, cols: nat)
    ensures |AllPos(rows, cols)| == rows * cols
  {
    RectCard(0, rows, 0, cols);
  }

  lemma MulStep(a: int, b: int)
    ensures a * b == (a - 1) * b + b
  {
  }

  /** A sequence without repeated elements. */
  predicate NoDup<T(==)>(s: seq<T>) {
    forall i, j :: 0 <= i < j < |s| ==> s[i] != s[j]
  }

  /** A duplicate-free sequence has as many elements as the set of its elements. */
  lemma {:induction false} NoDupCard<T>(s: seq<T>)
    requires NoDup(s)
    ensures |set x | x in s| == |s|
  {
    if s != [] {
      var t := s[..|s| - 1];
      assert NoDup(t);
      NoDupCard(t);
      assert (set x | x in s) == (set x | x in t) + {s[|s| - 1]};
      assert s[|s| - 1] !in t;
    } else {
      assert (set x | x in s) == {};
    }
  }

  /** The number of entries of `s` that are mines in `g` (`countMineNeighbors`
      applied to a neighbour list).  Entries outside the grid never occur in a
      well-formed board; they count as no mine. */
  function CountMines(g: Grid, s: seq<Pos>): (k: nat)
    ensures k <= |s|
  {
    if s == [] then 0
    else CountMines(g, s[..|s| - 1]) + (if InGrid(g, s[|s| - 1]) && At(g, s[|s| - 1]).mine then 1 else 0)
  }

  /** The mines among the entries of `s`. */
  ghost function MinesIn(g: Grid, s: seq<Pos>): set<Pos> {
    set q | q in s && InGrid(g, q) && At(g, q).mine
  }

  /** On a duplicate-free list, the count is the number of distinct mines in it. */
  lemma {:induction false} CountMinesIsSetSize(g: Grid, s: seq<Pos>)
    requires NoDup(s)
    ensures CountMines(g, s) == |MinesIn(g, s)|
  {
    if s == [] {
      assert MinesIn(g, s) == {};
    } else {
      var t := s[..|s| - 1];
      var x := s[|s| - 1];
      assert NoDup(t);
      CountMinesIsSetSize(g, t);
      assert x !in t;
      if InGrid(g, x) && At(g, x).mine {
        assert MinesIn(g, s) == MinesIn(g, t) + {x};
      } else {
        assert MinesIn(g, s) == MinesIn(g, t);
      }
    }
  }

  /** The count depends only on which cells are mines. */
  lemma {:induction false} CountMinesSameMines(g: Grid, h: Grid, s: seq<Pos>)
    requires forall q :: q in s ==> (InGrid(g, q) <==> InGrid(h, q))
    requires forall q :: q in s && InGrid(g, q) ==> At(g, q).mine == At(h, q).mine
    ensures CountMines(g, s) == CountMines(h, s)
  {
    if s != [] {
      CountMinesSameMines(g, h, s[..|s| - 1]);
    }
  }

  /** Two cells are grid-adjacent: distinct, and at most one row and one
      column apart (orthogonal or diagonal), both inside the grid. */
  predicate Adjacent(rows: int, cols: int, p: Pos, q: Pos) {
    InBounds(rows, cols, p) && InBounds(rows, cols, q) && p != q &&
    -1 <= p.row - q.row <= 1 && -1 <= p.col - q.col <= 1
  }

  /** Each cell is linked to exactly its grid-adjacent cells, each listed once. */
  ghost predicate Wired(g: Grid, rows: int, cols: int) {
    Shaped(g, rows, cols) &&
    (forall p, q :: InGrid(g, p) ==> (q in At(g, p).neighbors <==> Adjacent(rows, cols, p, q))) &&
    (forall p :: InGrid(g, p) ==> NoDup(At(g, p).neighbors))
  }

  /** The cells that are mines. */
  ghost function MineSet(g: Grid, rows: int, cols: int): set<Pos>
    requires Shaped(g, rows, cols)
  {
    set q | q in AllPos(rows, cols) && At(g, q).mine
  }

  /** The cells that are not mines. */
  ghost function SafeSet(g: Grid, rows: int, cols: int): set<Pos>
    requires Shaped(g, rows, cols)
  {
    set q | q in AllPos(rows, cols) && !At(g, q).mine
  }

  /** The clicked cells that are not mines. */
  ghost function ClickedSafe(g: Grid, rows: int, cols: int): set<Pos>
    requires Shaped(g, rows, cols)
  {
    set q | q in AllPos(rows, cols) && At(g, q).clicked && !At(g, q).mine
  }

  /** The clicked cells that are mines. */
  ghost function ClickedMines(g: Grid, rows: int, cols: int): set<Pos>
    requires Shaped(g, rows, cols)
  {
    set q | q in AllPos(rows, cols) && At(g, q).clicked && At(g, q).mine
  }

  /** Mines and safe cells split the grid, so there are `rows * cols - m`
      safe cells when `m` cells are mines. */
  lemma SafeCount(g: Grid, rows: nat, cols: nat)
    requires Shaped(g, rows, cols)
    ensures |SafeSet(g, rows, cols)| == rows * cols - |MineSet(g, rows, cols)|
  {
    AllPosCard(rows, cols);
    assert AllPos(rows, cols) == SafeSet(g, rows, cols) + MineSet(g, rows, cols);
    assert SafeSet(g, rows, cols) !! MineSet(g, rows, cols);
  }
}
