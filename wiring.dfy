/** Neighbour wiring by the 2x2-window sweep of `Board.initializeNeighbors`.

    The sweep visits the windows of the grid in row-major order; in window
    (i, j) it links, in this order: top-left with top-right (slot 0), top-left
    with bottom-left (slot 1), top-left with bottom-right (slot 2), top-right
    with bottom-left (slot 3) and, on the second-to-last row only, the bottom
    two cells (slot 4).  After the windows of a row it links the last-column
    cell of that row with the one below (window cols-1, slot 0).

    `Key` names the step at which each adjacent pair gets linked.  The loop
    invariant of the sweep, `WiredBefore`, says that exactly the adjacent
    pairs whose key is earlier than the current step are linked, once each. */
module Wiring {
  import opened Grid

  datatype LinkKey = LinkKey(block: int, window: int, slot: int)

  /** Lexicographic order of sweep steps. */
  predicate KeyBefore(k1: LinkKey, k2: LinkKey) {
    k1.block < k2.block ||
    (k1.block == k2.block && (k1.window < k2.window || (k1.window == k2.window && k1.slot < k2.slot)))
  }

  /** The step right after `k` in the same window. */
  function NextSlot(k: LinkKey): LinkKey {
    LinkKey(k.block, k.window, k.slot + 1)
  }

  /** The first of two positions in row-major order. */
  function First(p: Pos, q: Pos): Pos {
    if p.row < q.row || (p.row == q.row && p.col < q.col) then p else q
  }

  /** The sweep step at which the adjacent pair {p, q} is linked. */
  function Key(rows: int, cols: int, p: Pos, q: Pos): LinkKey
    requires Adjacent(rows, cols, p, q)
  {
    var a := First(p, q);
    var b := if a == p then q else p;
    if a.row == b.row then
      (if a.row <= rows - 2 then LinkKey(a.row, a.col, 0) else LinkKey(rows - 2, a.col, 4))
    else if a.col == b.col then
      (if a.col <= cols - 2 then LinkKey(a.row, a.col, 1) else LinkKey(a.row, cols - 1, 0))
    else if b.col == a.col + 1 then LinkKey(a.row, a.col, 2)
    else LinkKey(a.row, a.col - 1, 3)
  }

  lemma KeySymmetric(rows: int, cols: int, p: Pos, q: Pos)
    requires Adjacent(rows, cols, p, q)
    ensures Adjacent(rows, cols, q, p) && Key(rows, cols, p, q) == Key(rows, cols, q, p)
  {
  }

  /** Different pairs are linked at different steps. */
  lemma KeyInjective(rows: int, cols: int, p: Pos, q: Pos, p': Pos, q': Pos)
    requires Adjacent(rows, cols, p, q) && Adjacent(rows, cols, p', q')
    requires Key(rows, cols, p, q) == Key(rows, cols, p', q')
    ensures (p == p' && q == q') || (p == q' && q == p')
  {
  }

  /** The steps that occur: blocks 0..rows-2, windows 0..cols-1, slots 0..4;
      slot 4 only on the second-to-last row; only slot 0 in the last column. */
  lemma KeyRange(rows: int, cols: int, p: Pos, q: Pos)
    requires 2 <= rows && 2 <= cols && Adjacent(rows, cols, p, q)
    ensures var k := Key(rows, cols, p, q);
      0 <= k.block <= rows - 2 && 0 <= k.window <= cols - 1 && 0 <= k.slot <= 4 &&
      (k.slot == 4 ==> k.block == rows - 2) && (k.window == cols - 1 ==> k.slot == 0)
  {
  }

  /** `addNeighbor`: `a` gets `b` appended to its list, then `b` gets `a`. */
  function Link(g: Grid, a: Pos, b: Pos): (h: Grid)
    requires InGrid(g, a) && InGrid(g, b)
    ensures |h| == |g| && forall r :: 0 <= r < |g| ==> |h[r]| == |g[r]|
    ensures a != b ==> At(h, a) == At(g, a).(neighbors := At(g, a).neighbors + [b])
    ensures a != b ==> At(h, b) == At(g, b).(neighbors := At(g, b).neighbors + [a])
    ensures a == b ==> At(h, a) == At(g, a).(neighbors := At(g, a).neighbors + [a, a])
    ensures forall q :: InGrid(g, q) && q != a && q != b ==> At(h, q) == At(g, q)
  {
    var g1 := Update(g, a, At(g, a).(neighbors := At(g, a).neighbors + [b]));
    Update(g1, b, At(g1, b).(neighbors := At(g1, b).neighbors + [a]))
  }

  /** The links of one inner pass of the sweep over window (i, j), in the
      sweep's order, with the bottom pair on the second-to-last row. */
  function WindowLinks(g: Grid, rows: int, cols: int, i: int, j: int): (h: Grid)
    requires Shaped(g, rows, cols) && 0 <= i < rows - 1 && 0 <= j < cols - 1
    ensures Shaped(h, rows, cols)
  {
    var g1 := Link(g, Pos(i, j), Pos(i, j + 1));
    var g2 := Link(g1, Pos(i, j), Pos(i + 1, j));
    var g3 := Link(g2, Pos(i, j), Pos(i + 1, j + 1));
    var g4 := Link(g3, Pos(i, j + 1), Pos(i + 1, j));
    if i == rows - 2 then Link(g4, Pos(i + 1, j), Pos(i + 1, j + 1)) else g4
  }

  /** The link that ends an outer pass of the sweep: the last-column cell of
      row i with the one below. */
  function ColumnLink(g: Grid, rows: int, cols: int, i: int): (h: Grid)
    requires Shaped(g, rows, cols) && 0 <= i < rows - 1 && 1 <= cols
    ensures Shaped(h, rows, cols)
  {
    Link(g, Pos(i, cols - 1), Pos(i + 1, cols - 1))
  }

  /** The neighbour lists of a 2x2 board, in the order the sweep builds them. */
  ghost predicate TwoByTwoOrder(g: Grid) {
    Shaped(g, 2, 2) &&
    At(g, Pos(0, 0)).neighbors == [Pos(0, 1), Pos(1, 0), Pos(1, 1)] &&
    At(g, Pos(0, 1)).neighbors == [Pos(0, 0), Pos(1, 0), Pos(1, 1)] &&
    At(g, Pos(1, 0)).neighbors == [Pos(0, 0), Pos(0, 1), Pos(1, 1)] &&
    At(g, Pos(1, 1)).neighbors == [Pos(0, 0), Pos(1, 0), Pos(0, 1)]
  }

  /** `g` and `h` agree on every cell except, possibly, the neighbour lists. */
  ghost predicate SameButLinks(g: Grid, h: Grid) {
    |h| == |g| && (forall r :: 0 <= r < |g| ==> |h[r]| == |g[r]|) &&
    forall q :: InGrid(g, q) ==> At(h, q) == At(g, q).(neighbors := At(h, q).neighbors)
  }

  lemma SameButLinksRefl(g: Grid)
    ensures SameButLinks(g, g)
  {
  }

  /** Links are added in sequence: what is unchanged from `g0` to `g1` and
      from `g1` to `g2` is unchanged from `g0` to `g2`. */
  lemma SameButLinksTrans(g0: Grid, g1: Grid, g2: Grid)
    requires SameButLinks(g0, g1) && SameButLinks(g1, g2)
    ensures SameButLinks(g0, g2)
  {
  }

  /** Wiring depends on the neighbour lists alone. */
  lemma WiredSameLinks(g: Grid, h: Grid, rows: int, cols: int)
    requires Wired(g, rows, cols) && Shaped(h, rows, cols)
    requires forall q :: InGrid(g, q) ==> At(h, q).neighbors == At(g, q).neighbors
    ensures Wired(h, rows, cols)
    ensures LinkOrdered(g, rows, cols) ==> LinkOrdered(h, rows, cols)
  {
    forall p | InGrid(h, p) ensures InGrid(g, p) {
    }
  }

  /** The sweep invariant: the linked pairs are exactly the adjacent pairs
      whose step comes before `k`, and no list has a repeated entry. */
  ghost predicate WiredBefore(g: Grid, rows: int, cols: int, k: LinkKey) {
    Shaped(g, rows, cols) &&
    (forall p, q :: InGrid(g, p) && q in At(g, p).neighbors ==>
       Adjacent(rows, cols, p, q) && KeyBefore(Key(rows, cols, p, q), k)) &&
    (forall p, q :: Adjacent(rows, cols, p, q) && KeyBefore(Key(rows, cols, p, q), k) ==>
       q in At(g, p).neighbors) &&
    (forall p :: InGrid(g, p) ==> NoDup(At(g, p).neighbors)) &&
    LinkOrdered(g, rows, cols)
  }

  /** Every neighbour list is in the order of the sweep steps that made its
      links: an entry linked earlier comes first. */
  ghost predicate LinkOrdered(g: Grid, rows: int, cols: int) {
    forall p :: InGrid(g, p) ==> KeySorted(rows, cols, p, At(g, p).neighbors)
  }

  /** The entries of `s` are adjacent to `p`, in increasing order of the step
      that links each to `p`. */
  ghost predicate KeySorted(rows: int, cols: int, p: Pos, s: seq<Pos>) {
    (forall m :: 0 <= m < |s| ==> Adjacent(rows, cols, p, s[m])) &&
    forall m, n :: 0 <= m < n < |s| ==> KeyBefore(Key(rows, cols, p, s[m]), Key(rows, cols, p, s[n]))
  }

  /** Appending an entry linked after every entry of a sorted list keeps it sorted. */
  lemma SortedAppend(rows: int, cols: int, p: Pos, s: seq<Pos>, o: Pos)
    requires KeySorted(rows, cols, p, s) && Adjacent(rows, cols, p, o)
    requires forall q :: q in s ==> Adjacent(rows, cols, p, q) && KeyBefore(Key(rows, cols, p, q), Key(rows, cols, p, o))
    ensures KeySorted(rows, cols, p, s + [o])
  {
    var t := s + [o];
    forall m | 0 <= m < |t| ensures Adjacent(rows, cols, p, t[m]) {
      if m < |s| {
        assert t[m] == s[m];
      }
    }
    forall m, n | 0 <= m < n < |t|
      ensures KeyBefore(Key(rows, cols, p, t[m]), Key(rows, cols, p, t[n]))
    {
      assert t[m] == s[m] && s[m] in s;
      if n < |s| {
        assert t[n] == s[n];
      }
    }
  }

  /** Linking the pair whose step is `k` advances the invariant by one slot. */
  lemma LinkStep(g: Grid, rows: int, cols: int, a: Pos, b: Pos, k: LinkKey)
    requires WiredBefore(g, rows, cols, k)
    requires Adjacent(rows, cols, a, b) && Key(rows, cols, a, b) == k
    ensures WiredBefore(Link(g, a, b), rows, cols, NextSlot(k))
  {
    var h := Link(g, a, b);
    var k' := NextSlot(k);
    KeySymmetric(rows, cols, a, b);
    forall p, q | InGrid(h, p) && q in At(h, p).neighbors
      ensures Adjacent(rows, cols, p, q) && KeyBefore(Key(rows, cols, p, q), k')
    {
      if q !in At(g, p).neighbors {
        assert (p == a && q == b) || (p == b && q == a);
      }
    }
    forall p, q | Adjacent(rows, cols, p, q) && KeyBefore(Key(rows, cols, p, q), k')
      ensures q in At(h, p).neighbors
    {
      if !KeyBefore(Key(rows, cols, p, q), k) {
        KeyInjective(rows, cols, p, q, a, b);
      }
    }
    forall p | InGrid(h, p) ensures NoDup(At(h, p).neighbors) {
      if p == a {
        assert b !in At(g, a).neighbors;
      } else if p == b {
        assert a !in At(g, b).neighbors;
      }
    }
    LinkKeepsOrder(g, rows, cols, a, b, k);
  }

  /** The part of `LinkStep` about order: the new entries come last and carry
      the latest step. */
  lemma LinkKeepsOrder(g: Grid, rows: int, cols: int, a: Pos, b: Pos, k: LinkKey)
    requires Shaped(g, rows, cols) && LinkOrdered(g, rows, cols)
    requires Adjacent(rows, cols, a, b) && Key(rows, cols, a, b) == k && Key(rows, cols, b, a) == k
    requires forall q :: q in At(g, a).neighbors ==> Adjacent(rows, cols, a, q) && KeyBefore(Key(rows, cols, a, q), k)
    requires forall q :: q in At(g, b).neighbors ==> Adjacent(rows, cols, b, q) && KeyBefore(Key(rows, cols, b, q), k)
    ensures LinkOrdered(Link(g, a, b), rows, cols)
  {
    var h := Link(g, a, b);
    KeySymmetric(rows, cols, a, b);
    forall p | InGrid(h, p) ensures KeySorted(rows, cols, p, At(h, p).neighbors) {
      assert InGrid(g, p);
      if p == a {
        SortedAppend(rows, cols, a, At(g, a).neighbors, b);
      } else if p == b {
        SortedAppend(rows, cols, b, At(g, b).neighbors, a);
      } else {
        assert At(h, p) == At(g, p);
      }
    }
    assert LinkOrdered(h, rows, cols);
  }

  /** The steps of window (i, j) and of the last column of row i. */
  lemma WindowKeys(rows: int, cols: int, i: int, j: int)
    requires 0 <= i < rows - 1 && 0 <= j < cols - 1
    ensures Adjacent(rows, cols, Pos(i, j), Pos(i, j + 1)) && Key(rows, cols, Pos(i, j), Pos(i, j + 1)) == LinkKey(i, j, 0)
    ensures Adjacent(rows, cols, Pos(i, j), Pos(i + 1, j)) && Key(rows, cols, Pos(i, j), Pos(i + 1, j)) == LinkKey(i, j, 1)
    ensures Adjacent(rows, cols, Pos(i, j), Pos(i + 1, j + 1)) && Key(rows, cols, Pos(i, j), Pos(i + 1, j + 1)) == LinkKey(i, j, 2)
    ensures Adjacent(rows, cols, Pos(i, j + 1), Pos(i + 1, j)) && Key(rows, cols, Pos(i, j + 1), Pos(i + 1, j)) == LinkKey(i, j, 3)
    ensures i == rows - 2 ==>
      Adjacent(rows, cols, Pos(i + 1, j), Pos(i + 1, j + 1)) && Key(rows, cols, Pos(i + 1, j), Pos(i + 1, j + 1)) == LinkKey(i, j, 4)
  {
  }

  lemma ColumnKey(rows: int, cols: int, i: int)
    requires 0 <= i < rows - 1 && 1 <= cols
    ensures Adjacent(rows, cols, Pos(i, cols - 1), Pos(i + 1, cols - 1))
    ensures Key(rows, cols, Pos(i, cols - 1), Pos(i + 1, cols - 1)) == LinkKey(i, cols - 1, 0)
  {
  }

  /** `LinkStep`, also keeping track of what the sweep started from. */
  lemma LinkAdvance(g0: Grid, g: Grid, rows: int, cols: int, a: Pos, b: Pos, k: LinkKey)
    requires SameButLinks(g0, g) && WiredBefore(g, rows, cols, k)
    requires Adjacent(rows, cols, a, b) && Key(rows, cols, a, b) == k
    ensures InGrid(g, a) && InGrid(g, b)
    ensures SameButLinks(g0, Link(g, a, b)) && WiredBefore(Link(g, a, b), rows, cols, NextSlot(k))
  {
    LinkStep(g, rows, cols, a, b, k);
  }

  /** The invariant holds at `k2` as soon as it holds at `k1` and no pair is
      linked at a step between the two. */
  lemma Skip(g: Grid, rows: int, cols: int, k1: LinkKey, k2: LinkKey)
    requires WiredBefore(g, rows, cols, k1)
    requires forall p, q :: Adjacent(rows, cols, p, q) ==>
      (KeyBefore(Key(rows, cols, p, q), k1) <==> KeyBefore(Key(rows, cols, p, q), k2))
    ensures WiredBefore(g, rows, cols, k2)
  {
  }

  /** After the last slot of window (i, j) the sweep may move on to window (i, j+1). */
  lemma WindowDone(g: Grid, rows: int, cols: int, i: int, j: int)
    requires 2 <= rows && 2 <= cols
    requires WiredBefore(g, rows, cols, LinkKey(i, j, if i == rows - 2 then 5 else 4))
    ensures WiredBefore(g, rows, cols, LinkKey(i, j + 1, 0))
  {
    forall p, q | Adjacent(rows, cols, p, q) {
      KeyRange(rows, cols, p, q);
    }
    Skip(g, rows, cols, LinkKey(i, j, if i == rows - 2 then 5 else 4), LinkKey(i, j + 1, 0));
  }

  /** After the last-column link of row i the sweep may move on to row i+1. */
  lemma RowDone(g: Grid, rows: int, cols: int, i: int)
    requires 2 <= rows && 2 <= cols
    requires WiredBefore(g, rows, cols, LinkKey(i, cols - 1, 1))
    ensures WiredBefore(g, rows, cols, LinkKey(i + 1, 0, 0))
  {
    forall p, q | Adjacent(rows, cols, p, q) {
      KeyRange(rows, cols, p, q);
    }
    Skip(g, rows, cols, LinkKey(i, cols - 1, 1), LinkKey(i + 1, 0, 0));
  }

  /** A grid of unlinked cells satisfies the invariant before the first step. */
  lemma WiringStart(g: Grid, rows: int, cols: int)
    requires 2 <= rows && 2 <= cols && Shaped(g, rows, cols)
    requires forall p :: InGrid(g, p) ==> At(g, p).neighbors == []
    ensures WiredBefore(g, rows, cols, LinkKey(0, 0, 0))
  {
    forall p, q | Adjacent(rows, cols, p, q) ensures !KeyBefore(Key(rows, cols, p, q), LinkKey(0, 0, 0)) {
      KeyRange(rows, cols, p, q);
    }
  }

  /** Once every row is done, the cells are linked to exactly their
      grid-adjacent cells. */
  lemma WiringComplete(g: Grid, rows: int, cols: int)
    requires 2 <= rows && 2 <= cols
    requires WiredBefore(g, rows, cols, LinkKey(rows - 1, 0, 0))
    ensures Wired(g, rows, cols) && LinkOrdered(g, rows, cols)
    ensures rows == 2 && cols == 2 ==> TwoByTwoOrder(g)
  {
    forall p, q | InGrid(g, p) && Adjacent(rows, cols, p, q) ensures q in At(g, p).neighbors {
      KeyRange(rows, cols, p, q);
    }
    if rows == 2 && cols == 2 {
      TwoByTwoNeighborOrder(g);
    }
  }

  /** Links go both ways. */
  lemma LinksSymmetric(g: Grid, rows: int, cols: int, p: Pos, q: Pos)
    requires Wired(g, rows, cols) && InGrid(g, p) && q in At(g, p).neighbors
    ensures InGrid(g, q) && p in At(g, q).neighbors
  {
  }

  /** On a 2x2 grid every cell is linked to the three others. */
  lemma TwoByTwoThreeNeighbors(g: Grid, q: Pos)
    requires Wired(g, 2, 2) && InGrid(g, q)
    ensures |At(g, q).neighbors| == 3
  {
    var linked := set m | m in At(g, q).neighbors;
    assert linked == AllPos(2, 2) - {q};
    AllPosCard(2, 2);
    NoDupCard(At(g, q).neighbors);
  }

  /** On a wired 2x2 grid whose lists are in sweep order, the list of `p` is
      its three other cells ordered by the step that linked each. */
  lemma ListInKeyOrder(g: Grid, p: Pos, x: Pos, y: Pos, z: Pos)
    requires Wired(g, 2, 2) && LinkOrdered(g, 2, 2) && InGrid(g, p)
    requires forall q :: Adjacent(2, 2, p, q) ==> q == x || q == y || q == z
    requires Adjacent(2, 2, p, x) && Adjacent(2, 2, p, y) && Adjacent(2, 2, p, z)
    requires KeyBefore(Key(2, 2, p, x), Key(2, 2, p, y)) && KeyBefore(Key(2, 2, p, y), Key(2, 2, p, z))
    ensures At(g, p).neighbors == [x, y, z]
  {
    var s := At(g, p).neighbors;
    TwoByTwoThreeNeighbors(g, p);
    assert s[0] in s && s[1] in s && s[2] in s;
    assert KeyBefore(Key(2, 2, p, s[0]), Key(2, 2, p, s[1]));
    assert KeyBefore(Key(2, 2, p, s[1]), Key(2, 2, p, s[2]));
  }

  /** The lists of a 2x2 board as the sweep builds them: (0,0) gets (0,1),
      (1,0), (1,1); (0,1) gets (0,0), (1,0), (1,1); (1,0) gets (0,0), (0,1),
      (1,1); and (1,1) gets (0,0), (1,0), (0,1). */
  lemma TwoByTwoNeighborOrder(g: Grid)
    requires Wired(g, 2, 2) && LinkOrdered(g, 2, 2)
    ensures TwoByTwoOrder(g)
  {
    ListInKeyOrder(g, Pos(0, 0), Pos(0, 1), Pos(1, 0), Pos(1, 1));
    ListInKeyOrder(g, Pos(0, 1), Pos(0, 0), Pos(1, 0), Pos(1, 1));
    ListInKeyOrder(g, Pos(1, 0), Pos(0, 0), Pos(0, 1), Pos(1, 1));
    ListInKeyOrder(g, Pos(1, 1), Pos(0, 0), Pos(1, 0), Pos(0, 1));
  }

  /** On a wired board the cached count of a cell is the number of mines among
      its grid-adjacent cells. */
  lemma CachedCountIsAdjacentMines(g: Grid, rows: int, cols: int, q: Pos)
    requires Wired(g, rows, cols) && InGrid(g, q)
    ensures CountMines(g, At(g, q).neighbors) ==
            |set m | m in AllPos(rows, cols) && Adjacent(rows, cols, q, m) && At(g, m).mine|
  {
    CountMinesIsSetSize(g, At(g, q).neighbors);
    assert MinesIn(g, At(g, q).neighbors) ==
           set m | m in AllPos(rows, cols) && Adjacent(rows, cols, q, m) && At(g, m).mine;
  }

  /** A cell has at most 8 neighbours. */
  lemma AtMostEightNeighbors(g: Grid, rows: int, cols: int, q: Pos)
    requires Wired(g, rows, cols) && InGrid(g, q)
    ensures |At(g, q).neighbors| <= 8
  {
    var r, c := q.row, q.col;
    var box := {Pos(r - 1, c - 1), Pos(r - 1, c), Pos(r - 1, c + 1), Pos(r, c - 1),
                Pos(r, c + 1), Pos(r + 1, c - 1), Pos(r + 1, c), Pos(r + 1, c + 1)};
    var linked := set m | m in At(g, q).neighbors;
    forall m | m in linked ensures m in box {
      assert Adjacent(rows, cols, q, m);
    }
    NoDupCard(At(g, q).neighbors);
    SubsetCard(linked, box);
  }

  /** How many of the indices i-1, i and i+1 lie in 0 to n-1. */
  function Span(i: int, n: int): int {
    (if i > 0 then 1 else 0) + 1 + (if i < n - 1 then 1 else 0)
  }

  /** The exact neighbour count: the rows around q that lie in the grid, times
      the columns around q that lie in the grid, less q itself. */
  lemma NeighborCount(g: Grid, rows: int, cols: int, q: Pos)
    requires Wired(g, rows, cols) && InGrid(g, q)
    ensures |At(g, q).neighbors| == Span(q.row, rows) * Span(q.col, cols) - 1
  {
    var r0 := if q.row > 0 then q.row - 1 else 0;
    var r1 := if q.row < rows - 1 then q.row + 2 else rows;
    var c0 := if q.col > 0 then q.col - 1 else 0;
    var c1 := if q.col < cols - 1 then q.col + 2 else cols;
    var box := Rect(r0, r1, c0, c1);
    var linked := set m | m in At(g, q).neighbors;
    forall m ensures m in linked <==> m in box - {q} {
      assert m in linked <==> Adjacent(rows, cols, q, m);
    }
    assert linked == box - {q};
    RectCard(r0, r1, c0, c1);
    NoDupCard(At(g, q).neighbors);
  }

  /** A row or column index on the border of a dimension of size n. */
  predicate Border(i: int, n: int) {
    i == 0 || i == n - 1
  }

  /** On a grid of at least 2 by 2: a corner cell has 3 neighbours, a cell on
      one border and not a corner 5, and an interior cell 8. */
  lemma CornerEdgeInterior(g: Grid, rows: int, cols: int, q: Pos)
    requires Wired(g, rows, cols) && InGrid(g, q) && 2 <= rows && 2 <= cols
    ensures Border(q.row, rows) && Border(q.col, cols) ==> |At(g, q).neighbors| == 3
    ensures Border(q.row, rows) != Border(q.col, cols) ==> |At(g, q).neighbors| == 5
    ensures !Border(q.row, rows) && !Border(q.col, cols) ==> |At(g, q).neighbors| == 8
  {
    NeighborCount(g, rows, cols, q);
  }

  lemma SubsetCard<T>(a: set<T>, b: set<T>)
    requires a <= b
    ensures |a| <= |b|
  {
    assert b == a + (b - a);
  }
}
