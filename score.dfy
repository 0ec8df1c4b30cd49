/** Win accounting: how each player action changes the sets of mines,
    safe cells and clicked cells that `visibleCells` and `win` are about. */
module Score {
  import opened Grid
  import opened Reveal

  /** `list` holds exactly the mines of `g`, each once, `m` of them. */
  ghost predicate MinesListed(g: Grid, list: seq<Pos>, m: int) {
    |list| == m && NoDup(list) && (forall q :: q in list ==> InGrid(g, q)) &&
    forall q :: InGrid(g, q) ==> (At(g, q).mine <==> q in list)
  }

  /** `g` and `h` agree on every cell except, possibly, the mine flags. */
  ghost predicate SameButMines(g: Grid, h: Grid) {
    |h| == |g| && (forall r :: 0 <= r < |g| ==> |h[r]| == |g[r]|) &&
    forall q :: InGrid(g, q) ==> At(h, q) == At(g, q).(mine := At(h, q).mine)
  }

  lemma SameButMinesTrans(g0: Grid, g1: Grid, g2: Grid)
    requires SameButMines(g0, g1) && SameButMines(g1, g2)
    ensures SameButMines(g0, g2)
  {
  }

  /** Turning a cell that is not listed into a mine, and listing it, keeps
      the list and the mines in step. */
  lemma MarkMine(g: Grid, list: seq<Pos>, p: Pos)
    requires InGrid(g, p) && p !in list
    requires forall q :: InGrid(g, q) ==> (At(g, q).mine <==> q in list)
    ensures var h := Update(g, p, At(g, p).(mine := !At(g, p).mine));
      forall q :: InGrid(h, q) ==> (At(h, q).mine <==> q in list + [p])
  {
    var h := Update(g, p, At(g, p).(mine := !At(g, p).mine));
    forall q | InGrid(h, q) ensures At(h, q).mine <==> q in list + [p] {
      if q != p {
        assert At(h, q) == At(g, q);
      }
    }
  }

  /** `g1` is `g0` with every cell of `list` clicked. */
  ghost predicate ClickedList(g0: Grid, g1: Grid, list: seq<Pos>) {
    |g1| == |g0| && (forall r :: 0 <= r < |g0| ==> |g1[r]| == |g0[r]|) &&
    forall q :: InGrid(g0, q) ==> At(g1, q) == At(g0, q).(clicked := At(g0, q).clicked || q in list)
  }

  /** A list of the mines, without repeats, is as long as there are mines. */
  lemma ListedMineCount(g: Grid, rows: int, cols: int, list: seq<Pos>)
    requires Shaped(g, rows, cols) && MinesListed(g, list, |list|)
    ensures |MineSet(g, rows, cols)| == |list|
  {
    assert MineSet(g, rows, cols) == set q | q in list;
    NoDupCard(list);
  }

  lemma SubsetSameSize<T>(a: set<T>, b: set<T>)
    requires a <= b && |a| == |b|
    ensures a == b
  {
    assert |b - a| == 0;
    assert forall x :: x in b ==> x in a;
  }

  /** A flood fill leaves the mines as they are and adds the newly clicked
      cells, none of them a mine, to the clicked safe cells. */
  lemma FillScore(g0: Grid, g1: Grid, p: Pos, rows: int, cols: int)
    requires FloodFilled(g0, g1, p, rows, cols)
    ensures MineSet(g1, rows, cols) == MineSet(g0, rows, cols)
    ensures SafeSet(g1, rows, cols) == SafeSet(g0, rows, cols)
    ensures ClickedMines(g1, rows, cols) == ClickedMines(g0, rows, cols)
    ensures ClickedSafe(g1, rows, cols) == ClickedSafe(g0, rows, cols) + Newly(g0, g1, rows, cols)
    ensures |ClickedSafe(g1, rows, cols)| == |ClickedSafe(g0, rows, cols)| + |Newly(g0, g1, rows, cols)|
  {
    forall q | q in Newly(g0, g1, rows, cols) ensures !At(g0, q).mine {
      RevealsOnlyEligible(g0, p, q);
    }
    assert MineSet(g1, rows, cols) == MineSet(g0, rows, cols);
    assert SafeSet(g1, rows, cols) == SafeSet(g0, rows, cols);
    assert ClickedMines(g1, rows, cols) == ClickedMines(g0, rows, cols);
    assert ClickedSafe(g1, rows, cols) == ClickedSafe(g0, rows, cols) + Newly(g0, g1, rows, cols);
    assert ClickedSafe(g0, rows, cols) !! Newly(g0, g1, rows, cols);
  }

  /** Clicking cells does not change which cells are mines. */
  lemma PreservedMinesListed(g0: Grid, g1: Grid, list: seq<Pos>, m: int)
    requires Preserved(g0, g1) && MinesListed(g0, list, m)
    ensures MinesListed(g1, list, m)
  {
    forall q | InGrid(g1, q) ensures At(g1, q).mine <==> q in list {
      assert InGrid(g0, q);
    }
  }

  /** The bookkeeping of a flood fill during play: the list still names the
      mines, the count grows by the number of newly clicked cells, no mine is
      clicked, and every safe cell is clicked exactly when the count reaches
      the number of safe cells. */
  lemma FillKeepsScore(g0: Grid, g1: Grid, p: Pos, rows: nat, cols: nat, list: seq<Pos>, m: int, visible: int)
    requires FloodFilled(g0, g1, p, rows, cols) && MinesListed(g0, list, m)
    requires visible == |ClickedSafe(g0, rows, cols)| && ClickedMines(g0, rows, cols) == {}
    ensures MinesListed(g1, list, m) && ClickedMines(g1, rows, cols) == {}
    ensures visible + |Newly(g0, g1, rows, cols)| == |ClickedSafe(g1, rows, cols)|
    ensures ClickedSafe(g1, rows, cols) == SafeSet(g1, rows, cols) <==>
            visible + |Newly(g0, g1, rows, cols)| == rows * cols - m
  {
    FillScore(g0, g1, p, rows, cols);
    PreservedMinesListed(g0, g1, list, m);
    ListedMineCount(g1, rows, cols, list);
    AllSafeClicked(g1, rows, cols);
  }

  /** Clicking every listed mine leaves the clicked safe cells as they are. */
  lemma MinesScore(g0: Grid, g1: Grid, list: seq<Pos>, rows: int, cols: int)
    requires Shaped(g0, rows, cols) && ClickedList(g0, g1, list)
    requires forall q :: q in list ==> InGrid(g0, q) && At(g0, q).mine
    ensures Shaped(g1, rows, cols)
    ensures MineSet(g1, rows, cols) == MineSet(g0, rows, cols)
    ensures ClickedSafe(g1, rows, cols) == ClickedSafe(g0, rows, cols)
  {
    assert MineSet(g1, rows, cols) == MineSet(g0, rows, cols);
    assert ClickedSafe(g1, rows, cols) == ClickedSafe(g0, rows, cols);
  }

  /** Toggling a flag changes none of the counted sets. */
  lemma FlagScore(g0: Grid, p: Pos, rows: int, cols: int)
    requires Shaped(g0, rows, cols) && InGrid(g0, p)
    ensures var g1 := Update(g0, p, At(g0, p).(flagged := !At(g0, p).flagged));
      Shaped(g1, rows, cols) &&
      MineSet(g1, rows, cols) == MineSet(g0, rows, cols) &&
      ClickedSafe(g1, rows, cols) == ClickedSafe(g0, rows, cols) &&
      ClickedMines(g1, rows, cols) == ClickedMines(g0, rows, cols)
  {
    var g1 := Update(g0, p, At(g0, p).(flagged := !At(g0, p).flagged));
    assert MineSet(g1, rows, cols) == MineSet(g0, rows, cols);
    assert ClickedSafe(g1, rows, cols) == ClickedSafe(g0, rows, cols);
    assert ClickedMines(g1, rows, cols) == ClickedMines(g0, rows, cols);
  }

  /** When every clicked cell is safe, all safe cells are clicked exactly when
      as many cells are clicked as there are safe cells. */
  lemma AllSafeClicked(g: Grid, rows: nat, cols: nat)
    requires Shaped(g, rows, cols)
    ensures ClickedSafe(g, rows, cols) == SafeSet(g, rows, cols) <==>
            |ClickedSafe(g, rows, cols)| == rows * cols - |MineSet(g, rows, cols)|
  {
    SafeCount(g, rows, cols);
    assert ClickedSafe(g, rows, cols) <= SafeSet(g, rows, cols);
    if |ClickedSafe(g, rows, cols)| == |SafeSet(g, rows, cols)| {
      SubsetSameSize(ClickedSafe(g, rows, cols), SafeSet(g, rows, cols));
    }
  }
}
