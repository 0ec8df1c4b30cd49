/** What `Cell.floodFill` reveals, stated on grid values.

    A cell is eligible when it is in the grid, not yet clicked, not flagged
    and not a mine: exactly the cells that pass the guard of `floodFill`.
    The fill started at `p` clicks exactly the cells `q` that are reached
    from `p` by a path of eligible cells in which every cell but the last has
    no mine among its neighbours (`Reveals`), judged on the grid as it was
    when the fill started. */
module Reveal {
  import opened Grid

  ghost predicate Eligible(g: Grid, q: Pos) {
    InGrid(g, q) && !At(g, q).clicked && !At(g, q).flagged && !At(g, q).mine
  }

  /** The live count of mines among the neighbours of `q`. */
  function LiveCount(g: Grid, q: Pos): nat
    requires InGrid(g, q)
  {
    CountMines(g, At(g, q).neighbors)
  }

  /** After the fill at `q`, `q` is clicked or cannot be clicked by it. */
  ghost predicate Done(g: Grid, q: Pos)
    requires InGrid(g, q)
  {
    At(g, q).clicked || At(g, q).flagged || At(g, q).mine
  }

  /** `g1` differs from `g0` at most in clicked flags, and nothing that was
      clicked in `g0` is unclicked in `g1`. */
  ghost predicate Preserved(g0: Grid, g1: Grid) {
    |g1| == |g0| && (forall r :: 0 <= r < |g0| ==> |g1[r]| == |g0[r]|) &&
    forall q :: InGrid(g0, q) ==>
      At(g1, q) == At(g0, q).(clicked := At(g1, q).clicked) && (At(g0, q).clicked ==> At(g1, q).clicked)
  }

  /** The cells clicked in `g1` that were not clicked in `g0`. */
  ghost function Newly(g0: Grid, g1: Grid, rows: int, cols: int): set<Pos>
    requires Shaped(g0, rows, cols) && Shaped(g1, rows, cols)
  {
    set q | q in AllPos(rows, cols) && At(g1, q).clicked && !At(g0, q).clicked
  }

  /** The cells not clicked yet: the termination measure of the fill. */
  ghost function Unclicked(g: Grid, rows: int, cols: int): set<Pos>
    requires Shaped(g, rows, cols)
  {
    set q | q in AllPos(rows, cols) && !At(g, q).clicked
  }

  /** A path along which the fill cascades: every cell eligible, every cell
      but the last with live count 0 and linked to the next. */
  ghost predicate RevealPath(g: Grid, path: seq<Pos>) {
    |path| > 0 &&
    (forall k :: 0 <= k < |path| ==> Eligible(g, path[k])) &&
    (forall k :: 0 <= k < |path| - 1 ==>
       LiveCount(g, path[k]) == 0 && path[k + 1] in At(g, path[k]).neighbors)
  }

  /** A fill started at `p` on grid `g` clicks `q`. */
  ghost predicate Reveals(g: Grid, p: Pos, q: Pos) {
    exists path :: RevealPath(g, path) && path[0] == p && path[|path| - 1] == q
  }

  /** Cells that the fill at `p` clicks are eligible: a fill never clicks a
      mine, a flagged cell or a cell that is already clicked. */
  lemma RevealsOnlyEligible(g: Grid, p: Pos, q: Pos)
    requires Reveals(g, p, q)
    ensures Eligible(g, p) && Eligible(g, q)
  {
  }

  /** A fill started at a cell that fails the guard clicks nothing. */
  lemma GuardFailsRevealsNothing(g: Grid, p: Pos, q: Pos)
    requires !Eligible(g, p)
    ensures !Reveals(g, p, q)
  {
  }

  /** A fill started at an eligible cell clicks that cell. */
  lemma RevealsStart(g: Grid, p: Pos)
    requires Eligible(g, p)
    ensures Reveals(g, p, p)
  {
    assert RevealPath(g, [p]);
  }

  /** A fill started at an eligible cell with a mine among its neighbours
      clicks that cell and nothing else. */
  lemma NumberedCellRevealsItself(g: Grid, p: Pos, q: Pos)
    requires Eligible(g, p) && LiveCount(g, p) != 0
    ensures Reveals(g, p, q) <==> q == p
  {
    if q == p {
      RevealsStart(g, p);
    }
    if Reveals(g, p, q) {
      var path :| RevealPath(g, path) && path[0] == p && path[|path| - 1] == q;
      assert |path| == 1;
    }
  }

  /** One step of a cascade: a zero-count eligible cell followed by a path
      from one of its neighbours. */
  lemma RevealsPrepend(g: Grid, p: Pos, y: Pos, x: Pos)
    requires Eligible(g, p) && LiveCount(g, p) == 0 && y in At(g, p).neighbors
    requires Reveals(g, y, x)
    ensures Reveals(g, p, x)
  {
    var path :| RevealPath(g, path) && path[0] == y && path[|path| - 1] == x;
    var path' := [p] + path;
    forall k | 0 <= k < |path'| - 1
      ensures LiveCount(g, path'[k]) == 0 && path'[k + 1] in At(g, path'[k]).neighbors
    {
      if k > 0 {
        assert path'[k] == path[k - 1] && path'[k + 1] == path[k];
      }
    }
    assert RevealPath(g, path');
  }

  lemma LiveCountPreserved(g0: Grid, g1: Grid, q: Pos)
    requires Preserved(g0, g1) && InGrid(g0, q)
    ensures InGrid(g1, q) && LiveCount(g1, q) == LiveCount(g0, q)
  {
    CountMinesSameMines(g1, g0, At(g0, q).neighbors);
  }

  /** Every path on a later grid of the same fill is a path on the earlier one,
      since cells only stop being eligible. */
  lemma RevealsEarlier(g0: Grid, g1: Grid, y: Pos, x: Pos)
    requires Preserved(g0, g1) && Reveals(g1, y, x)
    ensures Reveals(g0, y, x)
  {
    var path :| RevealPath(g1, path) && path[0] == y && path[|path| - 1] == x;
    forall k | 0 <= k < |path| ensures Eligible(g0, path[k]) {
      assert Eligible(g1, path[k]);
    }
    forall k | 0 <= k < |path| - 1
      ensures LiveCount(g0, path[k]) == 0 && path[k + 1] in At(g0, path[k]).neighbors
    {
      LiveCountPreserved(g0, g1, path[k]);
    }
    assert RevealPath(g0, path);
  }

  lemma PreservedTrans(g0: Grid, g1: Grid, g2: Grid, rows: int, cols: int)
    requires Shaped(g0, rows, cols)
    requires Preserved(g0, g1) && Preserved(g1, g2)
    ensures Shaped(g1, rows, cols) && Shaped(g2, rows, cols) && Preserved(g0, g2)
    ensures Newly(g0, g2, rows, cols) == Newly(g0, g1, rows, cols) + Newly(g1, g2, rows, cols)
    ensures Newly(g0, g1, rows, cols) !! Newly(g1, g2, rows, cols)
    ensures |Newly(g0, g2, rows, cols)| == |Newly(g0, g1, rows, cols)| + |Newly(g1, g2, rows, cols)|
  {
    assert Newly(g0, g2, rows, cols) == Newly(g0, g1, rows, cols) + Newly(g1, g2, rows, cols);
  }

  /** Clicking an unclicked cell adds exactly that cell to the clicked ones. */
  lemma ClickOne(g: Grid, p: Pos, rows: int, cols: int)
    requires Shaped(g, rows, cols) && InGrid(g, p) && !At(g, p).clicked
    ensures var h := Update(g, p, At(g, p).(clicked := true));
      Shaped(h, rows, cols) && Preserved(g, h) && Newly(g, h, rows, cols) == {p}
  {
    var h := Update(g, p, At(g, p).(clicked := true));
    assert Newly(g, h, rows, cols) == {p};
  }

  /** Once `p` has been clicked, fewer cells are unclicked than at the start. */
  lemma UnclickedShrinks(g0: Grid, g1: Grid, p: Pos, rows: int, cols: int)
    requires Shaped(g0, rows, cols) && Preserved(g0, g1)
    requires InGrid(g0, p) && !At(g0, p).clicked && At(g1, p).clicked
    ensures Shaped(g1, rows, cols) && Unclicked(g1, rows, cols) < Unclicked(g0, rows, cols)
  {
    assert p in Unclicked(g0, rows, cols) - Unclicked(g1, rows, cols);
  }

  /** No newly clicked cell with live count 0 has a neighbour that is still
      clickable (cells other than `except`, which may still be in progress). */
  ghost predicate ClosedBut(g0: Grid, g1: Grid, rows: int, cols: int, except: set<Pos>)
    requires Shaped(g0, rows, cols) && Shaped(g1, rows, cols)
  {
    forall x, y ::
      (x in Newly(g0, g1, rows, cols) && x !in except && LiveCount(g1, x) == 0 &&
       y in At(g1, x).neighbors && InGrid(g1, y)) ==> Done(g1, y)
  }

  /** The fill from `p` turned `g0` into `g1`: only clicked flags changed, the
      newly clicked cells are exactly those `Reveals(g0, p, _)` names, `p` ends
      up done, and the new cells are closed under the cascade. */
  ghost predicate FloodFilled(g0: Grid, g1: Grid, p: Pos, rows: int, cols: int) {
    Shaped(g0, rows, cols) && Shaped(g1, rows, cols) && Preserved(g0, g1) && InGrid(g1, p) &&
    Done(g1, p) && ClosedBut(g0, g1, rows, cols, {}) &&
    forall q :: q in Newly(g0, g1, rows, cols) <==> Reveals(g0, p, q)
  }

  /** The closure argument: along a cascade path that starts at a newly
      clicked cell, every cell is newly clicked. */
  lemma {:induction false} ClosedPath(g0: Grid, g1: Grid, rows: int, cols: int, path: seq<Pos>)
    requires Shaped(g0, rows, cols) && Preserved(g0, g1)
    requires Shaped(g1, rows, cols) && ClosedBut(g0, g1, rows, cols, {})
    requires RevealPath(g0, path) && path[0] in Newly(g0, g1, rows, cols)
    ensures path[|path| - 1] in Newly(g0, g1, rows, cols)
  {
    if |path| > 1 {
      var x, y := path[0], path[1];
      LiveCountPreserved(g0, g1, x);
      assert Eligible(g0, y);
      assert Done(g1, y);
      var rest := path[1..];
      assert RevealPath(g0, rest) by {
        forall k | 0 <= k < |rest| - 1
          ensures LiveCount(g0, rest[k]) == 0 && rest[k + 1] in At(g0, rest[k]).neighbors
        {
          assert rest[k] == path[k + 1] && rest[k + 1] == path[k + 2];
        }
      }
      ClosedPath(g0, g1, rows, cols, rest);
    }
  }

  /** The invariant of the loop over the neighbours of `p` in the fill from
      `p`, after `i` neighbours. */
  ghost predicate FillInv(g0: Grid, g: Grid, p: Pos, nbs: seq<Pos>, i: int, rows: int, cols: int) {
    Shaped(g0, rows, cols) && Shaped(g, rows, cols) && Preserved(g0, g) &&
    Eligible(g0, p) && LiveCount(g0, p) == 0 && At(g, p).clicked &&
    nbs == At(g0, p).neighbors && 0 <= i <= |nbs| &&
    (forall k :: 0 <= k < i && InGrid(g, nbs[k]) ==> Done(g, nbs[k])) &&
    ClosedBut(g0, g, rows, cols, {p}) &&
    forall x :: x in Newly(g0, g, rows, cols) ==> Reveals(g0, p, x)
  }

  /** The state right after `p` itself was clicked starts the loop. */
  lemma FillStart(g0: Grid, g1: Grid, p: Pos, rows: int, cols: int)
    requires Shaped(g0, rows, cols) && Eligible(g0, p) && LiveCount(g0, p) == 0
    requires g1 == Update(g0, p, At(g0, p).(clicked := true))
    ensures FillInv(g0, g1, p, At(g0, p).neighbors, 0, rows, cols)
  {
    ClickOne(g0, p, rows, cols);
    RevealsStart(g0, p);
  }

  /** The fill from neighbour `nbs[i]` keeps the loop invariant. */
  lemma FillStep(g0: Grid, g: Grid, g': Grid, p: Pos, nbs: seq<Pos>, i: int, rows: int, cols: int)
    requires FillInv(g0, g, p, nbs, i, rows, cols) && i < |nbs| && InGrid(g, nbs[i])
    requires FloodFilled(g, g', nbs[i], rows, cols)
    ensures FillInv(g0, g', p, nbs, i + 1, rows, cols)
    ensures |Newly(g0, g', rows, cols)| == |Newly(g0, g, rows, cols)| + |Newly(g, g', rows, cols)|
  {
    PreservedTrans(g0, g, g', rows, cols);
    StepDone(g, g', nbs, i);
    StepClosed(g0, g, g', p, rows, cols);
    StepReveals(g0, g, g', p, nbs[i], rows, cols);
  }

  lemma StepDone(g: Grid, g': Grid, nbs: seq<Pos>, i: int)
    requires Preserved(g, g') && 0 <= i < |nbs| && InGrid(g, nbs[i]) && Done(g', nbs[i])
    requires forall k :: 0 <= k < i && InGrid(g, nbs[k]) ==> Done(g, nbs[k])
    ensures forall k :: 0 <= k < i + 1 && InGrid(g', nbs[k]) ==> Done(g', nbs[k])
  {
    forall k | 0 <= k < i + 1 && InGrid(g', nbs[k]) ensures Done(g', nbs[k]) {
      assert InGrid(g, nbs[k]);
    }
  }

  lemma StepClosed(g0: Grid, g: Grid, g': Grid, p: Pos, rows: int, cols: int)
    requires Shaped(g0, rows, cols) && Shaped(g, rows, cols) && Shaped(g', rows, cols)
    requires Preserved(g0, g) && Preserved(g, g')
    requires Newly(g0, g', rows, cols) == Newly(g0, g, rows, cols) + Newly(g, g', rows, cols)
    requires ClosedBut(g0, g, rows, cols, {p}) && ClosedBut(g, g', rows, cols, {})
    ensures ClosedBut(g0, g', rows, cols, {p})
  {
    forall x, y | x in Newly(g0, g', rows, cols) && x !in {p} && LiveCount(g', x) == 0 &&
                  y in At(g', x).neighbors && InGrid(g', y)
      ensures Done(g', y)
    {
      if x in Newly(g0, g, rows, cols) {
        LiveCountPreserved(g, g', x);
        assert Done(g, y);
      }
    }
  }

  lemma StepReveals(g0: Grid, g: Grid, g': Grid, p: Pos, y: Pos, rows: int, cols: int)
    requires Shaped(g0, rows, cols) && Shaped(g, rows, cols) && Shaped(g', rows, cols)
    requires Preserved(g0, g)
    requires Newly(g0, g', rows, cols) == Newly(g0, g, rows, cols) + Newly(g, g', rows, cols)
    requires InGrid(g0, p) && Eligible(g0, p) && LiveCount(g0, p) == 0 && y in At(g0, p).neighbors
    requires forall x :: x in Newly(g0, g, rows, cols) ==> Reveals(g0, p, x)
    requires forall x :: x in Newly(g, g', rows, cols) ==> Reveals(g, y, x)
    ensures forall x :: x in Newly(g0, g', rows, cols) ==> Reveals(g0, p, x)
  {
    forall x | x in Newly(g, g', rows, cols) ensures Reveals(g0, p, x) {
      RevealsEarlier(g0, g, y, x);
      RevealsPrepend(g0, p, y, x);
    }
  }

  /** When the loop has visited every neighbour, the fill from `p` is complete. */
  lemma FillEnd(g0: Grid, g: Grid, p: Pos, rows: int, cols: int)
    requires InGrid(g0, p) && FillInv(g0, g, p, At(g0, p).neighbors, |At(g0, p).neighbors|, rows, cols)
    ensures FloodFilled(g0, g, p, rows, cols)
  {
    forall x, y | x in Newly(g0, g, rows, cols) && LiveCount(g, x) == 0 &&
                  y in At(g, x).neighbors && InGrid(g, y)
      ensures Done(g, y)
    {
      if x == p {
        var k :| 0 <= k < |At(g0, p).neighbors| && At(g0, p).neighbors[k] == y;
      }
    }
    FillExact(g0, g, p, rows, cols);
  }

  /** A fill from a cell with a mine among its neighbours ends after that cell. */
  lemma FillNumbered(g0: Grid, g1: Grid, p: Pos, rows: int, cols: int)
    requires Shaped(g0, rows, cols) && Eligible(g0, p) && LiveCount(g0, p) != 0
    requires g1 == Update(g0, p, At(g0, p).(clicked := true))
    ensures FloodFilled(g0, g1, p, rows, cols)
  {
    ClickOne(g0, p, rows, cols);
    LiveCountPreserved(g0, g1, p);
    forall q ensures q in Newly(g0, g1, rows, cols) <==> Reveals(g0, p, q) {
      NumberedCellRevealsItself(g0, p, q);
    }
  }

  /** A fill from a cell that fails the guard changes nothing. */
  lemma FillNothing(g: Grid, p: Pos, rows: int, cols: int)
    requires Shaped(g, rows, cols) && InGrid(g, p) && !Eligible(g, p)
    ensures FloodFilled(g, g, p, rows, cols) && Newly(g, g, rows, cols) == {}
  {
    assert Newly(g, g, rows, cols) == {};
    forall q ensures !Reveals(g, p, q) {
      GuardFailsRevealsNothing(g, p, q);
    }
  }

  /** Closure turns "every new cell is reached from `p`" into "exactly the
      cells reached from `p` are new". */
  lemma FillExact(g0: Grid, g: Grid, p: Pos, rows: int, cols: int)
    requires Shaped(g0, rows, cols) && Shaped(g, rows, cols) && Preserved(g0, g)
    requires ClosedBut(g0, g, rows, cols, {}) && p in Newly(g0, g, rows, cols)
    requires forall x :: x in Newly(g0, g, rows, cols) ==> Reveals(g0, p, x)
    ensures forall q :: q in Newly(g0, g, rows, cols) <==> Reveals(g0, p, q)
  {
    forall q | Reveals(g0, p, q) ensures q in Newly(g0, g, rows, cols) {
      var path :| RevealPath(g0, path) && path[0] == p && path[|path| - 1] == q;
      ClosedPath(g0, g, rows, cols, path);
    }
  }

  /** A fill never clicks a mine or a flagged cell, never unclicks a cell,
      and leaves mines and flags as they are. */
  lemma FloodFilledSafe(g0: Grid, g1: Grid, p: Pos, rows: int, cols: int, q: Pos)
    requires FloodFilled(g0, g1, p, rows, cols) && InGrid(g0, q)
    ensures At(g0, q).clicked ==> At(g1, q).clicked
    ensures At(g1, q).clicked && !At(g0, q).clicked ==> !At(g0, q).mine && !At(g0, q).flagged
    ensures At(g1, q).mine == At(g0, q).mine && At(g1, q).flagged == At(g0, q).flagged
  {
    if At(g1, q).clicked && !At(g0, q).clicked {
      assert q in Newly(g0, g1, rows, cols);
      RevealsOnlyEligible(g0, p, q);
    }
  }
}
