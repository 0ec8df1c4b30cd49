/** The pool of not-yet-mined cells used by `Board.placeMines`: a copy of
    the grid's rows of cell handles from which drawn cells (and rows that
    become empty) are removed. */
module Pool {
  import opened Grid

  /** The entries of all rows, row after row. */
  function Flatten(pool: seq<seq<Pos>>): seq<Pos> {
    if pool == [] then [] else pool[0] + Flatten(pool[1..])
  }

  /** `ArrayList.remove(int)`: the list without its entry at index `i`. */
  function RemoveAt<T>(s: seq<T>, i: int): (r: seq<T>)
    requires 0 <= i < |s|
    ensures |r| == |s| - 1
    ensures forall k :: 0 <= k < i ==> r[k] == s[k]
    ensures forall k :: i <= k < |r| ==> r[k] == s[k + 1]
  {
    s[..i] + s[i + 1..]
  }

  lemma RemoveAtMultiset<T>(s: seq<T>, i: int)
    requires 0 <= i < |s|
    ensures multiset(RemoveAt(s, i)) + multiset{s[i]} == multiset(s)
  {
    assert s == s[..i] + [s[i]] + s[i + 1..];
  }

  lemma {:induction false} FlattenConcat(a: seq<seq<Pos>>, b: seq<seq<Pos>>)
    ensures Flatten(a + b) == Flatten(a) + Flatten(b)
  {
    if a == [] {
      assert a + b == b;
    } else {
      assert (a + b)[1..] == a[1..] + b;
      FlattenConcat(a[1..], b);
    }
  }

  lemma {:induction false} FlattenSplit(pool: seq<seq<Pos>>, k: int)
    requires 0 <= k < |pool|
    ensures Flatten(pool) == Flatten(pool[..k]) + pool[k] + Flatten(pool[k + 1..])
  {
    var rest := [pool[k]] + pool[k + 1..];
    assert pool == pool[..k] + rest;
    FlattenConcat(pool[..k], rest);
    assert rest[0] == pool[k] && rest[1..] == pool[k + 1..];
    assert Flatten(rest) == pool[k] + Flatten(pool[k + 1..]);
  }

  /** Drawing entry `j` of row `k` takes exactly that entry out of the pool. */
  lemma {:induction false} DrawFromRow(pool: seq<seq<Pos>>, k: int, j: int)
    requires 0 <= k < |pool| && 0 <= j < |pool[k]|
    ensures multiset(Flatten(pool[k := RemoveAt(pool[k], j)])) + multiset{pool[k][j]} == multiset(Flatten(pool))
    ensures |Flatten(pool[k := RemoveAt(pool[k], j)])| + 1 == |Flatten(pool)|
  {
    var pool' := pool[k := RemoveAt(pool[k], j)];
    FlattenSplit(pool, k);
    FlattenSplit(pool', k);
    assert pool'[..k] == pool[..k] && pool'[k + 1..] == pool[k + 1..];
    RemoveAtMultiset(pool[k], j);
  }

  /** Dropping an empty row leaves the pool's entries as they are. */
  lemma DropEmptyRow(pool: seq<seq<Pos>>, k: int)
    requires 0 <= k < |pool| && pool[k] == []
    ensures Flatten(RemoveAt(pool, k)) == Flatten(pool)
  {
    FlattenSplit(pool, k);
    FlattenConcat(pool[..k], pool[k + 1..]);
  }

  /** The invariant of the loop of `placeMines`: no row of the pool is
      empty, and the pool's entries and the cells taken so far together make
      up `universe`. */
  ghost predicate PoolOk(pool: seq<seq<Pos>>, taken: seq<Pos>, universe: multiset<Pos>) {
    (forall k :: 0 <= k < |pool| ==> |pool[k]| > 0) &&
    multiset(Flatten(pool)) + multiset(taken) == universe
  }

  /** The pool after the draw of entry `j` of row `k`: the entry is removed,
      and so is the row if that leaves it empty. */
  function Draw(pool: seq<seq<Pos>>, k: int, j: int): (r: seq<seq<Pos>>)
    requires 0 <= k < |pool| && 0 <= j < |pool[k]|
    ensures |pool[k]| == 1 ==> r == RemoveAt(pool, k)
    ensures |pool[k]| > 1 ==> |r| == |pool| && r[k] == RemoveAt(pool[k], j)
    ensures |pool[k]| > 1 ==> forall m :: 0 <= m < |pool| && m != k ==> r[m] == pool[m]
  {
    var pool' := pool[k := RemoveAt(pool[k], j)];
    if |pool'[k]| == 0 then RemoveAt(pool', k) else pool'
  }

  /** A draw takes out a cell that was not taken before and keeps the
      invariant with that cell added to the taken ones. */
  lemma PoolDraw(pool: seq<seq<Pos>>, taken: seq<Pos>, universe: multiset<Pos>, k: int, j: int)
    requires PoolOk(pool, taken, universe) && forall q :: universe[q] <= 1
    requires 0 <= k < |pool| && 0 <= j < |pool[k]|
    ensures universe[pool[k][j]] == 1 && pool[k][j] !in taken
    ensures PoolOk(Draw(pool, k, j), taken + [pool[k][j]], universe)
    ensures |Flatten(Draw(pool, k, j))| + 1 == |Flatten(pool)|
  {
    var x := pool[k][j];
    DrawFromRow(pool, k, j);
    DrawFlatten(pool, k, j);
    DrawKeepsRows(pool, k, j);
    assert multiset(Flatten(pool))[x] >= 1;
    assert multiset(taken + [x]) == multiset(taken) + multiset{x};
  }

  /** Dropping the emptied row does not change the pool's entries. */
  lemma DrawFlatten(pool: seq<seq<Pos>>, k: int, j: int)
    requires 0 <= k < |pool| && 0 <= j < |pool[k]|
    ensures Flatten(Draw(pool, k, j)) == Flatten(pool[k := RemoveAt(pool[k], j)])
  {
    var pool' := pool[k := RemoveAt(pool[k], j)];
    if |pool'[k]| == 0 {
      DropEmptyRow(pool', k);
    }
  }

  /** No row of the pool becomes empty and stays. */
  lemma DrawKeepsRows(pool: seq<seq<Pos>>, k: int, j: int)
    requires forall m :: 0 <= m < |pool| ==> |pool[m]| > 0
    requires 0 <= k < |pool| && 0 <= j < |pool[k]|
    ensures forall m :: 0 <= m < |Draw(pool, k, j)| ==> |Draw(pool, k, j)[m]| > 0
  {
  }

  /** An empty pool has no entries left. */
  lemma FlattenEmpty(pool: seq<seq<Pos>>)
    requires |Flatten(pool)| > 0
    ensures pool != []
  {
  }

  /** A row holding the handles of the cells of row `r`, in column order. */
  lemma {:induction false} RowEntries(s: seq<Pos>, r: int)
    requires forall j :: 0 <= j < |s| ==> s[j] == Pos(r, j)
    ensures forall q :: multiset(s)[q] == if q.row == r && 0 <= q.col < |s| then 1 else 0
  {
    if s != [] {
      var t := s[..|s| - 1];
      RowEntries(t, r);
      assert s == t + [Pos(r, |s| - 1)];
    }
  }

  /** Rows `r0`, `r0+1`, ... of a `cols`-wide grid, as lists of handles. */
  ghost predicate HandleRows(pool: seq<seq<Pos>>, r0: int, cols: int) {
    forall i :: 0 <= i < |pool| ==>
      |pool[i]| == cols && forall j :: 0 <= j < cols ==> pool[i][j] == Pos(r0 + i, j)
  }

  /** Such rows list each of their cells once. */
  lemma {:induction false} HandleRowsEntries(pool: seq<seq<Pos>>, r0: int, cols: nat)
    requires HandleRows(pool, r0, cols)
    ensures |Flatten(pool)| == |pool| * cols
    ensures forall q ::
      multiset(Flatten(pool))[q] == if r0 <= q.row < r0 + |pool| && 0 <= q.col < cols then 1 else 0
  {
    if pool != [] {
      assert HandleRows(pool[1..], r0 + 1, cols);
      HandleRowsEntries(pool[1..], r0 + 1, cols);
      RowEntries(pool[0], r0);
      assert multiset(Flatten(pool)) == multiset(pool[0]) + multiset(Flatten(pool[1..]));
      MulStep(|pool|, cols);
    }
  }
}
