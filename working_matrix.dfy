/**
 * The working matrix C' and its maps: row_map[k] and col_map[k] are the city
 * ids of the k-th remaining row and column. Committing an arc deletes its row
 * and column and the two map entries; forbidding an arc sets one cell to None.
 */
module WorkingMatrix {
  import opened Wrappers
  import opened Reduction
  import opened Tours

  /** n rows of n cells each. */
  predicate Square(m: Matrix, n: nat)
  {
    |m| == n && forall i :: 0 <= i < n ==> |m[i]| == n
  }

  lemma SquareRectangular(m: Matrix, n: nat)
    requires Square(m, n)
    ensures Rectangular(m) && Width(m) == n
  {
  }

  /** list.index: the first position holding x, None where Python raises ValueError. */
  function IndexOf(s: seq<int>, x: int): (r: Option<nat>)
    ensures r.None? <==> x !in s
    ensures r.Some? ==> r.value < |s| && s[r.value] == x && forall k :: 0 <= k < r.value ==> s[k] != x
  {
    IndexFrom(s, x, 0)
  }

  /** The first position at or after from holding x. */
  function IndexFrom(s: seq<int>, x: int, from: nat): (r: Option<nat>)
    requires from <= |s|
    ensures r.None? <==> forall k :: from <= k < |s| ==> s[k] != x
    ensures r.Some? ==> from <= r.value < |s| && s[r.value] == x && forall k :: from <= k < r.value ==> s[k] != x
    decreases |s| - from
  {
    if from == |s| then None
    else if s[from] == x then Some(from)
    else IndexFrom(s, x, from + 1)
  }

  /** In a list without repeats, the position of an entry is where it is found. */
  lemma IndexOfDistinct(s: seq<int>, k: nat)
    requires Distinct(s) && k < |s|
    ensures IndexOf(s, s[k]) == Some(k)
  {
  }

  /** s[:k] + s[k + 1:], which is also what list.pop(k) leaves. */
  function RemoveAt<T>(s: seq<T>, k: nat): (r: seq<T>)
    requires k < |s|
    ensures |r| == |s| - 1
    ensures forall q {:trigger r[q]} :: 0 <= q < |r| ==> r[q] == s[Skip(q, k)]
  {
    s[..k] + s[k + 1..]
  }

  /** The index in the old list of entry q of a list that lost entry k. */
  function Skip(q: nat, k: nat): nat
  {
    if q < k then q else q + 1
  }

  /** Removing an entry from a list without repeats removes exactly that city. */
  lemma RemoveAtDistinct(s: seq<int>, k: nat)
    requires Distinct(s) && k < |s|
    ensures Distinct(RemoveAt(s, k))
    ensures forall x :: x in RemoveAt(s, k) <==> x in s && x != s[k]
  {
    var r := RemoveAt(s, k);
    forall x | x in s && x != s[k]
      ensures x in r
    {
      var q :| 0 <= q < |s| && s[q] == x;
      if q < k {
        assert r[q] == x;
      } else {
        assert r[q - 1] == x;
      }
    }
  }

  /** Removing a row keeps the matrix rectangular. */
  function RemoveRow(m: Matrix, k: nat): (r: Matrix)
    requires Rectangular(m) && k < |m|
    ensures Rectangular(r) && |r| == |m| - 1
    ensures |r| > 0 ==> Width(r) == Width(m)
    ensures forall q {:trigger r[q]} :: 0 <= q < |r| ==> r[q] == m[Skip(q, k)]
  {
    RemoveAt(m, k)
  }

  /** [1, 2, ..., n]: what reset_row_col_map puts in both maps. */
  function Ids(n: nat): (r: seq<int>)
    ensures |r| == n && forall k :: 0 <= k < n ==> r[k] == k + 1
  {
    seq(n, k => k + 1)
  }

  lemma IdsDistinct(n: nat)
    ensures Distinct(Ids(n))
  {
  }

  /** The identity map names the cities 1..n. */
  lemma IdsWithinRange(n: nat)
    ensures IdsWithin(Ids(n), n)
  {
    forall x | x in Ids(n)
      ensures 1 <= x <= n
    {
      var k :| 0 <= k < n && Ids(n)[k] == x;
    }
  }

  /**
   * What delete_row_col leaves of a square matrix: row r and column c are
   * gone and every other cell keeps its place relative to the others.
   */
  function DeleteRowCol(m: Matrix, r: nat, c: nat): Matrix
    requires Square(m, |m|) && r < |m| && c < |m|
  {
    seq(|m| - 1, i requires 0 <= i < |m| - 1 =>
      seq(|m| - 1, j requires 0 <= j < |m| - 1 => m[Skip(i, r)][Skip(j, c)]))
  }

  /** Deleting row r and column c of an n-by-n matrix leaves the other cells, in order, as an (n-1)-by-(n-1) matrix. */
  lemma DeleteRowColCells(m: Matrix, n: nat, r: nat, c: nat)
    requires Square(m, n) && r < n && c < n
    ensures Square(DeleteRowCol(m, r, c), n - 1)
    ensures forall i, j :: 0 <= i < n - 1 && 0 <= j < n - 1 ==>
      DeleteRowCol(m, r, c)[i][j] == m[Skip(i, r)][Skip(j, c)]
  {
  }

  /**
   * The way delete_row_col computes it: slice the row out, slice the column
   * out of the transpose and transpose back. A column index past the end
   * slices nothing, as in Python.
   */
  lemma DeleteRowColByTransposes(m: Matrix, n: nat, r: nat, c: nat)
    requires Square(m, n) && r < n && c < n
    ensures Rectangular(m)
    ensures var t := Transpose(RemoveRow(m, r));
      Transpose(if c < |t| then RemoveRow(t, c) else t) == DeleteRowCol(m, r, c)
  {
    SquareRectangular(m, n);
    var rows := RemoveRow(m, r);
    var t := Transpose(rows);
    if n == 1 {
      assert |t| == 0;
    } else {
      assert Width(rows) == n && |t| == n;
      var t' := RemoveRow(t, c);
      var d := Transpose(t');
      assert Width(t') == n - 1;
      forall i | 0 <= i < n - 1
        ensures d[i] == DeleteRowCol(m, r, c)[i]
      {
        forall j | 0 <= j < n - 1
          ensures d[i][j] == m[Skip(i, r)][Skip(j, c)]
        {
          assert d[i][j] == t'[j][i] == t[Skip(j, c)][i] == rows[i][Skip(j, c)];
        }
      }
    }
  }

  /** The matrix with cell (r, c) set to None, as disable_path and the forbidding steps do. */
  function Forbid(m: Matrix, r: nat, c: nat): (f: Matrix)
    requires r < |m| && c < |m[r]|
    ensures |f| == |m| && forall i {:trigger f[i]} :: 0 <= i < |m| ==> |f[i]| == |m[i]|
    ensures forall i, j {:trigger f[i][j]} :: 0 <= i < |m| && 0 <= j < |m[i]| ==>
      f[i][j] == if i == r && j == c then None else m[i][j]
  {
    m[r := m[r][c := None]]
  }

  /** The positions holding 0. */
  function ZeroSet(m: Matrix): set<(int, int)>
  {
    set i, j | 0 <= i < |m| && 0 <= j < |m[i]| && m[i][j] == Some(0) :: (i, j)
  }

  /** Forbidding a zero cell removes exactly that cell from the zero positions. */
  lemma ForbidZeroShrinks(m: Matrix, r: nat, c: nat)
    requires r < |m| && c < |m[r]| && m[r][c] == Some(0)
    ensures ZeroSet(Forbid(m, r, c)) == ZeroSet(m) - {(r, c)}
    ensures (r, c) in ZeroSet(m)
  {
  }

  /** Forbidding keeps a square matrix square. */
  lemma ForbidSquare(m: Matrix, n: nat, r: nat, c: nat)
    requires Square(m, n) && r < n && c < n
    ensures Square(Forbid(m, r, c), n)
  {
  }

  /** simplify keeps a square matrix square. */
  lemma ReduceSquare(m: Matrix, n: nat)
    requires Square(m, n)
    ensures Square(Reduce(m), n)
  {
    ReduceShape(m);
  }
}
