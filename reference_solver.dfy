/**
 * The borrowed reference solver (tsp_branch_bound.cpp): branch and bound over
 * a fixed N x N int array in which INT_MAX stands for "no arc". Row and column
 * reduction work in place on the array; a node keeps its own reduced matrix,
 * the arcs taken so far, its lower bound, its city and its depth; a priority
 * queue hands out the node of least bound until one at depth N - 1 appears.
 */
module ReferenceSolver {
  import opened Wrappers
  import opened Reduction
  import opened CitySets

  /** The number of cities. */
  const N: nat := 5

  /** INT_MAX, the sentinel for a forbidden arc. */
  const INF: int := 0x7fff_ffff

  type Grid = seq<seq<int>>

  /** Every row has the length of the first. */
  predicate GridRectangular(g: Grid)
  {
    forall i :: 0 <= i < |g| ==> |g[i]| == GridWidth(g)
  }

  function GridWidth(g: Grid): nat
  {
    if |g| == 0 then 0 else |g[0]|
  }

  /** An N x N grid. */
  predicate IsGrid(g: Grid)
  {
    |g| == N && forall i :: 0 <= i < N ==> |g[i]| == N
  }

  /** Every cell is an int from 0 up to INT_MAX. */
  predicate Cells32(g: Grid)
  {
    forall i, j :: 0 <= i < |g| && 0 <= j < |g[i]| ==> 0 <= g[i][j] <= INF
  }

  /** An N x N grid of cells in 0..INT_MAX, the matrices the solver works on. */
  predicate InRange(g: Grid)
  {
    IsGrid(g) && Cells32(g)
  }

  predicate Sized(a: array2<int>)
  {
    a.Length0 == N && a.Length1 == N
  }

  /** The contents of an N x N array. */
  function Cells(a: array2<int>): (g: Grid)
    reads a
    requires Sized(a)
    ensures IsGrid(g) && forall i, j :: 0 <= i < N && 0 <= j < N ==> g[i][j] == a[i, j]
  {
    seq(N, i requires 0 <= i < N reads a => seq(N, j requires 0 <= j < N reads a => a[i, j]))
  }

  lemma GridExt(g: Grid, h: Grid)
    requires IsGrid(g) && IsGrid(h)
    requires forall i, j :: 0 <= i < N && 0 <= j < N ==> g[i][j] == h[i][j]
    ensures g == h
  {
    forall i | 0 <= i < N ensures g[i] == h[i] { }
  }

  // ------------------------------------------------------------------
  // Row and column minima and the reduced grids
  // ------------------------------------------------------------------

  /** min(INF, r[0], ..., r[n - 1]): the running minimum of the scan after n cells. */
  function MinUpTo(r: seq<int>, n: nat): int
    requires n <= |r|
  {
    if n == 0 then INF
    else if r[n - 1] < MinUpTo(r, n - 1) then r[n - 1]
    else MinUpTo(r, n - 1)
  }

  /** The scan yields INF exactly when every cell is INF, and otherwise the least cell. */
  lemma {:induction false} MinUpToFacts(r: seq<int>, n: nat)
    requires n <= |r| && forall k :: 0 <= k < n ==> r[k] <= INF
    ensures MinUpTo(r, n) <= INF
    ensures forall k :: 0 <= k < n ==> MinUpTo(r, n) <= r[k]
    ensures MinUpTo(r, n) == INF || exists k :: 0 <= k < n && r[k] == MinUpTo(r, n)
  {
    if n > 0 {
      MinUpToFacts(r, n - 1);
    }
  }

  /** The row minima, as rowReduction leaves them in row[]. */
  function RowMinima(g: Grid): (mins: seq<int>)
    ensures |mins| == |g|
  {
    seq(|g|, i requires 0 <= i < |g| => MinUpTo(g[i], |g[i]|))
  }

  lemma GridShape(g: Grid)
    requires IsGrid(g)
    ensures GridRectangular(g) && GridWidth(g) == N
  {
  }

  /** x lowered by m unless either is INF, as both reduction passes do. */
  function Subtract(x: int, m: int): int
  {
    if x != INF && m != INF then x - m else x
  }

  /** A row lowered by its own minimum, cell by cell as the second loop nest of rowReduction does. */
  function ReducedRowOf(r: seq<int>): (q: seq<int>)
    ensures |q| == |r|
  {
    seq(|r|, j requires 0 <= j < |r| => Subtract(r[j], MinUpTo(r, |r|)))
  }

  /** The grid after rowReduction: each finite cell lowered by its finite row minimum. */
  function RowReduced(g: Grid): (r: Grid)
    ensures |r| == |g| && forall i :: 0 <= i < |g| ==> |r[i]| == |g[i]|
  {
    seq(|g|, i requires 0 <= i < |g| => ReducedRowOf(g[i]))
  }

  /** Column j of a rectangular grid. */
  function GridColumn(g: Grid, j: nat): (c: seq<int>)
    requires GridRectangular(g) && j < GridWidth(g)
    ensures |c| == |g| && forall i {:trigger c[i]} :: 0 <= i < |g| ==> c[i] == g[i][j]
  {
    seq(|g|, i requires 0 <= i < |g| => g[i][j])
  }

  /** The columns of a rectangular grid, as rows. */
  function Columns(g: Grid): (t: Grid)
    requires GridRectangular(g)
    ensures |t| == GridWidth(g) && forall j :: 0 <= j < |t| ==> t[j] == GridColumn(g, j)
  {
    seq(GridWidth(g), j requires 0 <= j < GridWidth(g) => GridColumn(g, j))
  }

  /** The column minima, as columnReduction leaves them in col[]. */
  function ColMinima(g: Grid): (mins: seq<int>)
    requires GridRectangular(g)
    ensures |mins| == GridWidth(g)
  {
    RowMinima(Columns(g))
  }

  /** The grid after columnReduction: each finite cell lowered by its finite column minimum. */
  function ColumnReduced(g: Grid): (r: Grid)
    requires GridRectangular(g)
    ensures |r| == |g| && forall i :: 0 <= i < |g| ==> |r[i]| == |g[i]|
  {
    seq(|g|, i requires 0 <= i < |g| =>
      seq(|g[i]|, j requires 0 <= j < |g[i]| => Subtract(g[i][j], MinUpTo(GridColumn(g, j), |g|))))
  }

  /** INF counts as 0 in the cost. */
  function Finite(x: int): int
  {
    if x != INF then x else 0
  }

  /** The sum of the finite entries of the first n values. */
  function FiniteSum(xs: seq<int>, n: nat): int
    requires n <= |xs|
  {
    if n == 0 then 0 else FiniteSum(xs, n - 1) + Finite(xs[n - 1])
  }

  /** What calculateCost returns: the finite row minima plus the finite column minima after the row pass. */
  function ReductionCost(g: Grid): int
    requires IsGrid(g)
  {
    FiniteSum(RowMinima(g), N) + FiniteSum(ColMinima(RowReduced(g)), N)
  }

  // ------------------------------------------------------------------
  // The passes on the array
  // ------------------------------------------------------------------

  /** The first half of rowReduction: fill row[] with INF, then scan each row for its least cell. */
  method ScanRowMinima(reducedMatrix: array2<int>, row: array<int>)
    requires Sized(reducedMatrix) && row.Length == N
    modifies row
    ensures row[..] == RowMinima(Cells(reducedMatrix))
  {
    ghost var g := Cells(reducedMatrix);
    var k := 0;
    while k < N
      invariant 0 <= k <= N && forall p :: 0 <= p < k ==> row[p] == INF
    {
      row[k] := INF;
      k := k + 1;
    }
    for i := 0 to N
      invariant forall p :: 0 <= p < i ==> row[p] == MinUpTo(g[p], N)
      invariant forall p :: i <= p < N ==> row[p] == INF
    {
      for j := 0 to N
        invariant forall p :: 0 <= p < i ==> row[p] == MinUpTo(g[p], N)
        invariant row[i] == MinUpTo(g[i], j)
        invariant forall p :: i < p < N ==> row[p] == INF
      {
        if reducedMatrix[i, j] < row[i] {
          row[i] := reducedMatrix[i, j];
        }
      }
    }
  }

  /** The second half of rowReduction: each cell that is not INF loses row[i] unless row[i] is INF. */
  method SubtractRowMinima(reducedMatrix: array2<int>, row: array<int>)
    requires Sized(reducedMatrix) && row.Length == N
    modifies reducedMatrix
    ensures forall p, q :: 0 <= p < N && 0 <= q < N ==>
      reducedMatrix[p, q] == Subtract(old(reducedMatrix[p, q]), row[p])
  {
    for i := 0 to N
      invariant forall p, q :: 0 <= p < i && 0 <= q < N ==> reducedMatrix[p, q] == Subtract(old(reducedMatrix[p, q]), row[p])
      invariant forall p, q :: i <= p < N && 0 <= q < N ==> reducedMatrix[p, q] == old(reducedMatrix[p, q])
    {
      for j := 0 to N
        invariant forall p, q :: 0 <= p < i && 0 <= q < N ==> reducedMatrix[p, q] == Subtract(old(reducedMatrix[p, q]), row[p])
        invariant forall q :: 0 <= q < j ==> reducedMatrix[i, q] == Subtract(old(reducedMatrix[i, q]), row[i])
        invariant forall p, q :: (i < p < N || (p == i && j <= q < N)) && 0 <= q < N ==> reducedMatrix[p, q] == old(reducedMatrix[p, q])
      {
        if reducedMatrix[i, j] != INF && row[i] != INF {
          reducedMatrix[i, j] := reducedMatrix[i, j] - row[i];
        }
      }
    }
  }

  /**
   * rowReduction: row[i] becomes the least cell of row i (INF when the row
   * is all INF), then every cell that is not INF loses the minimum of its row
   * when that minimum is not INF. The cells must be ints in 0..INT_MAX, so no
   * subtraction overflows.
   */
  method RowReduction(reducedMatrix: array2<int>, row: array<int>)
    requires Sized(reducedMatrix) && row.Length == N && InRange(Cells(reducedMatrix))
    modifies reducedMatrix, row
    ensures row[..] == RowMinima(old(Cells(reducedMatrix)))
    ensures Cells(reducedMatrix) == RowReduced(old(Cells(reducedMatrix)))
  {
    ghost var g := Cells(reducedMatrix);
    ScanRowMinima(reducedMatrix, row);
    SubtractRowMinima(reducedMatrix, row);
    GridExt(Cells(reducedMatrix), RowReduced(g));
  }

  /** The first half of columnReduction: fill col[] with INF, then scan row by row for each column's least cell. */
  method ScanColumnMinima(reducedMatrix: array2<int>, col: array<int>)
    requires Sized(reducedMatrix) && col.Length == N
    modifies col
    ensures GridRectangular(Cells(reducedMatrix))
    ensures col[..] == ColMinima(Cells(reducedMatrix))
  {
    ghost var g := Cells(reducedMatrix);
    GridShape(g);
    ghost var cols := Columns(g);
    var k := 0;
    while k < N
      invariant 0 <= k <= N && forall q :: 0 <= q < k ==> col[q] == INF
    {
      col[k] := INF;
      k := k + 1;
    }
    for i := 0 to N
      invariant forall q :: 0 <= q < N ==> col[q] == MinUpTo(cols[q], i)
    {
      assert forall q :: 0 <= q < N ==> cols[q][i] == reducedMatrix[i, q];
      FoldRowIntoMinima(reducedMatrix, col, i);
    }
    assert col[..] == RowMinima(cols);
  }

  /** One pass of the inner loop of columnReduction's scan: row i lowers each col[j] it undercuts. */
  method FoldRowIntoMinima(reducedMatrix: array2<int>, col: array<int>, i: nat)
    requires Sized(reducedMatrix) && col.Length == N && i < N
    modifies col
    ensures forall q :: 0 <= q < N ==>
      col[q] == if reducedMatrix[i, q] < old(col[q]) then reducedMatrix[i, q] else old(col[q])
  {
    for j := 0 to N
      invariant forall q :: 0 <= q < j ==>
        col[q] == if reducedMatrix[i, q] < old(col[q]) then reducedMatrix[i, q] else old(col[q])
      invariant forall q :: j <= q < N ==> col[q] == old(col[q])
    {
      if reducedMatrix[i, j] < col[j] {
        col[j] := reducedMatrix[i, j];
      }
    }
  }

  /** The second half of columnReduction: each cell that is not INF loses col[j] unless col[j] is INF. */
  method SubtractColumnMinima(reducedMatrix: array2<int>, col: array<int>)
    requires Sized(reducedMatrix) && col.Length == N
    modifies reducedMatrix
    ensures forall p, q :: 0 <= p < N && 0 <= q < N ==>
      reducedMatrix[p, q] == Subtract(old(reducedMatrix[p, q]), col[q])
  {
    for i := 0 to N
      invariant forall p, q :: 0 <= p < i && 0 <= q < N ==> reducedMatrix[p, q] == Subtract(old(reducedMatrix[p, q]), col[q])
      invariant forall p, q :: i <= p < N && 0 <= q < N ==> reducedMatrix[p, q] == old(reducedMatrix[p, q])
    {
      for j := 0 to N
        invariant forall p, q :: 0 <= p < i && 0 <= q < N ==> reducedMatrix[p, q] == Subtract(old(reducedMatrix[p, q]), col[q])
        invariant forall q :: 0 <= q < j ==> reducedMatrix[i, q] == Subtract(old(reducedMatrix[i, q]), col[q])
        invariant forall p, q :: (i < p < N || (p == i && j <= q < N)) && 0 <= q < N ==> reducedMatrix[p, q] == old(reducedMatrix[p, q])
      {
        if reducedMatrix[i, j] != INF && col[j] != INF {
          reducedMatrix[i, j] := reducedMatrix[i, j] - col[j];
        }
      }
    }
  }

  /**
   * columnReduction: col[j] becomes the least cell of column j (INF when the
   * column is all INF), then every cell that is not INF loses the minimum of
   * its column when that minimum is not INF.
   */
  method ColumnReduction(reducedMatrix: array2<int>, col: array<int>)
    requires Sized(reducedMatrix) && col.Length == N && InRange(Cells(reducedMatrix))
    modifies reducedMatrix, col
    ensures GridRectangular(old(Cells(reducedMatrix)))
    ensures col[..] == ColMinima(old(Cells(reducedMatrix)))
    ensures Cells(reducedMatrix) == ColumnReduced(old(Cells(reducedMatrix)))
  {
    ghost var g := Cells(reducedMatrix);
    ScanColumnMinima(reducedMatrix, col);
    SubtractColumnMinima(reducedMatrix, col);
    GridExt(Cells(reducedMatrix), ColumnReduced(g));
  }

  /** The minimum of cells in 0..INT_MAX is INF or one of the cells, so it is in 0..INT_MAX too. */
  lemma MinUpToInRange(r: seq<int>)
    requires forall k :: 0 <= k < |r| ==> 0 <= r[k] <= INF
    ensures 0 <= MinUpTo(r, |r|) <= INF
    ensures forall k :: 0 <= k < |r| ==> MinUpTo(r, |r|) <= r[k]
  {
    MinUpToFacts(r, |r|);
  }

  /** The row pass keeps every cell in 0..INT_MAX and every INF cell INF. */
  lemma RowReducedInRange(g: Grid)
    requires InRange(g)
    ensures InRange(RowReduced(g))
    ensures forall i, j :: 0 <= i < N && 0 <= j < N && g[i][j] == INF ==> RowReduced(g)[i][j] == INF
  {
    forall i | 0 <= i < N { MinUpToInRange(g[i]); }
  }

  /** The column pass keeps every cell in 0..INT_MAX and every INF cell INF. */
  lemma ColumnReducedInRange(g: Grid)
    requires InRange(g)
    ensures GridRectangular(g) && InRange(ColumnReduced(g))
    ensures forall i, j :: 0 <= i < N && 0 <= j < N && g[i][j] == INF ==> ColumnReduced(g)[i][j] == INF
  {
    GridShape(g);
    forall j | 0 <= j < N { MinUpToInRange(GridColumn(g, j)); }
    var r := ColumnReduced(g);
    forall i, j | 0 <= i < N && 0 <= j < N ensures 0 <= r[i][j] <= INF {
      assert GridColumn(g, j)[i] == g[i][j];
    }
  }

  /** Neither pass lowers the cost below 0: all the minima added are at least 0. */
  lemma {:induction false} FiniteSumNonNegative(xs: seq<int>, n: nat)
    requires n <= |xs| && forall k :: 0 <= k < |xs| ==> xs[k] >= 0
    ensures FiniteSum(xs, n) >= 0
  {
    if n > 0 {
      FiniteSumNonNegative(xs, n - 1);
    }
  }

  /**
   * calculateCost: a row pass and a column pass on the array in place; the
   * cost is the sum of the minima that are not INF.
   */
  method CalculateCost(reducedMatrix: array2<int>) returns (cost: int)
    requires Sized(reducedMatrix) && InRange(Cells(reducedMatrix))
    modifies reducedMatrix
    ensures InRange(RowReduced(old(Cells(reducedMatrix))))
    ensures Cells(reducedMatrix) == ColumnReduced(RowReduced(old(Cells(reducedMatrix))))
    ensures cost == ReductionCost(old(Cells(reducedMatrix)))
  {
    ghost var g := Cells(reducedMatrix);
    cost := 0;
    var row := new int[N];
    RowReduction(reducedMatrix, row);
    RowReducedInRange(g);
    var col := new int[N];
    ColumnReduction(reducedMatrix, col);
    for i := 0 to N
      invariant cost == FiniteSum(row[..], i) + FiniteSum(col[..], i)
    {
      cost := cost + (if row[i] != INF then row[i] else 0);
      cost := cost + (if col[i] != INF then col[i] else 0);
    }
  }

  // ------------------------------------------------------------------
  // The same reduction as the solver's simplify, INT_MAX read as None
  // ------------------------------------------------------------------

  /** A row of the int array read as a row of C': INT_MAX is None. */
  function ToRow(r: seq<int>): (row: Row)
    ensures |row| == |r|
  {
    seq(|r|, k requires 0 <= k < |r| => if r[k] == INF then None else Some(r[k]))
  }

  function ToMatrix(g: Grid): (m: Matrix)
    ensures |m| == |g| && forall i :: 0 <= i < |g| ==> m[i] == ToRow(g[i])
  {
    seq(|g|, i requires 0 <= i < |g| => ToRow(g[i]))
  }

  predicate RowInRange(r: seq<int>)
  {
    forall k :: 0 <= k < |r| ==> 0 <= r[k] <= INF
  }

  /** The scan's minimum is the least entry that is not None, or INF when there is none. */
  lemma MinUpToIsMinEntry(r: seq<int>)
    requires RowInRange(r)
    ensures MinUpTo(r, |r|) == if MinEntry(ToRow(r)).Some? then MinEntry(ToRow(r)).value else INF
    ensures Finite(MinUpTo(r, |r|)) == MinNoNone(ToRow(r))
  {
    var m := MinUpTo(r, |r|);
    var e := MinEntry(ToRow(r));
    MinUpToFacts(r, |r|);
    if e.Some? {
      var k :| 0 <= k < |r| && ToRow(r)[k] == e;
      assert m <= r[k] < INF;
      var k' :| 0 <= k' < |r| && r[k'] == m;
      assert ToRow(r)[k'] == Some(m);
    } else {
      forall k | 0 <= k < |r| ensures r[k] == INF {
        assert ToRow(r)[k].None?;
      }
    }
  }

  /** One row of rowReduction is the draft's row pass on the same row. */
  lemma ReducedRowIsReduceRow(r: seq<int>)
    requires RowInRange(r)
    ensures ToRow(ReducedRowOf(r)) == ReduceRow(ToRow(r))
  {
    MinUpToIsMinEntry(r);
    MinUpToInRange(r);
    var a, b := ToRow(ReducedRowOf(r)), ReduceRow(ToRow(r));
    forall k | 0 <= k < |r| ensures a[k] == b[k] { }
  }

  predicate RowsInRange(rs: Grid)
  {
    forall i :: 0 <= i < |rs| ==> RowInRange(rs[i])
  }

  /** The row pass on the array is ReduceRows on C', and its finite minima add up to SumMins. */
  lemma {:induction false} RowPassIsReduceRows(rs: Grid, n: nat)
    requires RowsInRange(rs) && n <= |rs|
    ensures ToMatrix(RowReduced(rs)) == ReduceRows(ToMatrix(rs))
    ensures FiniteSum(RowMinima(rs), n) == SumMins(ToMatrix(rs)[..n])
  {
    forall i | 0 <= i < |rs| ensures ToMatrix(RowReduced(rs))[i] == ReduceRows(ToMatrix(rs))[i] {
      ReducedRowIsReduceRow(rs[i]);
    }
    if n > 0 {
      RowPassIsReduceRows(rs, n - 1);
      assert ToMatrix(rs)[..n][..n - 1] == ToMatrix(rs)[..n - 1];
      MinUpToIsMinEntry(rs[n - 1]);
    }
  }

  /** The columns of the array, read as rows of C', are the transpose of C'. */
  lemma ColumnsAreTranspose(g: Grid)
    requires IsGrid(g)
    ensures GridRectangular(g) && Rectangular(ToMatrix(g))
    ensures ToMatrix(Columns(g)) == Transpose(ToMatrix(g))
  {
    GridShape(g);
    var t, u := ToMatrix(Columns(g)), Transpose(ToMatrix(g));
    forall j | 0 <= j < N ensures t[j] == u[j] {
      assert forall i :: 0 <= i < N ==> t[j][i] == u[j][i];
    }
  }

  /** Reducing the columns of the array is reducing the rows of its transposed columns. */
  lemma ColumnReducedByColumns(g: Grid)
    requires IsGrid(g)
    ensures GridRectangular(g) && IsGrid(Columns(g)) && GridRectangular(RowReduced(Columns(g)))
    ensures Columns(RowReduced(Columns(g))) == ColumnReduced(g)
  {
    GridShape(g);
    var t := Columns(g);
    var a, b := Columns(RowReduced(t)), ColumnReduced(g);
    forall i, j | 0 <= i < N && 0 <= j < N ensures a[i][j] == b[i][j] {
      assert a[i][j] == RowReduced(t)[j][i];
    }
    GridExt(a, b);
  }

  lemma ColumnsInRange(g: Grid)
    requires InRange(g)
    ensures GridRectangular(g) && RowsInRange(Columns(g))
  {
    GridShape(g);
    forall j | 0 <= j < N ensures RowInRange(Columns(g)[j]) {
      assert forall i :: 0 <= i < N ==> Columns(g)[j][i] == g[i][j];
    }
  }

  /**
   * The matrix calculateCost leaves is the one the solver's simplify returns
   * for the same matrix with INT_MAX read as None.
   */
  lemma CalculateCostIsSimplify(g: Grid)
    requires InRange(g)
    ensures Rectangular(ToMatrix(g))
    ensures ToMatrix(ColumnReduced(RowReduced(g))) == Reduce(ToMatrix(g))
  {
    RowReducedInRange(g);
    RowPassWhole(g);
    ColumnPassWhole(RowReduced(g));
  }

  /** The cost calculateCost returns is the sum of all subtrahends simplify returns. */
  lemma CalculateCostIsReductionTotal(g: Grid)
    requires InRange(g)
    ensures Rectangular(ToMatrix(g))
    ensures ReductionCost(g) == ReductionTotal(ToMatrix(g))
  {
    RowReducedInRange(g);
    RowPassWhole(g);
    ColumnPassWhole(RowReduced(g));
  }

  /** rowReduction over all N rows: ReduceRows, and the finite row minima add up to SumMins. */
  lemma RowPassWhole(g: Grid)
    requires InRange(g)
    ensures Rectangular(ToMatrix(g))
    ensures ToMatrix(RowReduced(g)) == ReduceRows(ToMatrix(g))
    ensures FiniteSum(RowMinima(g), N) == SumMins(ToMatrix(g))
  {
    ColumnsAreTranspose(g);
    RowPassIsReduceRows(g, N);
    assert ToMatrix(g)[..N] == ToMatrix(g);
  }

  /** columnReduction: the row pass on the transpose, transposed back, with its minima. */
  lemma ColumnPassWhole(h: Grid)
    requires InRange(h)
    ensures Rectangular(ToMatrix(h))
    ensures ToMatrix(ColumnReduced(h)) == Transpose(ReduceRows(Transpose(ToMatrix(h))))
    ensures FiniteSum(ColMinima(h), N) == SumMins(Transpose(ToMatrix(h)))
  {
    ColumnsAreTranspose(h);
    ColumnsInRange(h);
    var t := Columns(h);
    RowPassIsReduceRows(t, N);
    assert ToMatrix(t)[..N] == ToMatrix(t);
    ColumnReducedByColumns(h);
    var rc := RowReduced(t);
    assert IsGrid(rc);
    ColumnsAreTranspose(rc);
  }

  // ------------------------------------------------------------------
  // Nodes of the state-space tree
  // ------------------------------------------------------------------

  /**
   * A live node: the arcs taken from city 0 (path), its own reduced matrix,
   * its lower bound (cost), the city it stands at (vertex) and the number of
   * arcs taken (level).
   */
  datatype Node = Node(path: seq<(int, int)>, reducedMatrix: Grid, cost: int, vertex: int, level: int)

  /** The parent matrix with row i and column j forbidden (except at the root) and arc j -> 0 forbidden. */
  function Blocked(g: Grid, level: int, i: int, j: int): (b: Grid)
    requires IsGrid(g)
    ensures IsGrid(b)
  {
    seq(N, a requires 0 <= a < N =>
      seq(N, c requires 0 <= c < N =>
        if (a == j && c == 0) || (level != 0 && (a == i || c == j)) then INF else g[a][c]))
  }

  /**
   * newNode: a copy of the parent matrix in which, unless the node is the
   * root (level 0), row i and column j are INF and arc (i, j) is appended to
   * the path; cell [j][0] is always INF. The node's cost is set by the caller
   * and is 0 here.
   */
  method NewNode(parentMatrix: Grid, path: seq<(int, int)>, level: int, i: int, j: int) returns (node: Node, matrix: array2<int>)
    requires IsGrid(parentMatrix) && 0 <= j < N && (level != 0 ==> 0 <= i < N)
    ensures fresh(matrix) && Sized(matrix) && Cells(matrix) == node.reducedMatrix
    ensures node.path == if level != 0 then path + [(i, j)] else path
    ensures node.reducedMatrix == Blocked(parentMatrix, level, i, j)
    ensures node.vertex == j && node.level == level && node.cost == 0
  {
    var nodePath := path;
    if level != 0 {
      nodePath := nodePath + [(i, j)];
    }
    matrix := new int[N, N];
    for a := 0 to N
      invariant forall p, q :: 0 <= p < a && 0 <= q < N ==> matrix[p, q] == parentMatrix[p][q]
    {
      for c := 0 to N
        invariant forall p, q :: 0 <= p < a && 0 <= q < N ==> matrix[p, q] == parentMatrix[p][q]
        invariant forall q :: 0 <= q < c ==> matrix[a, q] == parentMatrix[a][q]
      {
        matrix[a, c] := parentMatrix[a][c];
      }
    }
    var k := 0;
    while level != 0 && k < N
      invariant 0 <= k <= N
      invariant forall p, q :: 0 <= p < N && 0 <= q < N ==>
        matrix[p, q] == if level != 0 && ((p == i && q < k) || (q == j && p < k)) then INF else parentMatrix[p][q]
    {
      matrix[i, k] := INF;
      matrix[k, j] := INF;
      k := k + 1;
    }
    matrix[j, 0] := INF;
    GridExt(Cells(matrix), Blocked(parentMatrix, level, i, j));
    node := Node(nodePath, Cells(matrix), 0, j, level);
  }

  /** comp: the heap puts lhs below rhs when lhs costs more, so the top costs least. */
  predicate Comp(lhs: Node, rhs: Node)
  {
    lhs.cost > rhs.cost
  }

  /** A node that no other node ranks above under comp: what pq.top() may return. */
  predicate IsTop(pq: seq<Node>, k: nat)
  {
    k < |pq| && forall y :: 0 <= y < |pq| ==> !Comp(pq[k], pq[y])
  }

  /** A non-empty queue has a top, and a top costs no more than any queued node. */
  lemma {:induction false} TopExists(pq: seq<Node>) returns (k: nat)
    requires |pq| > 0
    ensures IsTop(pq, k)
    ensures forall y :: 0 <= y < |pq| ==> pq[k].cost <= pq[y].cost
  {
    if |pq| == 1 {
      k := 0;
    } else {
      var init := pq[..|pq| - 1];
      var k' := TopExists(init);
      assert forall y :: 0 <= y < |init| ==> init[y] == pq[y];
      k := if pq[|pq| - 1].cost < pq[k'].cost then |pq| - 1 else k';
    }
  }

  // ------------------------------------------------------------------
  // The children of a node
  // ------------------------------------------------------------------

  /** The child for arc vertex -> j: its matrix reduced by calculateCost and its cost. */
  function ChildNode(min: Node, j: nat): Node
    requires IsGrid(min.reducedMatrix) && j < N && 0 <= min.vertex < N
  {
    var b := Blocked(min.reducedMatrix, min.level + 1, min.vertex, j);
    GridShape(b);
    RowReducedInRangeShape(b);
    Node(min.path + [(min.vertex, j)], ColumnReduced(RowReduced(b)),
      min.cost + min.reducedMatrix[min.vertex][j] + ReductionCost(b), j, min.level + 1)
  }

  /** RowReduced keeps the N x N shape. */
  lemma RowReducedInRangeShape(g: Grid)
    requires IsGrid(g)
    ensures IsGrid(RowReduced(g)) && GridRectangular(RowReduced(g))
  {
  }

  /** The children made for columns 0..j-1 of the node's row, in that order. */
  function ChildrenUpTo(min: Node, j: nat): seq<Node>
    requires IsGrid(min.reducedMatrix) && j <= N && 0 <= min.vertex < N
  {
    if j == 0 then []
    else
      var earlier := ChildrenUpTo(min, j - 1);
      if min.reducedMatrix[min.vertex][j - 1] != INF then earlier + [ChildNode(min, j - 1)] else earlier
  }

  /**
   * The loop over j in solve: a child for every arc out of the node's city
   * that is not INF, each made by newNode, its cost the parent's cost plus
   * the arc plus calculateCost of the child's matrix, pushed in column order.
   */
  method Expand(min: Node, pq: seq<Node>) returns (pq': seq<Node>)
    requires InRange(min.reducedMatrix) && 0 <= min.vertex < N && 0 <= min.level
    ensures pq' == pq + ChildrenUpTo(min, N)
  {
    var i := min.vertex;
    pq' := pq;
    for j := 0 to N
      invariant pq' == pq + ChildrenUpTo(min, j)
    {
      ChildrenStep(min, j);
      if min.reducedMatrix[i][j] != INF {
        var child := MakeChild(min, j);
        AppendAssoc(pq, ChildrenUpTo(min, j), child);
        pq' := pq' + [child];
      }
    }
  }

  /** One more column: a child is appended exactly when its arc is not INF. */
  lemma ChildrenStep(min: Node, j: nat)
    requires IsGrid(min.reducedMatrix) && j < N && 0 <= min.vertex < N
    ensures ChildrenUpTo(min, j + 1)
      == ChildrenUpTo(min, j) + if min.reducedMatrix[min.vertex][j] != INF then [ChildNode(min, j)] else []
  {
  }

  lemma AppendAssoc(pq: seq<Node>, a: seq<Node>, x: Node)
    ensures pq + a + [x] == pq + (a + [x])
  {
  }

  /** One child: newNode, then its cost from calculateCost on the child's own matrix. */
  method MakeChild(min: Node, j: nat) returns (child: Node)
    requires InRange(min.reducedMatrix) && 0 <= min.vertex < N && 0 <= min.level && j < N
    ensures child == ChildNode(min, j)
  {
    var i := min.vertex;
    var childMatrix;
    child, childMatrix := NewNode(min.reducedMatrix, min.path, min.level + 1, i, j);
    BlockedInRange(min.reducedMatrix, min.level + 1, i, j);
    var c := CalculateCost(childMatrix);
    child := child.(reducedMatrix := Cells(childMatrix), cost := min.cost + min.reducedMatrix[i][j] + c);
  }

  /** Forbidding cells keeps a matrix in 0..INT_MAX and keeps its INF cells. */
  lemma BlockedInRange(g: Grid, level: int, i: int, j: int)
    requires InRange(g)
    ensures InRange(Blocked(g, level, i, j))
    ensures forall a, c :: 0 <= a < N && 0 <= c < N && g[a][c] == INF ==> Blocked(g, level, i, j)[a][c] == INF
  {
  }

  // ------------------------------------------------------------------
  // What every live node satisfies
  // ------------------------------------------------------------------

  /**
   * The path leaves city 0 and ends at v, each arc starting where the
   * previous one ended; every arc enters a city other than 0, and no city is
   * entered twice.
   */
  predicate WalkFromStart(path: seq<(int, int)>, v: int)
  {
    (|path| == 0 ==> v == 0)
    && (|path| > 0 ==> path[0].0 == 0 && path[|path| - 1].1 == v)
    && (forall k :: 0 <= k < |path| ==> 0 <= path[k].0 < N && 1 <= path[k].1 < N)
    && (forall k :: 0 <= k < |path| - 1 ==> path[k].1 == path[k + 1].0)
    && (forall k, l :: 0 <= k < l < |path| ==> path[k].1 != path[l].1)
  }

  /** Every cell of column c is INF: no arc into c is left. */
  predicate ColumnClosed(g: Grid, c: int)
    requires IsGrid(g)
  {
    0 <= c < N && forall a :: 0 <= a < N ==> g[a][c] == INF
  }

  /**
   * A live node: its matrix is N x N in 0..INT_MAX, its cost is at least the
   * root's, its path is a walk from city 0 to its city of length level, the
   * column of every city entered is closed and so is the arc back to 0.
   */
  predicate GoodNode(q: Node, bound: int)
  {
    InRange(q.reducedMatrix) && 0 <= q.vertex < N && 0 <= q.level < N && q.cost >= bound
    && |q.path| == q.level && WalkFromStart(q.path, q.vertex)
    && q.reducedMatrix[q.vertex][0] == INF
    && forall k :: 0 <= k < |q.path| ==> ColumnClosed(q.reducedMatrix, q.path[k].1)
  }

  /** calculateCost on a matrix in 0..INT_MAX adds no negative amount. */
  lemma ReductionCostNonNegative(g: Grid)
    requires InRange(g)
    ensures ReductionCost(g) >= 0
  {
    forall i | 0 <= i < N { MinUpToInRange(g[i]); }
    FiniteSumNonNegative(RowMinima(g), N);
    var h := RowReduced(g);
    RowReducedInRange(g);
    ColumnsInRange(h);
    var t := Columns(h);
    forall j | 0 <= j < N { MinUpToInRange(t[j]); }
    FiniteSumNonNegative(ColMinima(h), N);
  }

  /** calculateCost turns no INF cell finite. */
  lemma ReducedKeepsInf(g: Grid)
    requires InRange(g)
    ensures InRange(RowReduced(g)) && InRange(ColumnReduced(RowReduced(g)))
    ensures forall a, c :: 0 <= a < N && 0 <= c < N && g[a][c] == INF ==> ColumnReduced(RowReduced(g))[a][c] == INF
  {
    RowReducedInRange(g);
    ColumnReducedInRange(RowReduced(g));
  }

  /** Appending an arc into a city not yet entered and not 0 keeps the walk simple. */
  lemma WalkExtends(path: seq<(int, int)>, i: int, j: int)
    requires WalkFromStart(path, i) && 0 <= i < N && 1 <= j < N
    requires forall k :: 0 <= k < |path| ==> path[k].1 != j
    ensures WalkFromStart(path + [(i, j)], j)
  {
    var p := path + [(i, j)];
    assert forall k :: 0 <= k < |path| ==> p[k] == path[k];
  }

  /** The child's matrix: in range, arc j -> 0 closed, every entered column closed. */
  lemma ChildMatrixFacts(m: Grid, path: seq<(int, int)>, level: int, i: int, j: int)
    requires InRange(m) && 0 <= i < N && 0 <= j < N && level != 0
    requires forall k :: 0 <= k < |path| ==> ColumnClosed(m, path[k].1)
    ensures InRange(ColumnReduced(RowReduced(Blocked(m, level, i, j))))
    ensures ColumnReduced(RowReduced(Blocked(m, level, i, j)))[j][0] == INF
    ensures forall k :: 0 <= k < |path + [(i, j)]| ==>
      ColumnClosed(ColumnReduced(RowReduced(Blocked(m, level, i, j))), (path + [(i, j)])[k].1)
  {
    var b := Blocked(m, level, i, j);
    BlockedInRange(m, level, i, j);
    ReducedKeepsInf(b);
    var g := ColumnReduced(RowReduced(b));
    var p := path + [(i, j)];
    forall k | 0 <= k < |p| ensures ColumnClosed(g, p[k].1) {
      if k < |path| {
        assert p[k] == path[k];
        assert ColumnClosed(m, path[k].1);
      }
    }
  }

  /**
   * A child made for an arc that is not INF is a live node again: the arc
   * enters a city not yet entered and not 0, so the walk stays simple, and
   * the child's cost is at least its parent's.
   */
  lemma ChildIsGood(min: Node, j: nat, bound: int)
    requires GoodNode(min, bound) && min.level < N - 1 && j < N
    requires min.reducedMatrix[min.vertex][j] != INF
    ensures GoodNode(ChildNode(min, j), bound)
    ensures ChildNode(min, j).cost >= min.cost
  {
    var m, i, L := min.reducedMatrix, min.vertex, min.level;
    var b := Blocked(m, L + 1, i, j);
    BlockedInRange(m, L + 1, i, j);
    ReductionCostNonNegative(b);
    assert j != 0;
    forall k | 0 <= k < |min.path| ensures min.path[k].1 != j {
      assert ColumnClosed(m, min.path[k].1);
    }
    WalkExtends(min.path, i, j);
    ChildMatrixFacts(m, min.path, L + 1, i, j);
  }

  /** Every child of a live node is live, for any prefix of its row. */
  lemma {:induction false} ChildrenGood(min: Node, j: nat, bound: int)
    requires GoodNode(min, bound) && min.level < N - 1 && j <= N
    ensures forall q :: q in ChildrenUpTo(min, j) ==> GoodNode(q, bound)
  {
    if j > 0 {
      var earlier := ChildrenUpTo(min, j - 1);
      ChildrenGood(min, j - 1, bound);
      if min.reducedMatrix[min.vertex][j - 1] != INF {
        var child := ChildNode(min, j - 1);
        ChildIsGood(min, j - 1, bound);
        AppendGood(earlier, child, bound);
        assert ChildrenUpTo(min, j) == earlier + [child];
      } else {
        assert ChildrenUpTo(min, j) == earlier;
      }
    }
  }

  /** Pushing a live node onto a queue of live nodes keeps every node live. */
  lemma AppendGood(pq: seq<Node>, q: Node, bound: int)
    requires forall x :: x in pq ==> GoodNode(x, bound)
    requires GoodNode(q, bound)
    ensures forall x :: x in pq + [q] ==> GoodNode(x, bound)
  {
    forall x | x in pq + [q] ensures GoodNode(x, bound) {
      if x !in pq {
        assert x == q;
      }
    }
  }

  // ------------------------------------------------------------------
  // Termination: a node at depth L outweighs all the children it can have
  // ------------------------------------------------------------------

  /** (N + 1) to the power N - 1 - level: the weight of a node at that depth. */
  function Weight(level: int): nat
    decreases N - level
  {
    if level >= N - 1 then 1 else (N + 1) * Weight(level + 1)
  }

  lemma {:induction false} WeightPositive(level: int)
    ensures Weight(level) >= 1
    decreases N - level
  {
    if level < N - 1 {
      WeightPositive(level + 1);
    }
  }

  function QueueWeight(pq: seq<Node>): nat
  {
    if |pq| == 0 then 0 else QueueWeight(pq[..|pq| - 1]) + Weight(pq[|pq| - 1].level)
  }

  lemma {:induction false} QueueWeightConcat(a: seq<Node>, b: seq<Node>)
    ensures QueueWeight(a + b) == QueueWeight(a) + QueueWeight(b)
  {
    if |b| > 0 {
      QueueWeightConcat(a, b[..|b| - 1]);
      assert (a + b)[..|a + b| - 1] == a + b[..|b| - 1];
    } else {
      assert a + b == a;
    }
  }

  /** Popping the node at position k removes exactly its weight. */
  lemma {:induction false} QueueWeightRemove(pq: seq<Node>, k: nat)
    requires k < |pq|
    ensures QueueWeight(pq) == QueueWeight(pq[..k] + pq[k + 1..]) + Weight(pq[k].level)
  {
    var r := pq[..k] + pq[k + 1..];
    if k == |pq| - 1 {
      assert r == pq[..|pq| - 1];
    } else {
      var init := pq[..|pq| - 1];
      QueueWeightRemove(init, k);
      assert r[..|r| - 1] == init[..k] + init[k + 1..];
      assert r[|r| - 1] == pq[|pq| - 1];
    }
  }

  /** Every child is one level below its parent, and there is at most one per column. */
  lemma {:induction false} ChildrenLevels(min: Node, j: nat)
    requires IsGrid(min.reducedMatrix) && 0 <= min.vertex < N && j <= N
    ensures |ChildrenUpTo(min, j)| <= j
    ensures forall k :: 0 <= k < |ChildrenUpTo(min, j)| ==> ChildrenUpTo(min, j)[k].level == min.level + 1
  {
    if j > 0 {
      ChildrenLevels(min, j - 1);
    }
  }

  /** A queue of nodes all at one level weighs its length times that level's weight. */
  lemma {:induction false} QueueWeightUniform(q: seq<Node>, level: int)
    requires forall k :: 0 <= k < |q| ==> q[k].level == level
    ensures QueueWeight(q) == |q| * Weight(level)
  {
    if |q| > 0 {
      QueueWeightUniform(q[..|q| - 1], level);
    }
  }

  /** The children made for a row weigh at most N nodes one level deeper. */
  lemma ChildrenWeight(min: Node)
    requires IsGrid(min.reducedMatrix) && 0 <= min.vertex < N
    ensures QueueWeight(ChildrenUpTo(min, N)) <= N * Weight(min.level + 1)
  {
    var cs := ChildrenUpTo(min, N);
    ChildrenLevels(min, N);
    QueueWeightUniform(cs, min.level + 1);
    MulMonotonic(|cs|, N, Weight(min.level + 1));
  }

  lemma MulMonotonic(a: nat, b: nat, c: nat)
    requires a <= b
    ensures a * c <= b * c
  {
  }

  /** Replacing a node above the last level by its children makes the queue lighter. */
  lemma ExpandLighter(min: Node, rest: seq<Node>)
    requires IsGrid(min.reducedMatrix) && 0 <= min.vertex < N && min.level < N - 1
    ensures QueueWeight(rest + ChildrenUpTo(min, N)) < QueueWeight(rest) + Weight(min.level)
  {
    ChildrenWeight(min);
    WeightPositive(min.level + 1);
    QueueWeightConcat(rest, ChildrenUpTo(min, N));
    assert Weight(min.level) == (N + 1) * Weight(min.level + 1);
  }

  // ------------------------------------------------------------------
  // solve
  // ------------------------------------------------------------------

  /** The lower bound of the root: calculateCost of the input with arc 0 -> 0 forbidden. */
  function RootBound(costMatrix: Grid): int
    requires IsGrid(costMatrix)
  {
    ReductionCost(Blocked(costMatrix, 0, -1, 0))
  }

  /**
   * A closed tour as solve prints it: N arcs, a walk from city 0 that enters
   * N - 1 distinct cities other than 0 and then returns to 0.
   */
  predicate ClosedTour(tour: seq<(int, int)>)
  {
    |tour| == N && WalkFromStart(tour[..N - 1], tour[N - 1].0) && tour[N - 1].1 == 0
  }

  /** The root of solve: newNode(costMatrix, [], 0, -1, 0) costed by calculateCost. */
  method MakeRoot(costMatrix: Grid) returns (root: Node)
    requires InRange(costMatrix)
    ensures root.cost == RootBound(costMatrix)
    ensures GoodNode(root, root.cost) && root.level == 0 && root.vertex == 0 && root.path == []
  {
    var rootMatrix;
    root, rootMatrix := NewNode(costMatrix, [], 0, -1, 0);
    BlockedInRange(costMatrix, 0, -1, 0);
    ReducedKeepsInf(root.reducedMatrix);
    var rootCost := CalculateCost(rootMatrix);
    root := root.(reducedMatrix := Cells(rootMatrix), cost := rootCost);
  }

  /**
   * pq.top() then pq.pop(): some node that comp ranks above no other, which
   * is a node of least cost; the heap's choice among equal costs is left open.
   */
  method Pop(pq: seq<Node>) returns (min: Node, rest: seq<Node>)
    requires |pq| > 0
    ensures min in pq && forall y :: 0 <= y < |pq| ==> !Comp(min, pq[y])
    ensures forall x :: x in rest ==> x in pq
    ensures |rest| == |pq| - 1 && QueueWeight(pq) == QueueWeight(rest) + Weight(min.level)
  {
    var top := TopExists(pq);
    assert IsTop(pq, top);
    var t: nat :| IsTop(pq, t);
    assert IsTop(pq, t);
    min := pq[t];
    rest := pq[..t] + pq[t + 1..];
    QueueWeightRemove(pq, t);
    assert forall x :: x in rest ==> x in pq[..t] || x in pq[t + 1..];
  }

  /**
   * solve: the root is the input with arc 0 -> 0 forbidden, costed by
   * calculateCost; then, while the queue is not empty, the node of least
   * cost is popped; a node at level N - 1 ends the search with its cost and
   * its path closed back to 0, any other is replaced by its children. The
   * loop always ends, since a node outweighs all its children. The cost
   * returned is that of the leaf popped, which no node then queued
   * undercuts. Where the queue runs dry the C++ function falls off its end;
   * that is a Failure here.
   */
  method Solve(costMatrix: Grid) returns (r: Result<int>, tour: seq<(int, int)>, ghost leaf: Node, ghost live: seq<Node>)
    requires InRange(costMatrix)
    ensures r.Success? ==> r.value >= RootBound(costMatrix)
    ensures r.Success? ==> ClosedTour(tour)
    ensures r.Success? ==> Entered(tour) == Cities(0, N)
    ensures r.Success? ==>
      leaf in live && leaf.level == N - 1 && r.value == leaf.cost && tour == leaf.path + [(leaf.vertex, 0)]
      && forall q :: q in live ==> leaf.cost <= q.cost
  {
    var root := MakeRoot(costMatrix);
    var bound := root.cost;
    var pq := [root];
    leaf, live := root, pq;
    while |pq| > 0
      invariant forall q :: q in pq ==> GoodNode(q, bound)
      decreases QueueWeight(pq)
    {
      live := pq;
      var min, rest := Pop(pq);
      if min.level == N - 1 {
        tour := min.path + [(min.vertex, 0)];
        assert tour[..N - 1] == min.path;
        TourVisitsAll(tour);
        leaf := min;
        return Success(min.cost), tour, leaf, live;
      }
      pq := Expand(min, rest);
      ChildrenGood(min, N, bound);
      ExpandLighter(min, rest);
      assert forall q :: q in pq ==> q in rest || q in ChildrenUpTo(min, N);
    }
    return Failure("queue exhausted"), [], leaf, live;
  }

  // ------------------------------------------------------------------
  // A closed tour visits every city once
  // ------------------------------------------------------------------

  /** The cities a path enters. */
  function Entered(path: seq<(int, int)>): set<int>
  {
    set k | 0 <= k < |path| :: path[k].1
  }

  /** A path that never enters a city twice enters as many cities as it has arcs. */
  lemma {:induction false} EnteredCount(path: seq<(int, int)>)
    requires forall k, l :: 0 <= k < l < |path| ==> path[k].1 != path[l].1
    ensures |Entered(path)| == |path|
  {
    if |path| > 0 {
      var init := path[..|path| - 1];
      EnteredCount(init);
      EnteredLast(path);
      assert path[|path| - 1].1 !in Entered(init);
    }
  }

  /** The last arc of a path adds the city it enters to those entered before. */
  lemma EnteredLast(path: seq<(int, int)>)
    requires |path| > 0
    ensures Entered(path) == Entered(path[..|path| - 1]) + {path[|path| - 1].1}
  {
    var init := path[..|path| - 1];
    assert forall k :: 0 <= k < |init| ==> init[k] == path[k];
  }

  /** A walk from city 0 enters cities among 1..N-1 only, each once. */
  lemma WalkEnters(path: seq<(int, int)>, v: int)
    requires WalkFromStart(path, v)
    ensures Entered(path) <= Cities(1, N) && |Entered(path)| == |path|
  {
    EnteredCount(path);
  }

  /**
   * The tour solve prints is a Hamiltonian cycle: it leaves city 0 and its
   * N arcs enter N distinct cities, which are therefore all the cities 0..N-1.
   */
  lemma TourVisitsAll(tour: seq<(int, int)>)
    requires ClosedTour(tour)
    ensures Entered(tour) == Cities(0, N)
  {
    var p := tour[..N - 1];
    WalkEnters(p, tour[N - 1].0);
    SubsetSameSize(Entered(p), Cities(1, N));
    EnteredLast(tour);
  }
}
