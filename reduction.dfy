/**
 * Matrix reduction of Little's branch-and-bound method: row minima that ignore
 * forbidden cells, the row pass, the column pass through a transposition, and
 * the sum of everything subtracted, which is the lower-bound contribution.
 * A matrix is a list of rows; a cell is None when its arc is forbidden.
 */
module Reduction {
  import opened Wrappers

  type Cell = Option<int>
  type Row = seq<Cell>
  type Matrix = seq<Row>

  /** Converts a one-based city id into a zero-based position. */
  function Ind(index: int): int
  {
    index - 1
  }

  // ------------------------------------------------------------------
  // Row minima
  // ------------------------------------------------------------------

  /**
   * The smallest non-None entry of a row, or None when the row has none
   * (the draft's min_no_none raises ValueError there).
   */
  function MinEntry(row: Row): (r: Option<int>)
    ensures r.None? <==> forall k :: 0 <= k < |row| ==> row[k].None?
    ensures r.Some? ==> exists k :: 0 <= k < |row| && row[k] == r
    ensures r.Some? ==> forall k :: 0 <= k < |row| && row[k].Some? ==> r.value <= row[k].value
  {
    MinFrom(row, 0)
  }

  /** The smallest non-None entry at or after position from. */
  function MinFrom(row: Row, from: nat): (r: Option<int>)
    requires from <= |row|
    ensures r.None? <==> forall k :: from <= k < |row| ==> row[k].None?
    ensures r.Some? ==> exists k :: from <= k < |row| && row[k] == r
    ensures r.Some? ==> forall k :: from <= k < |row| && row[k].Some? ==> r.value <= row[k].value
    decreases |row| - from
  {
    if from == |row| then None
    else
      var rest := MinFrom(row, from + 1);
      match row[from]
      case None => rest
      case Some(x) =>
        if rest.None? || x <= rest.value then Some(x) else rest
  }

  /** The smallest non-None entry of a row, 0 when every cell is None. */
  function MinNoNone(row: Row): (r: int)
    ensures forall k :: 0 <= k < |row| && row[k].Some? ==> r <= row[k].value
    ensures (exists k :: 0 <= k < |row| && row[k] == Some(r))
            || (r == 0 && forall k :: 0 <= k < |row| ==> row[k].None?)
  {
    MinEntry(row).GetOr(0)
  }

  /** The row with position index taken out, as Python's row[:index] + row[index + 1:]. */
  function Without(row: Row, index: nat): (r: Row)
    ensures index < |row| ==> |r| == |row| - 1
    ensures index >= |row| ==> r == row
  {
    if index < |row| then row[..index] + row[index + 1..] else row
  }

  /** True when some cell other than the one at index is not None. */
  predicate HasOtherEntry(row: Row, index: nat)
  {
    exists k :: 0 <= k < |row| && k != index && row[k].Some?
  }

  /** Where cell q of Without(row, index) comes from in row. */
  function Source(row: Row, index: nat, q: nat): nat
  {
    if index < |row| && q >= index then q + 1 else q
  }

  /** Where cell k of row lands in Without(row, index). */
  function Target(row: Row, index: nat, k: nat): nat
  {
    if index < |row| && k > index then k - 1 else k
  }

  lemma WithoutCells(row: Row, index: nat)
    ensures forall q :: 0 <= q < |Without(row, index)| ==>
      Source(row, index, q) < |row| && Source(row, index, q) != index
      && Target(row, index, Source(row, index, q)) == q
      && Without(row, index)[q] == row[Source(row, index, q)]
    ensures forall k :: 0 <= k < |row| && k != index ==>
      Target(row, index, k) < |Without(row, index)| && Source(row, index, Target(row, index, k)) == k
      && Without(row, index)[Target(row, index, k)] == row[k]
  {
  }

  /** The minimum of a row with one position left out, ignoring None; 0 when nothing is left. */
  function MinNoElement(row: Row, index: nat): (r: int)
    ensures forall k :: 0 <= k < |row| && k != index && row[k].Some? ==> r <= row[k].value
    ensures HasOtherEntry(row, index) ==> exists k :: 0 <= k < |row| && k != index && row[k] == Some(r)
    ensures !HasOtherEntry(row, index) ==> r == 0
  {
    WithoutCells(row, index);
    MinNoNone(Without(row, index))
  }

  /** The same minimum, or None when nothing is left (the draft's min_no_element). */
  function MinEntryWithout(row: Row, index: nat): (r: Option<int>)
    ensures r.None? <==> !HasOtherEntry(row, index)
    ensures r.Some? ==> r.value == MinNoElement(row, index)
  {
    WithoutCells(row, index);
    MinEntry(Without(row, index))
  }

  // ------------------------------------------------------------------
  // Shape and transposition
  // ------------------------------------------------------------------

  function Width(m: Matrix): nat
  {
    if |m| == 0 then 0 else |m[0]|
  }

  /** Every row has the same length. */
  predicate Rectangular(m: Matrix)
  {
    forall i :: 0 <= i < |m| ==> |m[i]| == Width(m)
  }

  /** Every cell that is not None is at least 0. */
  predicate NonNegative(m: Matrix)
  {
    forall i, j :: 0 <= i < |m| && 0 <= j < |m[i]| && m[i][j].Some? ==> m[i][j].value >= 0
  }

  /** Rows become columns, as list(map(list, zip(*M))) on a rectangular matrix. */
  function Transpose(m: Matrix): (t: Matrix)
    requires Rectangular(m)
    ensures |t| == Width(m)
    ensures forall j :: 0 <= j < |t| ==> |t[j]| == |m|
    ensures Rectangular(t)
    ensures forall j, i {:trigger t[j][i]} :: 0 <= j < |t| && 0 <= i < |m| ==> t[j][i] == m[i][j]
  {
    seq(Width(m), j requires 0 <= j < Width(m) => seq(|m|, i requires 0 <= i < |m| => m[i][j]))
  }

  /** Column j of a matrix, read through the rows. */
  function Column(m: Matrix, j: nat): (c: Row)
    requires Rectangular(m) && j < Width(m)
    ensures |c| == |m| && forall i {:trigger c[i]} :: 0 <= i < |m| ==> c[i] == m[i][j]
  {
    seq(|m|, i requires 0 <= i < |m| => m[i][j])
  }

  /** Transposing twice gives the matrix back unless it has rows but no columns. */
  lemma TransposeTwice(m: Matrix)
    requires Rectangular(m) && (|m| == 0 || Width(m) > 0)
    ensures Transpose(Transpose(m)) == m
  {
    var t := Transpose(m);
    var tt := Transpose(t);
    assert Width(t) == |m|;
    assert |tt| == |m|;
    forall i | 0 <= i < |m|
      ensures tt[i] == m[i]
    {
      assert |tt[i]| == |t| == |m[i]|;
    }
  }

  // ------------------------------------------------------------------
  // The row pass (subtract_min)
  // ------------------------------------------------------------------

  /** Subtracts d from every cell of the row that is not None. */
  function Shifted(row: Row, d: int): (r: Row)
    ensures |r| == |row|
    ensures forall k {:trigger r[k]} :: 0 <= k < |row| ==> r[k] == if row[k].Some? then Some(row[k].value - d) else None
  {
    seq(|row|, k requires 0 <= k < |row| => if row[k].Some? then Some(row[k].value - d) else None)
  }

  /** The row with its minimum subtracted. */
  function ReduceRow(row: Row): Row
  {
    Shifted(row, MinNoNone(row))
  }

  /** Every row reduced by its own minimum. */
  function ReduceRows(m: Matrix): (r: Matrix)
    ensures |r| == |m| && forall i {:trigger r[i]} :: 0 <= i < |m| ==> r[i] == ReduceRow(m[i])
  {
    seq(|m|, i requires 0 <= i < |m| => ReduceRow(m[i]))
  }

  /** The sum of the row minima. */
  function SumMins(m: Matrix): int
  {
    if |m| == 0 then 0 else SumMins(m[..|m| - 1]) + MinNoNone(m[|m| - 1])
  }

  /**
   * subtract_min: reduces each row by its minimum, row by row, and returns the
   * sum of the minima.
   */
  method SubtractMin(m: Matrix) returns (r: Matrix, subs: int)
    ensures r == ReduceRows(m)
    ensures subs == SumMins(m)
  {
    r, subs := m, 0;
    var i := 0;
    while i < |r|
      invariant 0 <= i <= |r| == |m|
      invariant forall k :: 0 <= k < i ==> r[k] == ReduceRow(m[k])
      invariant forall k :: i <= k < |m| ==> r[k] == m[k]
      invariant subs == SumMins(m[..i])
    {
      var minX := MinNoNone(r[i]);
      subs := subs + minX;
      assert m[..i + 1][..i] == m[..i];
      r := r[i := Shifted(r[i], minX)];
      i := i + 1;
    }
    assert m[..i] == m;
  }

  /** A reduced row keeps its None cells, has no negative cell, and has minimum 0. */
  lemma ReduceRowFacts(row: Row)
    ensures |ReduceRow(row)| == |row|
    ensures forall k :: 0 <= k < |row| ==> (ReduceRow(row)[k].None? <==> row[k].None?)
    ensures forall k :: 0 <= k < |row| && row[k].Some? ==> ReduceRow(row)[k].value >= 0
    ensures (exists k :: 0 <= k < |row| && row[k].Some?) ==> exists k :: 0 <= k < |row| && ReduceRow(row)[k] == Some(0)
    ensures MinNoNone(ReduceRow(row)) == 0
  {
    var r := ReduceRow(row);
    var mn := MinNoNone(row);
    if exists k :: 0 <= k < |row| && row[k].Some? {
      var k :| 0 <= k < |row| && row[k] == Some(mn);
      assert r[k] == Some(0);
    }
  }

  /** A row pass never leaves a negative cell. */
  lemma ReduceRowsNonNegative(m: Matrix)
    ensures NonNegative(ReduceRows(m))
  {
    forall i | 0 <= i < |m| { ReduceRowFacts(m[i]); }
  }

  /** A second row pass subtracts nothing. */
  lemma {:induction false} ReduceRowsTwice(m: Matrix)
    ensures SumMins(ReduceRows(m)) == 0
    ensures ReduceRows(ReduceRows(m)) == ReduceRows(m)
  {
    if |m| > 0 {
      var r := ReduceRows(m);
      ReduceRowsTwice(m[..|m| - 1]);
      assert r[..|m| - 1] == ReduceRows(m[..|m| - 1]);
      ReduceRowFacts(m[|m| - 1]);
      forall i | 0 <= i < |m|
        ensures ReduceRow(r[i]) == r[i]
      {
        ReduceRowFacts(m[i]);
      }
    }
  }

  // ------------------------------------------------------------------
  // simplify: the row pass, then the column pass on the transpose
  // ------------------------------------------------------------------

  /** The matrix simplify returns. */
  function Reduce(m: Matrix): (r: Matrix)
    requires Rectangular(m)
  {
    Transpose(ReduceRows(Transpose(ReduceRows(m))))
  }

  /** The sum simplify returns: row-pass minima plus column-pass minima. */
  function ReductionTotal(m: Matrix): int
    requires Rectangular(m)
  {
    SumMins(m) + SumMins(Transpose(ReduceRows(m)))
  }

  lemma ReduceRowsShape(m: Matrix)
    requires Rectangular(m)
    ensures Rectangular(ReduceRows(m)) && Width(ReduceRows(m)) == Width(m)
  {
  }

  /**
   * simplify: one row pass, then one column pass by transposing, reducing and
   * transposing back; returns the matrix and the sum of all subtrahends.
   */
  method Simplify(m: Matrix) returns (r: Matrix, sumSubtrahends: int)
    requires Rectangular(m)
    ensures r == Reduce(m)
    ensures sumSubtrahends == ReductionTotal(m)
  {
    sumSubtrahends := 0;
    var rows, sumSubs := SubtractMin(m);
    sumSubtrahends := sumSubtrahends + sumSubs;
    ReduceRowsShape(m);
    var mT := Transpose(rows);
    mT, sumSubs := SubtractMin(mT);
    sumSubtrahends := sumSubtrahends + sumSubs;
    r := Transpose(mT);
  }

  /** The reduced matrix has the shape of the input and keeps exactly its None cells. */
  lemma ReduceShape(m: Matrix)
    requires Rectangular(m) && (|m| == 0 || Width(m) > 0)
    ensures |Reduce(m)| == |m| && Rectangular(Reduce(m)) && Width(Reduce(m)) == Width(m)
    ensures forall i, j :: 0 <= i < |m| && 0 <= j < Width(m) ==> (Reduce(m)[i][j].None? <==> m[i][j].None?)
  {
    var rr := ReduceRows(m);
    var t := Transpose(rr);
    var tr := ReduceRows(t);
    forall i | 0 <= i < |m| { ReduceRowFacts(m[i]); }
    forall j | 0 <= j < |t| { ReduceRowFacts(t[j]); }
    if |m| > 0 {
      assert |Reduce(m)| == Width(tr) == |t[0]| == |m|;
    }
  }

  /** The reduced matrix has no negative cell, whatever the input. */
  lemma ReduceNonNegative(m: Matrix)
    requires Rectangular(m)
    ensures NonNegative(Reduce(m))
  {
    var t := Transpose(ReduceRows(m));
    ReduceRowsNonNegative(t);
  }

  /** Without negative cells every row minimum, and so their sum, is at least 0. */
  lemma {:induction false} SumMinsNonNegative(m: Matrix)
    requires NonNegative(m)
    ensures SumMins(m) >= 0
  {
    if |m| > 0 {
      var init := m[..|m| - 1];
      assert forall i :: 0 <= i < |init| ==> init[i] == m[i];
      SumMinsNonNegative(init);
    }
  }

  /** simplify never lowers a bound: on a matrix without negative cells it subtracts at least 0. */
  lemma ReductionTotalNonNegative(m: Matrix)
    requires Rectangular(m) && NonNegative(m)
    ensures ReductionTotal(m) >= 0
  {
    SumMinsNonNegative(m);
    ReduceRowsNonNegative(m);
    ReduceRowsShape(m);
    SumMinsNonNegative(Transpose(ReduceRows(m)));
  }

  /** A row without negative cells that holds a 0 has minimum 0. */
  lemma ZeroMinOfRow(row: Row, k: nat)
    requires k < |row| && row[k] == Some(0)
    requires forall q :: 0 <= q < |row| && row[q].Some? ==> row[q].value >= 0
    ensures MinNoNone(row) == 0
  {
  }

  /** A zero the row pass leaves survives the column pass, whose column minima are then 0. */
  lemma ColumnPassKeepsZero(m: Matrix, i: nat, k: nat)
    requires Rectangular(m) && (|m| == 0 || Width(m) > 0) && i < |m| && k < |m[i]|
    requires ReduceRows(m)[i][k] == Some(0)
    ensures |Reduce(m)| == |m| && k < |Reduce(m)[i]| && Reduce(m)[i][k] == Some(0)
  {
    var rr := ReduceRows(m);
    var t := Transpose(rr);
    var tr := ReduceRows(t);
    ReduceShape(m);
    ReduceRowsNonNegative(m);
    assert t[k][i] == Some(0);
    var mn := MinNoNone(t[k]);
    assert mn <= 0;
    assert forall q :: 0 <= q < |t[k]| && t[k][q].Some? ==> t[k][q].value >= 0 by {
      forall q | 0 <= q < |t[k]| && t[k][q].Some? ensures t[k][q].value >= 0 {
        assert t[k][q] == rr[q][k];
      }
    }
    assert mn >= 0;
    assert tr[k][i] == Some(0);
  }

  /** After simplify, a row of the reduced matrix has minimum 0. */
  lemma ReducedRowMinZero(m: Matrix, i: nat)
    requires Rectangular(m) && (|m| == 0 || Width(m) > 0) && i < |m|
    ensures |Reduce(m)| == |m| && MinNoNone(Reduce(m)[i]) == 0
  {
    var r: Matrix := Reduce(m);
    ReduceShape(m);
    ReduceNonNegative(m);
    ReduceRowFacts(m[i]);
    if exists k :: 0 <= k < |m[i]| && m[i][k].Some? {
      var k :| 0 <= k < |m[i]| && ReduceRows(m)[i][k] == Some(0);
      ColumnPassKeepsZero(m, i, k);
      assert forall q :: 0 <= q < |r[i]| && r[i][q].Some? ==> r[i][q].value >= 0;
      ZeroMinOfRow(r[i], k);
    } else {
      assert forall q :: 0 <= q < |r[i]| ==> r[i][q].None?;
    }
  }

  /** After simplify, a column of the reduced matrix has minimum 0. */
  lemma ReducedColumnMinZero(m: Matrix, j: nat)
    requires Rectangular(m) && (|m| == 0 || Width(m) > 0) && j < Width(m)
    ensures Rectangular(Reduce(m)) && Width(Reduce(m)) == Width(m)
    ensures MinNoNone(Column(Reduce(m), j)) == 0
  {
    var rr := ReduceRows(m);
    var t := Transpose(rr);
    var tr := ReduceRows(t);
    ReduceShape(m);
    assert Column(Reduce(m), j) == tr[j];
    ReduceRowFacts(t[j]);
  }

  /**
   * After simplify every row and every column has minimum 0: a row or column
   * with a cell that is not None holds a 0.
   */
  lemma ReduceMinimaZero(m: Matrix)
    requires Rectangular(m) && (|m| == 0 || Width(m) > 0)
    ensures Rectangular(Reduce(m)) && |Reduce(m)| == |m| && Width(Reduce(m)) == Width(m)
    ensures forall i :: 0 <= i < |Reduce(m)| ==> MinNoNone(Reduce(m)[i]) == 0
    ensures forall j :: 0 <= j < Width(Reduce(m)) ==> MinNoNone(Column(Reduce(m), j)) == 0
  {
    ReduceShape(m);
    forall i | 0 <= i < |m| ensures MinNoNone(Reduce(m)[i]) == 0 {
      ReducedRowMinZero(m, i);
    }
    forall j | 0 <= j < Width(m) ensures MinNoNone(Column(Reduce(m), j)) == 0 {
      ReducedColumnMinZero(m, j);
    }
  }

  /** Rows whose minimum is 0 are left alone by a row pass, which then sums to 0. */
  lemma {:induction false} ZeroMinRowsFixed(m: Matrix)
    requires forall i :: 0 <= i < |m| ==> MinNoNone(m[i]) == 0
    ensures ReduceRows(m) == m && SumMins(m) == 0
  {
    if |m| > 0 {
      ZeroMinRowsFixed(m[..|m| - 1]);
    }
    forall i | 0 <= i < |m| ensures ReduceRow(m[i]) == m[i] {
      assert Shifted(m[i], 0) == m[i];
    }
  }

  /** Simplifying a simplified matrix changes nothing and subtracts 0. */
  lemma ReduceIdempotent(m: Matrix)
    requires Rectangular(m) && (|m| == 0 || Width(m) > 0)
    ensures Rectangular(Reduce(m))
    ensures Reduce(Reduce(m)) == Reduce(m)
    ensures ReductionTotal(Reduce(m)) == 0
  {
    var r := Reduce(m);
    ReduceShape(m);
    ReduceMinimaZero(m);
    ZeroMinRowsFixed(r);
    var t := Transpose(r);
    forall j | 0 <= j < |t| ensures MinNoNone(t[j]) == 0 {
      assert t[j] == Column(r, j);
    }
    ZeroMinRowsFixed(t);
    TransposeTwice(r);
  }

  // ------------------------------------------------------------------
  // The reduction total is an additive offset of every assignment's cost
  // ------------------------------------------------------------------

  function Range(n: nat): (r: seq<nat>)
    ensures |r| == n && forall k :: 0 <= k < n ==> r[k] == k
  {
    if n == 0 then [] else Range(n - 1) + [n - 1]
  }

  /** sigma sends row i to column sigma[i] and uses each column once. */
  predicate IsPermutation(sigma: seq<nat>, n: nat)
  {
    multiset(sigma) == multiset(Range(n))
  }

  /** Every row i of the first |sigma| rows has a cell that is not None at column sigma[i]. */
  predicate Admissible(m: Matrix, sigma: seq<nat>)
  {
    |sigma| <= |m| && forall i :: 0 <= i < |sigma| ==> sigma[i] < |m[i]| && m[i][sigma[i]].Some?
  }

  /** The cost of choosing cell (i, sigma[i]) in each row i. */
  function SelCost(m: Matrix, sigma: seq<nat>): int
    requires Admissible(m, sigma)
  {
    if |sigma| == 0 then 0
    else SelCost(m, sigma[..|sigma| - 1]) + m[|sigma| - 1][sigma[|sigma| - 1]].value
  }

  function Sum(f: seq<int>): int
  {
    if |f| == 0 then 0 else Sum(f[..|f| - 1]) + f[|f| - 1]
  }

  /** f[idx[0]] + f[idx[1]] + ... */
  function SumAt(f: seq<int>, idx: seq<nat>): int
    requires forall k :: 0 <= k < |idx| ==> idx[k] < |f|
  {
    if |idx| == 0 then 0 else SumAt(f, idx[..|idx| - 1]) + f[idx[|idx| - 1]]
  }

  lemma {:induction false} SumAtRemove(f: seq<int>, idx: seq<nat>, p: nat)
    requires p < |idx| && forall k :: 0 <= k < |idx| ==> idx[k] < |f|
    ensures SumAt(f, idx) == SumAt(f, idx[..p] + idx[p + 1..]) + f[idx[p]]
  {
    var rest := idx[..p] + idx[p + 1..];
    if p == |idx| - 1 {
      assert rest == idx[..|idx| - 1];
    } else {
      var init := idx[..|idx| - 1];
      SumAtRemove(f, init, p);
      assert init[..p] + init[p + 1..] == rest[..|rest| - 1];
      assert rest[|rest| - 1] == idx[|idx| - 1];
    }
  }

  lemma {:induction false} SumAtPrefix(f: seq<int>, n: nat, idx: seq<nat>)
    requires n <= |f| && forall k :: 0 <= k < |idx| ==> idx[k] < n
    ensures SumAt(f[..n], idx) == SumAt(f, idx)
  {
    if |idx| > 0 {
      SumAtPrefix(f, n, idx[..|idx| - 1]);
    }
  }

  lemma RemovedIndex(idx: seq<nat>, p: nat)
    requires p < |idx|
    ensures multiset(idx[..p] + idx[p + 1..]) == multiset(idx) - multiset{idx[p]}
  {
    assert idx == idx[..p] + [idx[p]] + idx[p + 1..];
  }

  lemma RangeLast(n: nat)
    requires n > 0
    ensures multiset(Range(n)) == multiset(Range(n - 1)) + multiset{(n - 1) as nat}
  {
  }

  /** The entries of a permutation of 0..n-1 are below n. */
  lemma PermutationBounded(idx: seq<nat>, n: nat)
    requires IsPermutation(idx, n)
    ensures |idx| == n
    ensures forall k :: 0 <= k < |idx| ==> idx[k] < n
  {
    assert |multiset(idx)| == |idx|;
    assert |multiset(Range(n))| == |Range(n)|;
    forall k | 0 <= k < |idx| ensures idx[k] < n {
      assert idx[k] in multiset(idx);
      assert idx[k] in multiset(Range(n));
      assert idx[k] in Range(n);
    }
  }

  /** Summing along a permutation of the positions gives the plain sum. */
  lemma {:induction false} SumAtPermutation(f: seq<int>, idx: seq<nat>)
    requires IsPermutation(idx, |f|)
    ensures forall k :: 0 <= k < |idx| ==> idx[k] < |f|
    ensures SumAt(f, idx) == Sum(f)
  {
    var n := |f|;
    PermutationBounded(idx, n);
    if n > 0 {
      var p := LastPosition(idx, n);
      var rest := idx[..p] + idx[p + 1..];
      RestIsPermutation(idx, n, p);
      PermutationBounded(rest, n - 1);
      SumAtPermutation(f[..n - 1], rest);
      SumAtLastRemoved(f, idx, p, rest);
    }
  }

  /** Taking the last position n - 1 out of the index list takes f's last entry out of the sum. */
  lemma SumAtLastRemoved(f: seq<int>, idx: seq<nat>, p: nat, rest: seq<nat>)
    requires |f| > 0 && p < |idx| && idx[p] == |f| - 1 && rest == idx[..p] + idx[p + 1..]
    requires forall k :: 0 <= k < |idx| ==> idx[k] < |f|
    requires forall k :: 0 <= k < |rest| ==> rest[k] < |f| - 1
    requires SumAt(f[..|f| - 1], rest) == Sum(f[..|f| - 1])
    ensures SumAt(f, idx) == Sum(f)
  {
    SumAtRemove(f, idx, p);
    SumAtPrefix(f, |f| - 1, rest);
  }

  lemma RestIsPermutation(idx: seq<nat>, n: nat, p: nat)
    requires IsPermutation(idx, n) && n > 0 && p < |idx| && idx[p] == n - 1
    ensures IsPermutation(idx[..p] + idx[p + 1..], n - 1)
  {
    RemovedIndex(idx, p);
    RangeLast(n);
  }

  /** The position of n - 1 in a permutation of 0..n-1. */
  lemma LastPosition(idx: seq<nat>, n: nat) returns (p: nat)
    requires IsPermutation(idx, n) && n > 0
    ensures p < |idx| && idx[p] == n - 1
  {
    assert Range(n)[n - 1] == n - 1;
    assert (n - 1) as nat in multiset(Range(n));
    assert (n - 1) as nat in multiset(idx);
    p :| 0 <= p < |idx| && idx[p] == n - 1;
  }

  /** The row minima as a list. */
  function RowMins(m: Matrix): (r: seq<int>)
    ensures |r| == |m| && forall i :: 0 <= i < |m| ==> r[i] == MinNoNone(m[i])
  {
    seq(|m|, i requires 0 <= i < |m| => MinNoNone(m[i]))
  }

  lemma {:induction false} SumMinsIsSum(m: Matrix)
    ensures SumMins(m) == Sum(RowMins(m))
  {
    if |m| > 0 {
      SumMinsIsSum(m[..|m| - 1]);
      assert RowMins(m)[..|m| - 1] == RowMins(m[..|m| - 1]);
    }
  }

  /** A row pass lowers each chosen cell by its row minimum. */
  lemma {:induction false} RowPassOffset(m: Matrix, sigma: seq<nat>)
    requires Admissible(m, sigma)
    ensures Admissible(ReduceRows(m), sigma)
    ensures SelCost(m, sigma) == SumMins(m[..|sigma|]) + SelCost(ReduceRows(m), sigma)
  {
    var r := ReduceRows(m);
    if |sigma| > 0 {
      var n := |sigma| - 1;
      RowPassOffset(m, sigma[..n]);
      assert m[..|sigma|][..n] == m[..n];
    }
  }

  /** A column pass lowers each chosen cell by its column minimum. */
  lemma {:induction false} ColumnPassOffset(rr: Matrix, sigma: seq<nat>)
    requires Rectangular(rr) && Admissible(rr, sigma)
    ensures Admissible(Transpose(ReduceRows(Transpose(rr))), sigma)
    ensures forall k :: 0 <= k < |sigma| ==> sigma[k] < |RowMins(Transpose(rr))|
    ensures SelCost(rr, sigma) == SumAt(RowMins(Transpose(rr)), sigma) + SelCost(Transpose(ReduceRows(Transpose(rr))), sigma)
  {
    var t := Transpose(rr);
    var tr := ReduceRows(t);
    var r := Transpose(tr);
    assert forall k :: 0 <= k < |sigma| ==> sigma[k] < |RowMins(t)| by {
      forall k | 0 <= k < |sigma| ensures sigma[k] < |RowMins(t)| {
        assert |rr[k]| == Width(rr);
      }
    }
    assert Admissible(r, sigma) by {
      forall k | 0 <= k < |sigma| ensures sigma[k] < |r[k]| && r[k][sigma[k]].Some? {
        assert |rr[k]| == Width(rr);
        assert t[sigma[k]][k] == rr[k][sigma[k]];
        assert r[k][sigma[k]] == tr[sigma[k]][k];
      }
    }
    if |sigma| > 0 {
      var n := |sigma| - 1;
      ColumnPassOffset(rr, sigma[..n]);
      assert |rr[n]| == Width(rr);
      assert t[sigma[n]][n] == rr[n][sigma[n]];
      assert r[n][sigma[n]] == tr[sigma[n]][n];
    }
  }

  /**
   * For every assignment of one column per row that uses only cells that are
   * not None, its cost in the input is the reduction total plus its cost in
   * the reduced matrix.
   */
  lemma ReductionOffset(m: Matrix, sigma: seq<nat>)
    requires Rectangular(m) && |m| == Width(m)
    requires IsPermutation(sigma, |m|) && Admissible(m, sigma)
    ensures Admissible(Reduce(m), sigma)
    ensures SelCost(m, sigma) == ReductionTotal(m) + SelCost(Reduce(m), sigma)
  {
    var rr := ReduceRows(m);
    PermutationBounded(sigma, |m|);
    RowPassOffset(m, sigma);
    assert m[..|sigma|] == m;
    ReduceRowsShape(m);
    ColumnPassOffset(rr, sigma);
    var t := Transpose(rr);
    assert |RowMins(t)| == |m|;
    SumAtPermutation(RowMins(t), sigma);
    SumMinsIsSum(t);
  }

  lemma {:induction false} SelCostNonNegative(m: Matrix, sigma: seq<nat>)
    requires NonNegative(m) && Admissible(m, sigma)
    ensures SelCost(m, sigma) >= 0
  {
    if |sigma| > 0 {
      SelCostNonNegative(m, sigma[..|sigma| - 1]);
    }
  }

  /** The reduction total is a lower bound of the cost of every admissible assignment. */
  lemma ReductionTotalIsLowerBound(m: Matrix, sigma: seq<nat>)
    requires Rectangular(m) && |m| == Width(m)
    requires IsPermutation(sigma, |m|) && Admissible(m, sigma)
    ensures ReductionTotal(m) <= SelCost(m, sigma)
  {
    ReductionOffset(m, sigma);
    ReduceNonNegative(m);
    SelCostNonNegative(Reduce(m), sigma);
  }

  // ------------------------------------------------------------------
  // Loading: a zero entry means there is no arc
  // ------------------------------------------------------------------

  /** The input matrix with every 0 turned into None. */
  function ZerosToNone(raw: seq<seq<int>>): (m: Matrix)
    ensures |m| == |raw|
    ensures forall i :: 0 <= i < |raw| ==> |m[i]| == |raw[i]|
    ensures forall i, j :: 0 <= i < |raw| && 0 <= j < |raw[i]| ==>
      m[i][j] == if raw[i][j] == 0 then None else Some(raw[i][j])
  {
    seq(|raw|, i requires 0 <= i < |raw| =>
      seq(|raw[i]|, j requires 0 <= j < |raw[i]| => if raw[i][j] == 0 then None else Some(raw[i][j])))
  }

  /** The loop of block 1 (and of the first draft): one converted row appended at a time. */
  method ConvertZeros(raw: seq<seq<int>>) returns (m: Matrix)
    ensures m == ZerosToNone(raw)
  {
    m := [];
    var k := 0;
    while k < |raw|
      invariant 0 <= k <= |raw|
      invariant m == ZerosToNone(raw[..k])
    {
      var row := raw[k];
      m := m + [seq(|row|, j requires 0 <= j < |row| => if row[j] == 0 then None else Some(row[j]))];
      k := k + 1;
    }
    assert raw[..k] == raw;
  }

  /** A non-negative input loads as a matrix whose cells are None or positive. */
  lemma ZerosToNonePositive(raw: seq<seq<int>>)
    requires forall i, j :: 0 <= i < |raw| && 0 <= j < |raw[i]| ==> raw[i][j] >= 0
    ensures forall i, j :: 0 <= i < |raw| && 0 <= j < |raw[i]| && ZerosToNone(raw)[i][j].Some? ==> ZerosToNone(raw)[i][j].value > 0
  {
  }
}
