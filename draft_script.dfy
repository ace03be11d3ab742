/**
 * The first script draft of the reduction (main.py): the zero-to-None
 * conversion, a row pass and a column pass whose minima add up to the bound of
 * the root, and the penalties of the zero cells. Unlike the solver's helpers,
 * the draft's minimum raises ValueError on a row with no cell that is not
 * None; such a raise is a Failure here. Its min_no_none and min_no_element are
 * Reduction.MinEntry and Reduction.MinEntryWithout (None where min raises).
 */
module DraftScript {
  import opened Wrappers
  import opened Reduction
  import opened ArcSelection

  /** The row has a cell that is not None, so min of its cells does not raise. */
  predicate HasEntry(row: Row)
  {
    exists k :: 0 <= k < |row| && row[k].Some?
  }

  predicate EveryRowHasEntry(m: Matrix)
  {
    forall i :: 0 <= i < |m| ==> HasEntry(m[i])
  }

  /** index: a one-based position is in 1..n exactly when its zero-based one is in 0..n-1. */
  lemma IndexInRange(index: int, n: nat)
    ensures 1 <= index <= n <==> 0 <= Ind(index) < n
    ensures Ind(index) + 1 == index
  {
  }

  /** min_no_none raises exactly on a row without entries, and otherwise returns its least entry. */
  lemma MinEntryRaises(row: Row)
    ensures MinEntry(row).None? <==> !HasEntry(row)
    ensures MinEntry(row).Some? ==> MinEntry(row).value == MinNoNone(row)
  {
  }

  /**
   * subtract_min of the draft: each row in turn loses its minimum, which is
   * added to the sum; a row without entries raises ValueError. Where it does
   * not raise it agrees with the solver's subtract_min.
   */
  method SubtractMin(matrix: Matrix) returns (r: Result<(Matrix, int)>)
    ensures r.Success? <==> EveryRowHasEntry(matrix)
    ensures r.Success? ==> r.value == (ReduceRows(matrix), SumMins(matrix))
  {
    var m, subs := matrix, 0;
    var i := 0;
    while i < |m|
      invariant 0 <= i <= |m| == |matrix|
      invariant forall k :: 0 <= k < i ==> HasEntry(matrix[k])
      invariant forall k :: 0 <= k < i ==> m[k] == ReduceRow(matrix[k])
      invariant forall k :: i <= k < |m| ==> m[k] == matrix[k]
      invariant subs == SumMins(matrix[..i])
    {
      var minX := MinEntry(m[i]);
      if minX.None? {
        assert !HasEntry(matrix[i]);
        return Failure("ValueError");
      }
      assert matrix[..i + 1][..i] == matrix[..i];
      subs := subs + minX.value;
      m := m[i := Shifted(m[i], minX.value)];
      i := i + 1;
    }
    assert matrix[..i] == matrix;
    assert m == ReduceRows(matrix);
    return Success((m, subs));
  }

  /** The row pass keeps every None cell, so it keeps the columns that have an entry. */
  lemma RowPassKeepsColumnEntries(m: Matrix)
    requires Rectangular(m)
    ensures Rectangular(ReduceRows(m))
    ensures EveryRowHasEntry(Transpose(ReduceRows(m))) <==> EveryRowHasEntry(Transpose(m))
  {
    var rr := ReduceRows(m);
    forall i | 0 <= i < |m| { ReduceRowFacts(m[i]); }
    var t, tr := Transpose(m), Transpose(rr);
    forall j | 0 <= j < |t|
      ensures HasEntry(t[j]) <==> HasEntry(tr[j])
    {
      assert forall i :: 0 <= i < |m| ==> (t[j][i].Some? <==> tr[j][i].Some?);
    }
  }

  /**
   * The top level of the draft: zeros become None, one row pass, one column
   * pass through the transpose, and the bound of the root is the sum of both
   * passes' minima. It raises when a row or a column of C' has no entry, and
   * otherwise computes what the solver's simplify computes. Returned with the
   * transposed matrix the penalty scan reads.
   */
  method ReduceScript(c: seq<seq<int>>) returns (r: Result<(Matrix, Matrix, int)>)
    requires forall i :: 0 <= i < |c| ==> |c[i]| == |c[0]|
    ensures r.Success? <==> EveryRowHasEntry(ZerosToNone(c)) && EveryRowHasEntry(Transpose(ZerosToNone(c)))
    ensures r.Success? ==>
      r.value.0 == Reduce(ZerosToNone(c)) && r.value.1 == Transpose(r.value.0)
      && r.value.2 == ReductionTotal(ZerosToNone(c))
  {
    var cPrime := ConvertZeros(c);
    var sumSubtrahends := 0;
    var rows := SubtractMin(cPrime);
    if rows.Failure? {
      return Failure(rows.error);
    }
    sumSubtrahends := sumSubtrahends + rows.value.1;
    RowPassKeepsColumnEntries(cPrime);
    var cPrimeT := Transpose(rows.value.0);
    var cols := SubtractMin(cPrimeT);
    if cols.Failure? {
      return Failure(cols.error);
    }
    sumSubtrahends := sumSubtrahends + cols.value.1;
    cPrimeT := cols.value.0;
    var reduced := Transpose(cPrimeT);
    RootTransposeBack(cPrime);
    return Success((reduced, cPrimeT, sumSubtrahends));
  }

  /** When every row has an entry, transposing the reduced matrix gives the column pass back. */
  lemma RootTransposeBack(m: Matrix)
    requires Rectangular(m) && EveryRowHasEntry(m)
    ensures Rectangular(Transpose(ReduceRows(m))) && Rectangular(ReduceRows(Transpose(ReduceRows(m))))
    ensures Transpose(Reduce(m)) == ReduceRows(Transpose(ReduceRows(m)))
  {
    var tr := ReduceRows(Transpose(ReduceRows(m)));
    if |m| > 0 {
      assert HasEntry(m[0]);
    }
    assert |tr| == 0 || Width(tr) > 0;
    TransposeTwice(tr);
  }

  /**
   * Both minima of D(i, j) exist: row i has an entry outside column j and
   * column j has one outside row i, so neither min_no_element raises.
   */
  predicate Answerable(m: Matrix, c: Pos)
  {
    Rectangular(m) && c.0 < |m| && c.1 < Width(m)
    && HasOtherEntry(m[c.0], c.1) && HasOtherEntry(Column(m, c.1), c.0)
  }

  /**
   * The draft's last loop: D(i, j) for every zero cell of the reduced
   * matrix, row by row, read through the matrix and its transpose. The
   * values are the penalties of the zero cells in row-major order; the loop
   * raises ValueError at the first zero cell one of whose minima is empty.
   */
  method PenaltyScan(cPrime: Matrix, cPrimeT: Matrix) returns (r: Result<seq<int>>)
    requires Rectangular(cPrime) && cPrimeT == Transpose(cPrime)
    ensures r.Success? <==> forall c: Pos :: IsZeroCell(cPrime, c) ==> Answerable(cPrime, c)
    ensures r.Success? ==> ValidCells(cPrime, ZeroCells(cPrime)) && r.value == Penalties(cPrime, ZeroCells(cPrime))
  {
    var ds: seq<int> := [];
    var i := 0;
    while i < |cPrime|
      invariant 0 <= i <= |cPrime|
      invariant ValidCells(cPrime, ZeroCellsBefore(cPrime, i))
      invariant ds == Penalties(cPrime, ZeroCellsBefore(cPrime, i))
      invariant forall c: Pos :: IsZeroCell(cPrime, c) && c.0 < i ==> Answerable(cPrime, c)
    {
      var j := 0;
      ghost var done := ZeroCellsBefore(cPrime, i);
      assert ZeroCellsInRow(cPrime, i, 0) == [];
      while j < |cPrime[i]|
        invariant 0 <= j <= |cPrime[i]| == Width(cPrime)
        invariant done == ZeroCellsBefore(cPrime, i) + ZeroCellsInRow(cPrime, i, j)
        invariant ValidCells(cPrime, done) && ds == Penalties(cPrime, done)
        invariant forall c: Pos :: IsZeroCell(cPrime, c) && (c.0 < i || (c.0 == i && c.1 < j)) ==> Answerable(cPrime, c)
      {
        RowScanStep(cPrime, i, j);
        if cPrime[i][j] == Some(0) {
          var d := ZeroCellPenalty(cPrime, cPrimeT, i, j);
          if d.Failure? {
            return Failure(d.error);
          }
          var cell: Pos := (i, j);
          ScanOneMore(cPrime, done, cell, ds, d.value);
          ds := ds + [d.value];
          done := done + [cell];
        } else {
          assert done + [] == done;
        }
        j := j + 1;
      }
      i := i + 1;
    }
    return Success(ds);
  }

  /**
   * D_ij of one zero cell: min_no_element of row i without column j plus
   * min_no_element of column j, read as row j of the transpose, without row i.
   * It raises ValueError exactly when one of the two is empty.
   */
  method ZeroCellPenalty(cPrime: Matrix, cPrimeT: Matrix, i: nat, j: nat) returns (r: Result<int>)
    requires Rectangular(cPrime) && cPrimeT == Transpose(cPrime) && i < |cPrime| && j < Width(cPrime)
    ensures r.Success? <==> Answerable(cPrime, (i, j))
    ensures r.Success? ==> r.value == Penalty(cPrime, (i, j))
  {
    assert cPrimeT[j] == Column(cPrime, j);
    var dRow := MinEntryWithout(cPrime[i], j);
    var dCol := MinEntryWithout(cPrimeT[j], i);
    if dRow.None? || dCol.None? {
      return Failure("ValueError");
    }
    PenaltyByTranspose(cPrime, cPrimeT, i, j);
    return Success(dRow.value + dCol.value);
  }

  /** One more penalty printed: the list grows by the penalty of the next zero cell. */
  lemma ScanOneMore(m: Matrix, done: seq<Pos>, c: Pos, ds: seq<int>, d: int)
    requires ValidCells(m, done) && ds == Penalties(m, done)
    requires c.0 < |m| && c.1 < Width(m) && d == Penalty(m, c)
    ensures ValidCells(m, done + [c]) && ds + [d] == Penalties(m, done + [c])
  {
    PenaltiesSnoc(m, done, c);
  }
}
