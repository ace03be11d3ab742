/**
 * The working matrix C' of the search together with its index maps, as the
 * solver keeps them: row_map[k] and col_map[k] name the city of the k-th
 * remaining row and column. The operations change C' and the maps in place.
 */
module MatrixState {
  import opened Wrappers
  import opened Reduction
  import opened Tours
  import opened WorkingMatrix
  import opened SearchTree

  /** Deleting a row and a column keeps every remaining cell, so no cell turns negative. */
  lemma DeleteRowColNonNegative(m: Matrix, n: nat, r: nat, c: nat)
    requires Square(m, n) && r < n && c < n && NonNegative(m)
    ensures NonNegative(WorkingMatrix.DeleteRowCol(m, r, c))
  {
    DeleteRowColCells(m, n, r, c);
  }

  /** Committing an arc only deletes and forbids cells, so no cell turns negative. */
  lemma CommitArcNonNegative(m: Matrix, rowMap: seq<int>, colMap: seq<int>, i: int, j: int)
    requires Mapped(m, rowMap, colMap) && NonNegative(m)
    ensures CommitArc(m, rowMap, colMap, i, j).Some? ==> NonNegative(CommitArc(m, rowMap, colMap, i, j).value.0)
  {
    if i in rowMap && j in colMap {
      var r, k := IndexOf(rowMap, i).value, IndexOf(colMap, j).value;
      var d := WorkingMatrix.DeleteRowCol(m, r, k);
      DeleteRowColNonNegative(m, |rowMap|, r, k);
      DisableOnNonNegative(d, RemoveAt(rowMap, r), RemoveAt(colMap, k), j, i);
      assert CommitArc(m, rowMap, colMap, i, j).value.0 == DisableOn(d, RemoveAt(rowMap, r), RemoveAt(colMap, k), j, i);
    }
  }

  /** Forbidding a cell never makes a cell negative. */
  lemma DisableOnNonNegative(m: Matrix, rowMap: seq<int>, colMap: seq<int>, a: int, b: int)
    requires NonNegative(m)
    ensures NonNegative(DisableOn(m, rowMap, colMap, a, b))
  {
  }

  /**
   * block_5 on C' and the maps: commit arc i -> j, then simplify; with the
   * sum of the subtrahends. None where list.index raises.
   */
  function CommitReduce(m: Matrix, rowMap: seq<int>, colMap: seq<int>, i: int, j: int): Option<(Matrix, seq<int>, seq<int>, int)>
    requires Mapped(m, rowMap, colMap)
  {
    match CommitArc(m, rowMap, colMap, i, j)
    case None => None
    case Some((m', rm, cm)) =>
      SquareRectangular(m', |rm|);
      Some((Reduce(m'), rm, cm, ReductionTotal(m')))
  }

  /**
   * The commit succeeds exactly when both cities are still in the maps; it
   * leaves a mapped matrix one city smaller with no negative cell, and the
   * amount subtracted is never negative while no cell of C' is.
   */
  lemma CommitReduceFacts(m: Matrix, rowMap: seq<int>, colMap: seq<int>, i: int, j: int)
    requires Mapped(m, rowMap, colMap)
    ensures CommitReduce(m, rowMap, colMap, i, j).Some? <==> i in rowMap && j in colMap
    ensures CommitReduce(m, rowMap, colMap, i, j).Some? ==>
      var (m', rm, cm, sum) := CommitReduce(m, rowMap, colMap, i, j).value;
      Mapped(m', rm, cm) && |rm| == |rowMap| - 1 && NonNegative(m')
      && (NonNegative(m) ==> sum >= 0)
  {
    CommitArcShape(m, rowMap, colMap, i, j);
    if i in rowMap && j in colMap {
      var (m1, rm, cm) := CommitArc(m, rowMap, colMap, i, j).value;
      SquareRectangular(m1, |rm|);
      ReduceSquare(m1, |rm|);
      ReduceNonNegative(m1);
      if NonNegative(m) {
        CommitArcNonNegative(m, rowMap, colMap, i, j);
        ReductionTotalNonNegative(m1);
      }
    }
  }

  class IndexedMatrix {
    var cPrime: Matrix
    var rowMap: seq<int>
    var colMap: seq<int>

    /** len(row_map) == len(col_map) == the dimension of C', each map without repeats. */
    predicate Valid()
      reads this
    {
      Mapped(cPrime, rowMap, colMap)
    }

    constructor ()
      ensures Valid() && cPrime == [] && rowMap == [] && colMap == []
    {
      cPrime := [];
      rowMap := [];
      colMap := [];
    }

    /** reset_row_col_map: both maps name the rows and columns 1..n. */
    method ResetRowColMap()
      requires Square(cPrime, |cPrime|)
      modifies this`rowMap, this`colMap
      ensures Valid() && rowMap == Ids(|cPrime|) && colMap == Ids(|cPrime|)
    {
      rowMap := seq(|cPrime|, k => k + 1);
      colMap := seq(|cPrime|, k => k + 1);
      IdsDistinct(|cPrime|);
    }

    /** reset_C_prime: C' becomes a copy of C with identity maps. */
    method ResetCPrime(c: Matrix)
      requires Square(c, |c|)
      modifies this
      ensures Valid() && cPrime == c && rowMap == Ids(|c|) && colMap == Ids(|c|)
    {
      cPrime := c;
      ResetRowColMap();
    }

    /** fix_map_on_delete: drop the two cities from the maps; false where list.index raises. */
    method FixMapOnDelete(rowFromMap: int, colFromMap: int) returns (ok: bool)
      modifies this`rowMap, this`colMap
      ensures ok <==> rowFromMap in old(rowMap) && colFromMap in old(colMap)
      ensures ok ==> (rowMap == RemoveAt(old(rowMap), IndexOf(old(rowMap), rowFromMap).value)
        && colMap == RemoveAt(old(colMap), IndexOf(old(colMap), colFromMap).value))
      ensures !ok ==> rowMap == old(rowMap) && colMap == old(colMap)
    {
      var rowIndex := IndexOf(rowMap, rowFromMap);
      var colIndex := IndexOf(colMap, colFromMap);
      if rowIndex.None? || colIndex.None? {
        return false;
      }
      rowMap := rowMap[..rowIndex.value] + rowMap[rowIndex.value + 1..];
      colMap := colMap[..colIndex.value] + colMap[colIndex.value + 1..];
      return true;
    }

    /**
     * delete_row_col: delete the row of city iRow and the column of city
     * jCol, then both map entries; false where list.index raises.
     */
    method DeleteRowCol(iRow: int, jCol: int) returns (ok: bool)
      requires Valid()
      modifies this
      ensures Valid()
      ensures ok <==> iRow in old(rowMap) && jCol in old(colMap)
      ensures ok ==>
        var r, k := IndexOf(old(rowMap), iRow).value, IndexOf(old(colMap), jCol).value;
        cPrime == WorkingMatrix.DeleteRowCol(old(cPrime), r, k)
        && rowMap == RemoveAt(old(rowMap), r) && colMap == RemoveAt(old(colMap), k)
      ensures !ok ==> cPrime == old(cPrime) && rowMap == old(rowMap) && colMap == old(colMap)
    {
      var r := IndexOf(rowMap, iRow);
      var k := IndexOf(colMap, jCol);
      if r.None? || k.None? {
        return false;
      }
      DeleteRowColCells(cPrime, |rowMap|, r.value, k.value);
      DeleteRowColByTransposes(cPrime, |rowMap|, r.value, k.value);
      RemoveAtDistinct(rowMap, r.value);
      RemoveAtDistinct(colMap, k.value);
      SquareRectangular(cPrime, |rowMap|);
      cPrime := RemoveRow(cPrime, r.value);
      var transposed := Transpose(cPrime);
      transposed := if k.value < |transposed| then RemoveRow(transposed, k.value) else transposed;
      cPrime := Transpose(transposed);
      ok := FixMapOnDelete(iRow, jCol);
    }

    /** disable_path: forbid arc iRow -> jCol when both cities are still in C'. */
    method DisablePath(iRow: int, jCol: int)
      requires Valid()
      modifies this`cPrime
      ensures Valid()
      ensures cPrime == DisableOn(old(cPrime), rowMap, colMap, iRow, jCol)
    {
      DisableOnCells(cPrime, rowMap, colMap, iRow, jCol);
      if iRow in rowMap && jCol in colMap {
        cPrime := Forbid(cPrime, IndexOf(rowMap, iRow).value, IndexOf(colMap, jCol).value);
      }
    }

    /** delete_row_col(i, j) followed by disable_path(j, i): arc i -> j is committed. */
    method Commit(i: int, j: int) returns (ok: bool)
      requires Valid()
      modifies this
      ensures Valid()
      ensures ok <==> i in old(rowMap) && j in old(colMap)
      ensures ok ==> CommitArc(old(cPrime), old(rowMap), old(colMap), i, j) == Some((cPrime, rowMap, colMap))
      ensures !ok ==> cPrime == old(cPrime) && rowMap == old(rowMap) && colMap == old(colMap)
    {
      ok := DeleteRowCol(i, j);
      if ok {
        DisablePath(j, i);
      }
    }

    /** Block 5 on C': commit arc i -> j and reduce; false where list.index raises. */
    method CommitAndReduce(i: int, j: int) returns (ok: bool, sumSubtrahends: int)
      requires Valid()
      modifies this
      ensures Valid()
      ensures ok <==> i in old(rowMap) && j in old(colMap)
      ensures ok ==> CommitReduce(old(cPrime), old(rowMap), old(colMap), i, j) == Some((cPrime, rowMap, colMap, sumSubtrahends))
      ensures ok ==> NonNegative(cPrime) && (NonNegative(old(cPrime)) ==> sumSubtrahends >= 0)
      ensures ok ==> forall u :: u in rowMap <==> u in old(rowMap) && u != i
      ensures ok ==> forall v :: v in colMap <==> v in old(colMap) && v != j
      ensures !ok ==> cPrime == old(cPrime) && rowMap == old(rowMap) && colMap == old(colMap)
    {
      CommitArcShape(cPrime, rowMap, colMap, i, j);
      if NonNegative(cPrime) {
        CommitArcNonNegative(cPrime, rowMap, colMap, i, j);
      }
      ok := Commit(i, j);
      if !ok {
        return false, 0;
      }
      SquareRectangular(cPrime, |rowMap|);
      if NonNegative(cPrime) {
        ReductionTotalNonNegative(cPrime);
      }
      sumSubtrahends := Simplify();
    }

    /** C', sum = simplify(C'): reduce in place and return what was subtracted. */
    method Simplify() returns (sumSubtrahends: int)
      requires Valid()
      modifies this`cPrime
      ensures Valid()
      ensures cPrime == Reduce(old(cPrime)) && sumSubtrahends == ReductionTotal(old(cPrime))
      ensures NonNegative(cPrime)
    {
      SquareRectangular(cPrime, |rowMap|);
      ReduceSquare(cPrime, |rowMap|);
      ReduceNonNegative(cPrime);
      cPrime, sumSubtrahends := Reduction.Simplify(cPrime);
    }
  }
}
