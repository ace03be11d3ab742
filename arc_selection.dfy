/**
 * Penalty selection (find_max_Dij): for every zero cell (i, j) of the working
 * matrix, D(i, j) is the smallest other cell of row i plus the smallest other
 * cell of column j, the cost of forbidding arc (i, j). The selector returns the
 * largest D (0 when no zero cell beats 0) and every zero cell reaching it, in
 * row-major order, named by the original city ids of its row and column.
 */
module ArcSelection {
  import opened Wrappers
  import opened Reduction

  /** A position (row, column) of the working matrix. */
  type Pos = (nat, nat)

  predicate ValidCells(m: Matrix, cells: seq<Pos>)
  {
    Rectangular(m) && forall k :: 0 <= k < |cells| ==> cells[k].0 < |m| && cells[k].1 < Width(m)
  }

  /**
   * The smallest entry among the cells of row other than the one at index,
   * None when there is none; a fold from the end with no quantified contract,
   * so that penalties stay cheap to mention.
   */
  function OtherMin(row: Row, index: nat): Option<int>
  {
    if |row| == 0 then None
    else
      var n := |row| - 1;
      var rest := OtherMin(row[..n], index);
      if n == index || row[n].None? then rest
      else if rest.None? || row[n].value < rest.value then row[n]
      else rest
  }

  lemma {:induction false} OtherMinFacts(row: Row, index: nat)
    ensures OtherMin(row, index).None? <==> !HasOtherEntry(row, index)
    ensures OtherMin(row, index).Some? ==>
      exists k :: 0 <= k < |row| && k != index && row[k] == OtherMin(row, index)
    ensures OtherMin(row, index).Some? ==>
      forall k :: 0 <= k < |row| && k != index && row[k].Some? ==> OtherMin(row, index).value <= row[k].value
  {
    if |row| > 0 {
      var n := |row| - 1;
      OtherMinFacts(row[..n], index);
      assert forall k :: 0 <= k < n ==> row[..n][k] == row[k];
    }
  }

  /** The fold agrees with min_no_element: both are the least other entry, or 0. */
  lemma OtherMinIsMinNoElement(row: Row, index: nat)
    ensures OtherMin(row, index).GetOr(0) == MinNoElement(row, index)
  {
    OtherMinFacts(row, index);
    if HasOtherEntry(row, index) {
      var a :| 0 <= a < |row| && a != index && row[a] == OtherMin(row, index);
      var b :| 0 <= b < |row| && b != index && row[b] == Some(MinNoElement(row, index));
    }
  }

  /** D(i, j) = min(row i without column j) + min(column j without row i). */
  function Penalty(m: Matrix, c: Pos): int
    requires Rectangular(m) && c.0 < |m| && c.1 < Width(m)
  {
    OtherMin(m[c.0], c.1).GetOr(0) + OtherMin(Column(m, c.1), c.0).GetOr(0)
  }

  /** The penalty is min_no_element of the row plus min_no_element of the column. */
  lemma PenaltyIsMinNoElements(m: Matrix, c: Pos)
    requires Rectangular(m) && c.0 < |m| && c.1 < Width(m)
    ensures Penalty(m, c) == MinNoElement(m[c.0], c.1) + MinNoElement(Column(m, c.1), c.0)
  {
    OtherMinIsMinNoElement(m[c.0], c.1);
    OtherMinIsMinNoElement(Column(m, c.1), c.0);
  }

  /** In a matrix without negative cells no penalty is negative. */
  lemma PenaltyNonNegative(m: Matrix, c: Pos)
    requires Rectangular(m) && c.0 < |m| && c.1 < Width(m) && NonNegative(m)
    ensures Penalty(m, c) >= 0
  {
    var row := m[c.0];
    var col := Column(m, c.1);
    OtherMinFacts(row, c.1);
    OtherMinFacts(col, c.0);
    if HasOtherEntry(row, c.1) {
      var k :| 0 <= k < |row| && k != c.1 && row[k] == OtherMin(row, c.1);
    }
    if HasOtherEntry(col, c.0) {
      var k :| 0 <= k < |col| && k != c.0 && col[k] == OtherMin(col, c.0);
      assert col[k] == m[k][c.1];
    }
  }

  // ------------------------------------------------------------------
  // The zero cells, in the order of the nested scan
  // ------------------------------------------------------------------

  /** The zero cells (i, k) of row i with k < j, left to right. */
  function ZeroCellsInRow(m: Matrix, i: nat, j: nat): seq<Pos>
    requires i < |m| && j <= |m[i]|
  {
    if j == 0 then []
    else ZeroCellsInRow(m, i, j - 1) + (if m[i][j - 1] == Some(0) then [(i, j - 1)] else [])
  }

  /** The zero cells of the rows above row i, row by row. */
  function ZeroCellsBefore(m: Matrix, i: nat): seq<Pos>
    requires i <= |m|
  {
    if i == 0 then [] else ZeroCellsBefore(m, i - 1) + ZeroCellsInRow(m, i - 1, |m[i - 1]|)
  }

  /** All zero cells in row-major order. */
  function ZeroCells(m: Matrix): seq<Pos>
  {
    ZeroCellsBefore(m, |m|)
  }

  predicate IsZeroCell(m: Matrix, c: Pos)
  {
    c.0 < |m| && c.1 < |m[c.0]| && m[c.0][c.1] == Some(0)
  }

  /** Row-major order of positions. */
  predicate Before(a: Pos, b: Pos)
  {
    a.0 < b.0 || (a.0 == b.0 && a.1 < b.1)
  }

  predicate RowMajor(cells: seq<Pos>)
  {
    forall p, q :: 0 <= p < q < |cells| ==> Before(cells[p], cells[q])
  }

  /** In a row-major list, the earlier position sits at the earlier index. */
  lemma RowMajorIndex(xs: seq<Pos>, p: nat, q: nat)
    requires RowMajor(xs) && p < |xs| && q < |xs| && Before(xs[p], xs[q])
    ensures p < q
  {
  }

  lemma {:induction false} ZeroCellsInRowExact(m: Matrix, i: nat, j: nat)
    requires i < |m| && j <= |m[i]|
    ensures forall c :: c in ZeroCellsInRow(m, i, j) <==> c.0 == i && c.1 < j && m[i][c.1] == Some(0)
    ensures RowMajor(ZeroCellsInRow(m, i, j))
  {
    if j > 0 {
      ZeroCellsInRowExact(m, i, j - 1);
    }
  }

  lemma {:induction false} ZeroCellsBeforeExact(m: Matrix, i: nat)
    requires i <= |m|
    ensures forall c :: c in ZeroCellsBefore(m, i) <==> c.0 < i && IsZeroCell(m, c)
    ensures RowMajor(ZeroCellsBefore(m, i))
  {
    if i > 0 {
      ZeroCellsBeforeExact(m, i - 1);
      ZeroCellsInRowExact(m, i - 1, |m[i - 1]|);
      var a := ZeroCellsBefore(m, i - 1);
      var b := ZeroCellsInRow(m, i - 1, |m[i - 1]|);
      assert forall p, q :: 0 <= p < |a| && 0 <= q < |b| ==> Before(a[p], b[q]) by {
        forall p, q | 0 <= p < |a| && 0 <= q < |b| ensures Before(a[p], b[q]) {
          assert a[p] in a && b[q] in b;
        }
      }
      assert forall p :: 0 <= p < |a| + |b| ==> (a + b)[p] == if p < |a| then a[p] else b[p - |a|];
    }
  }

  /** ZeroCells holds exactly the zero cells, each once, in row-major order. */
  lemma ZeroCellsExact(m: Matrix)
    ensures forall c :: c in ZeroCells(m) <==> IsZeroCell(m, c)
    ensures RowMajor(ZeroCells(m))
  {
    ZeroCellsBeforeExact(m, |m|);
  }

  lemma ZeroCellsValid(m: Matrix)
    requires Rectangular(m)
    ensures ValidCells(m, ZeroCells(m))
  {
    ZeroCellsExact(m);
    forall k | 0 <= k < |ZeroCells(m)|
      ensures ZeroCells(m)[k].0 < |m| && ZeroCells(m)[k].1 < Width(m)
    {
      assert ZeroCells(m)[k] in ZeroCells(m);
    }
  }


  // ------------------------------------------------------------------
  // The running maximum and the selection, over plain penalty values
  // ------------------------------------------------------------------

  /** The penalties of the given cells, in order. */
  function Penalties(m: Matrix, cells: seq<Pos>): (ds: seq<int>)
    requires ValidCells(m, cells)
    ensures |ds| == |cells|
  {
    seq(|cells|, k requires 0 <= k < |cells| => Penalty(m, cells[k]))
  }

  lemma PenaltiesAt(m: Matrix, cells: seq<Pos>, k: nat)
    requires ValidCells(m, cells) && k < |cells|
    ensures Penalties(m, cells)[k] == Penalty(m, cells[k])
  {
  }

  /** The running maximum of the scan: it starts at 0 and only moves on a strictly larger value. */
  function Largest(ds: seq<int>): int
  {
    if |ds| == 0 then 0
    else
      var p := Largest(ds[..|ds| - 1]);
      var d := ds[|ds| - 1];
      if d > p then d else p
  }

  /** The xs whose paired value in ds is v, in their order. */
  function Select<T>(xs: seq<T>, ds: seq<int>, v: int): (r: seq<T>)
    requires |xs| == |ds|
    ensures forall x :: x in r ==> x in xs
  {
    if |xs| == 0 then []
    else
      Select(xs[..|xs| - 1], ds[..|ds| - 1], v) + (if ds[|ds| - 1] == v then [xs[|xs| - 1]] else [])
  }

  /** The maximum is at least 0, bounds every value, and is 0 or one of the values. */
  lemma {:induction false} LargestIsMax(ds: seq<int>)
    ensures Largest(ds) >= 0
    ensures forall k :: 0 <= k < |ds| ==> ds[k] <= Largest(ds)
    ensures Largest(ds) == 0 || exists k :: 0 <= k < |ds| && ds[k] == Largest(ds)
  {
    if |ds| > 0 {
      var init := ds[..|ds| - 1];
      LargestIsMax(init);
      assert forall k :: 0 <= k < |init| ==> init[k] == ds[k];
      if Largest(ds) != 0 && ds[|ds| - 1] != Largest(ds) {
        var k :| 0 <= k < |init| && init[k] == Largest(init);
        assert ds[k] == Largest(ds);
      }
    }
  }

  /** An element is selected exactly when it sits at a position whose value is v. */
  lemma {:induction false} SelectExact<T>(xs: seq<T>, ds: seq<int>, v: int)
    requires |xs| == |ds|
    ensures forall x :: x in Select(xs, ds, v) <==> exists k :: 0 <= k < |xs| && xs[k] == x && ds[k] == v
  {
    if |xs| > 0 {
      var n := |xs| - 1;
      SelectExact(xs[..n], ds[..n], v);
      forall x | exists k :: 0 <= k < |xs| && xs[k] == x && ds[k] == v
        ensures x in Select(xs, ds, v)
      {
        var k :| 0 <= k < |xs| && xs[k] == x && ds[k] == v;
        if k < n {
          assert xs[..n][k] == x && ds[..n][k] == v;
        }
      }
    }
  }

  /** Nothing is selected at a value above the maximum. */
  lemma {:induction false} SelectAboveLargest<T>(xs: seq<T>, ds: seq<int>, v: int)
    requires |xs| == |ds| && v > Largest(ds)
    ensures Select(xs, ds, v) == []
  {
    if |xs| > 0 {
      SelectAboveLargest(xs[..|xs| - 1], ds[..|ds| - 1], v);
    }
  }

  /** An empty selection means no position holds v. */
  lemma {:induction false} SelectEmpty<T>(xs: seq<T>, ds: seq<int>, v: int)
    requires |xs| == |ds| && Select(xs, ds, v) == []
    ensures forall q :: 0 <= q < |ds| ==> ds[q] != v
  {
    if |xs| > 0 {
      var n := |xs| - 1;
      SelectEmpty(xs[..n], ds[..n], v);
      assert forall q :: 0 <= q < n ==> ds[..n][q] == ds[q];
    }
  }

  /** The selection keeps row-major order, and its head is the first position holding v. */
  lemma {:induction false} SelectOrder(xs: seq<Pos>, ds: seq<int>, v: int)
    requires |xs| == |ds| && RowMajor(xs)
    ensures RowMajor(Select(xs, ds, v))
    ensures Select(xs, ds, v) != [] ==>
      exists k :: 0 <= k < |xs| && Select(xs, ds, v)[0] == xs[k] && ds[k] == v
        && forall q :: 0 <= q < k ==> ds[q] != v
  {
    if |xs| > 0 {
      var n := |xs| - 1;
      var init := xs[..n];
      var a := Select(init, ds[..n], v);
      assert RowMajor(init);
      SelectOrder(init, ds[..n], v);
      assert forall p :: 0 <= p < |a| ==> Before(a[p], xs[n]) by {
        forall p | 0 <= p < |a| ensures Before(a[p], xs[n]) {
          assert a[p] in init;
          var q :| 0 <= q < n && init[q] == a[p];
        }
      }
      if a == [] && Select(xs, ds, v) != [] {
        SelectEmpty(init, ds[..n], v);
        assert forall q :: 0 <= q < n ==> ds[..n][q] == ds[q];
      } else if a != [] {
        var k :| 0 <= k < n && a[0] == init[k] && ds[..n][k] == v && forall q :: 0 <= q < k ==> ds[..n][q] != v;
        assert forall q :: 0 <= q < k ==> ds[q] == ds[..n][q];
      }
    }
  }

  /** When v is the maximum, the head of the selection is at position k, and every earlier position holds less. */
  lemma SelectHead(xs: seq<Pos>, ds: seq<int>, v: int) returns (k: nat)
    requires |xs| == |ds| && RowMajor(xs) && v == Largest(ds) && Select(xs, ds, v) != []
    ensures k < |xs| && Select(xs, ds, v)[0] == xs[k] && ds[k] == v
    ensures forall q :: 0 <= q < |xs| && Before(xs[q], xs[k]) ==> ds[q] < v
  {
    LargestIsMax(ds);
    SelectOrder(xs, ds, v);
    k :| 0 <= k < |xs| && Select(xs, ds, v)[0] == xs[k] && ds[k] == v
      && forall q :: 0 <= q < k ==> ds[q] != v;
    forall q | 0 <= q < |xs| && Before(xs[q], xs[k]) ensures ds[q] < v {
      RowMajorIndex(xs, q, k);
    }
  }

  lemma LargestSnoc(ds: seq<int>, d: int)
    ensures Largest(ds + [d]) == if d > Largest(ds) then d else Largest(ds)
  {
    assert (ds + [d])[..|ds|] == ds;
  }

  lemma SelectSnoc<T>(xs: seq<T>, ds: seq<int>, x: T, d: int, v: int)
    requires |xs| == |ds|
    ensures Select(xs + [x], ds + [d], v) == Select(xs, ds, v) + (if d == v then [x] else [])
  {
    assert (xs + [x])[..|xs|] == xs;
    assert (ds + [d])[..|ds|] == ds;
  }

  // ------------------------------------------------------------------
  // The result of find_max_Dij, on positions
  // ------------------------------------------------------------------

  /** The largest penalty over all zero cells (0 when none is positive). */
  function MaxPenalty(m: Matrix): int
    requires Rectangular(m)
  {
    ZeroCellsValid(m);
    Largest(Penalties(m, ZeroCells(m)))
  }

  /** The zero cells whose penalty is the largest, in row-major order. */
  function MaxPaths(m: Matrix): (r: seq<Pos>)
    requires Rectangular(m)
    ensures ValidCells(m, r)
  {
    ZeroCellsValid(m);
    var cells := ZeroCells(m);
    var r := Select(cells, Penalties(m, cells), MaxPenalty(m));
    assert forall k :: 0 <= k < |r| ==> r[k] in cells;
    r
  }

  /** Every zero cell's penalty is at most the maximum, which is 0 or reached by a zero cell. */
  lemma MaxPenaltyIsMax(m: Matrix)
    requires Rectangular(m)
    ensures MaxPenalty(m) >= 0
    ensures forall c :: IsZeroCell(m, c) ==> Penalty(m, c) <= MaxPenalty(m)
    ensures MaxPenalty(m) == 0 || exists c :: IsZeroCell(m, c) && Penalty(m, c) == MaxPenalty(m)
  {
    ZeroCellsValid(m);
    ZeroCellsExact(m);
    var cells := ZeroCells(m);
    var ds := Penalties(m, cells);
    LargestIsMax(ds);
    forall c | IsZeroCell(m, c) ensures Penalty(m, c) <= MaxPenalty(m) {
      assert c in cells;
      var k :| 0 <= k < |cells| && cells[k] == c;
      PenaltiesAt(m, cells, k);
      assert ds[k] <= Largest(ds);
    }
    if MaxPenalty(m) != 0 {
      var k :| 0 <= k < |ds| && ds[k] == Largest(ds);
      PenaltiesAt(m, cells, k);
      assert cells[k] in cells;
      assert IsZeroCell(m, cells[k]);
    }
  }

  /** A cell is listed exactly when it is a zero cell whose penalty is the maximum. */
  lemma MaxPathsExact(m: Matrix)
    requires Rectangular(m)
    ensures forall c :: c in MaxPaths(m) <==> IsZeroCell(m, c) && Penalty(m, c) == MaxPenalty(m)
  {
    ZeroCellsValid(m);
    ZeroCellsExact(m);
    var cells := ZeroCells(m);
    var ds := Penalties(m, cells);
    SelectExact(cells, ds, MaxPenalty(m));
    forall k | 0 <= k < |cells| ensures ds[k] == Penalty(m, cells[k]) {
      PenaltiesAt(m, cells, k);
    }
    forall c | IsZeroCell(m, c) && Penalty(m, c) == MaxPenalty(m) ensures c in MaxPaths(m) {
      assert c in cells;
      var k :| 0 <= k < |cells| && cells[k] == c;
      assert ds[k] == MaxPenalty(m);
    }
  }

  /**
   * The list is in row-major order, and its head (the arc the search branches
   * on) is the first zero cell in row-major order that reaches the maximum.
   */
  lemma MaxPathsOrder(m: Matrix)
    requires Rectangular(m)
    ensures RowMajor(MaxPaths(m))
    ensures MaxPaths(m) != [] ==>
      IsZeroCell(m, MaxPaths(m)[0]) && Penalty(m, MaxPaths(m)[0]) == MaxPenalty(m)
      && forall c :: IsZeroCell(m, c) && Before(c, MaxPaths(m)[0]) ==> Penalty(m, c) < MaxPenalty(m)
  {
    ZeroCellsValid(m);
    ZeroCellsExact(m);
    var cells := ZeroCells(m);
    var ds := Penalties(m, cells);
    var mx := Largest(ds);
    SelectOrder(cells, ds, mx);
    var r := Select(cells, ds, mx);
    if r != [] {
      var k := SelectHead(cells, ds, mx);
      PenaltiesAt(m, cells, k);
      assert cells[k] in cells;
      forall c | IsZeroCell(m, c) && Before(c, r[0]) ensures Penalty(m, c) < mx {
        assert c in cells;
        var q :| 0 <= q < |cells| && cells[q] == c;
        PenaltiesAt(m, cells, q);
      }
    }
  }

  /** In a matrix without negative cells the list is empty exactly when there is no zero cell. */
  lemma PathsEmptyIffNoZeroCell(m: Matrix)
    requires Rectangular(m) && NonNegative(m)
    ensures MaxPaths(m) == [] <==> forall c :: !IsZeroCell(m, c)
  {
    MaxPenaltyIsMax(m);
    MaxPathsExact(m);
    if exists c :: IsZeroCell(m, c) {
      var c :| IsZeroCell(m, c);
      if MaxPenalty(m) == 0 {
        PenaltyNonNegative(m, c);
        assert c in MaxPaths(m);
      } else {
        var c' :| IsZeroCell(m, c') && Penalty(m, c') == MaxPenalty(m);
        assert c' in MaxPaths(m);
      }
    } else if MaxPaths(m) != [] {
      assert MaxPaths(m)[0] in MaxPaths(m);
    }
  }

  // ------------------------------------------------------------------
  // find_max_Dij
  // ------------------------------------------------------------------

  /** The positions named by original city ids: (row_map[i], col_map[j]). */
  function MapIds(cells: seq<Pos>, rowMap: seq<int>, colMap: seq<int>): (r: seq<(int, int)>)
    requires forall k :: 0 <= k < |cells| ==> cells[k].0 < |rowMap| && cells[k].1 < |colMap|
    ensures |r| == |cells|
    ensures forall k :: 0 <= k < |cells| ==> r[k] == (rowMap[cells[k].0], colMap[cells[k].1])
  {
    seq(|cells|, k requires 0 <= k < |cells| => (rowMap[cells[k].0], colMap[cells[k].1]))
  }

  /** D computed through the transposed matrix, as the scan does, is the penalty. */
  lemma PenaltyByTranspose(m: Matrix, mT: Matrix, i: nat, j: nat)
    requires Rectangular(m) && mT == Transpose(m) && i < |m| && j < Width(m)
    ensures MinNoElement(m[i], j) + MinNoElement(mT[j], i) == Penalty(m, (i, j))
  {
    assert mT[j] == Column(m, j);
    PenaltyIsMinNoElements(m, (i, j));
  }

  /** One more cell of row i scanned. */
  lemma RowScanStep(m: Matrix, i: nat, j: nat)
    requires i < |m| && j < |m[i]|
    ensures ZeroCellsBefore(m, i) + ZeroCellsInRow(m, i, j + 1)
      == ZeroCellsBefore(m, i) + ZeroCellsInRow(m, i, j) + (if m[i][j] == Some(0) then [(i, j)] else [])
  {
  }

  lemma PenaltiesSnoc(m: Matrix, done: seq<Pos>, c: Pos)
    requires ValidCells(m, done) && c.0 < |m| && c.1 < Width(m)
    ensures ValidCells(m, done + [c])
    ensures Penalties(m, done + [c]) == Penalties(m, done) + [Penalty(m, c)]
  {
    assert (done + [c])[..|done|] == done;
  }

  predicate IdsInRange(cells: seq<Pos>, rowMap: seq<int>, colMap: seq<int>)
  {
    forall k :: 0 <= k < |cells| ==> cells[k].0 < |rowMap| && cells[k].1 < |colMap|
  }

  /** The ids of the selected cells. */
  function SelectIds(cells: seq<Pos>, ds: seq<int>, v: int, rowMap: seq<int>, colMap: seq<int>): seq<(int, int)>
    requires |cells| == |ds| && IdsInRange(cells, rowMap, colMap)
  {
    var sel := Select(cells, ds, v);
    assert forall k :: 0 <= k < |sel| ==> sel[k] in cells;
    MapIds(sel, rowMap, colMap)
  }

  /**
   * The state of the scan after the cells `cells` with penalties `ds`: the
   * list of arcs and the running maximum, one cell at a time.
   */
  function Scan(cells: seq<Pos>, ds: seq<int>, rowMap: seq<int>, colMap: seq<int>): (seq<(int, int)>, int)
    requires |cells| == |ds| && IdsInRange(cells, rowMap, colMap)
  {
    if |cells| == 0 then ([], 0)
    else
      var n := |cells| - 1;
      assert IdsInRange(cells[..n], rowMap, colMap);
      var prev := Scan(cells[..n], ds[..n], rowMap, colMap);
      var c := cells[n];
      var id := (rowMap[c.0], colMap[c.1]);
      if ds[n] == prev.1 then (prev.0 + [id], prev.1)
      else if ds[n] > prev.1 then ([id], ds[n])
      else prev
  }

  lemma MapIdsSnoc(cells: seq<Pos>, c: Pos, rowMap: seq<int>, colMap: seq<int>)
    requires IdsInRange(cells, rowMap, colMap) && c.0 < |rowMap| && c.1 < |colMap|
    ensures IdsInRange(cells + [c], rowMap, colMap)
    ensures MapIds(cells + [c], rowMap, colMap) == MapIds(cells, rowMap, colMap) + [(rowMap[c.0], colMap[c.1])]
  {
  }

  /**
   * The scan computes the declarative answer: its maximum is the largest
   * value (from 0) and its list is the arcs of the cells reaching it.
   */
  lemma {:induction false} ScanMeaning(cells: seq<Pos>, ds: seq<int>, rowMap: seq<int>, colMap: seq<int>)
    requires |cells| == |ds| && IdsInRange(cells, rowMap, colMap)
    ensures Scan(cells, ds, rowMap, colMap) == (SelectIds(cells, ds, Largest(ds), rowMap, colMap), Largest(ds))
  {
    if |cells| > 0 {
      var n := |cells| - 1;
      var init := cells[..n];
      var c := cells[n];
      var d := ds[n];
      assert init + [c] == cells;
      assert ds[..n] + [d] == ds;
      assert IdsInRange(init, rowMap, colMap);
      ScanMeaning(init, ds[..n], rowMap, colMap);
      var mx := Largest(ds[..n]);
      LargestSnoc(ds[..n], d);
      SelectSnoc(init, ds[..n], c, d, mx);
      SelectSnoc(init, ds[..n], c, d, d);
      var sel := Select(init, ds[..n], mx);
      assert forall k :: 0 <= k < |sel| ==> sel[k] in init;
      MapIdsSnoc(sel, c, rowMap, colMap);
      if d > mx {
        SelectAboveLargest(init, ds[..n], d);
        assert Select(cells, ds, d) == [c];
        assert MapIds([c], rowMap, colMap) == [(rowMap[c.0], colMap[c.1])];
        assert SelectIds(cells, ds, d, rowMap, colMap) == [(rowMap[c.0], colMap[c.1])];
      } else if d == mx {
        assert Select(cells, ds, mx) == sel + [c];
        assert SelectIds(cells, ds, mx, rowMap, colMap) == MapIds(sel, rowMap, colMap) + [(rowMap[c.0], colMap[c.1])];
      } else {
        assert Select(cells, ds, mx) == sel;
      }
    }
  }

  lemma ScanSnoc(cells: seq<Pos>, ds: seq<int>, rowMap: seq<int>, colMap: seq<int>, c: Pos, d: int)
    requires |cells| == |ds| && IdsInRange(cells, rowMap, colMap) && c.0 < |rowMap| && c.1 < |colMap|
    ensures IdsInRange(cells + [c], rowMap, colMap)
    ensures var prev := Scan(cells, ds, rowMap, colMap);
      var id := (rowMap[c.0], colMap[c.1]);
      Scan(cells + [c], ds + [d], rowMap, colMap)
      == if d == prev.1 then (prev.0 + [id], prev.1) else if d > prev.1 then ([id], d) else prev
  {
    assert (cells + [c])[..|cells|] == cells;
    assert (ds + [d])[..|ds|] == ds;
  }

  /** The scan has processed the cells `done` and holds their result. */
  predicate Scanned(m: Matrix, rowMap: seq<int>, colMap: seq<int>, done: seq<Pos>, paths: seq<(int, int)>, maxDij: int)
  {
    ValidCells(m, done) && IdsInRange(done, rowMap, colMap)
    && (paths, maxDij) == Scan(done, Penalties(m, done), rowMap, colMap)
  }

  lemma ScannedSnoc(m: Matrix, rowMap: seq<int>, colMap: seq<int>, done: seq<Pos>, paths: seq<(int, int)>, maxDij: int, c: Pos)
    requires c.0 < |m| && c.1 < Width(m) && c.0 < |rowMap| && c.1 < |colMap|
    requires Scanned(m, rowMap, colMap, done, paths, maxDij)
    ensures var d := Penalty(m, c);
      var id := (rowMap[c.0], colMap[c.1]);
      Scanned(m, rowMap, colMap, done + [c],
        if d == maxDij then paths + [id] else if d > maxDij then [id] else paths,
        if d > maxDij then d else maxDij)
  {
    PenaltiesSnoc(m, done, c);
    ScanSnoc(done, Penalties(m, done), rowMap, colMap, c, Penalty(m, c));
  }

  /** D of cell (i, j): min_no_element of row i plus min_no_element of column j, read from the transpose. */
  method ComputeDij(m: Matrix, mT: Matrix, i: nat, j: nat) returns (dij: int)
    requires Rectangular(m) && mT == Transpose(m) && i < |m| && j < Width(m)
    ensures dij == Penalty(m, (i, j))
  {
    dij := MinNoElement(m[i], j) + MinNoElement(mT[j], i);
    PenaltyByTranspose(m, mT, i, j);
  }

  /**
   * One zero cell of the scan: compute D through the transposed matrix; an
   * equal D appends the cell's arc, a strictly larger one restarts the list.
   */
  method ScanZeroCell(m: Matrix, mT: Matrix, rowMap: seq<int>, colMap: seq<int>, i: nat, j: nat,
                      ghost done: seq<Pos>, paths: seq<(int, int)>, maxDij: int)
    returns (paths': seq<(int, int)>, maxDij': int)
    requires Rectangular(m) && mT == Transpose(m) && i < |m| && j < Width(m)
    requires |rowMap| >= |m| && |colMap| >= Width(m)
    requires Scanned(m, rowMap, colMap, done, paths, maxDij)
    ensures Scanned(m, rowMap, colMap, done + [(i, j)], paths', maxDij')
  {
    var dij := ComputeDij(m, mT, i, j);
    ScannedSnoc(m, rowMap, colMap, done, paths, maxDij, (i, j));
    paths', maxDij' := paths, maxDij;
    if dij == maxDij {
      paths' := paths + [(rowMap[i], colMap[j])];
    } else if dij > maxDij {
      maxDij' := dij;
      paths' := [(rowMap[i], colMap[j])];
    }
  }

  /** The inner loop of the scan: every cell of row i, left to right. */
  method ScanRow(m: Matrix, mT: Matrix, rowMap: seq<int>, colMap: seq<int>, i: nat,
                 paths0: seq<(int, int)>, maxDij0: int)
    returns (paths: seq<(int, int)>, maxDij: int)
    requires Rectangular(m) && mT == Transpose(m) && i < |m|
    requires |rowMap| >= |m| && |colMap| >= Width(m)
    requires Scanned(m, rowMap, colMap, ZeroCellsBefore(m, i), paths0, maxDij0)
    ensures Scanned(m, rowMap, colMap, ZeroCellsBefore(m, i + 1), paths, maxDij)
  {
    paths, maxDij := paths0, maxDij0;
    var row := m[i];
    ghost var done := ZeroCellsBefore(m, i);
    var j := 0;
    assert done + ZeroCellsInRow(m, i, 0) == done;
    while j < |row|
      invariant 0 <= j <= |row| == Width(m)
      invariant done == ZeroCellsBefore(m, i) + ZeroCellsInRow(m, i, j)
      invariant Scanned(m, rowMap, colMap, done, paths, maxDij)
    {
      RowScanStep(m, i, j);
      if row[j] == Some(0) {
        paths, maxDij := ScanZeroCell(m, mT, rowMap, colMap, i, j, done, paths, maxDij);
        done := done + [(i, j)];
      }
      j := j + 1;
    }
  }

  /**
   * find_max_Dij: one pass over the cells in row-major order, computing D for
   * each zero cell; the maximum starts at 0.
   */
  method FindMaxDij(m: Matrix, rowMap: seq<int>, colMap: seq<int>) returns (paths: seq<(int, int)>, maxDij: int)
    requires Rectangular(m) && |rowMap| >= |m| && |colMap| >= Width(m)
    ensures maxDij == MaxPenalty(m)
    ensures paths == MapIds(MaxPaths(m), rowMap, colMap)
  {
    maxDij := 0;
    paths := [];
    var mT := Transpose(m);
    var i := 0;
    while i < |m|
      invariant 0 <= i <= |m|
      invariant Scanned(m, rowMap, colMap, ZeroCellsBefore(m, i), paths, maxDij)
    {
      paths, maxDij := ScanRow(m, mT, rowMap, colMap, i, paths, maxDij);
      i := i + 1;
    }
    ScanMeaning(ZeroCells(m), Penalties(m, ZeroCells(m)), rowMap, colMap);
  }
}
