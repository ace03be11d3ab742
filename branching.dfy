/**
 * The two decisions of the search that are made on values: which arc
 * block_3 branches on (with its retries that forbid refused arcs), and which
 * flat tour block_7 closes at a 2-by-2 leaf.
 */
module Branching {
  import opened Wrappers
  import opened Reduction
  import opened ArcSelection
  import opened TourAssembly
  import opened Tours
  import opened WorkingMatrix
  import opened SearchTree

  /** find_max_Dij's candidate list, by city ids: the zero cells of the largest penalty in row-major order. */
  function PossiblePaths(m: Matrix, rowMap: seq<int>, colMap: seq<int>): seq<(int, int)>
    requires Mapped(m, rowMap, colMap)
  {
    SquareRectangular(m, |rowMap|);
    MapIds(MaxPaths(m), rowMap, colMap)
  }

  /** The retry step of block_3: the cell of the last candidate add_path tried becomes None. */
  function ForbidLast(m: Matrix, rowMap: seq<int>, colMap: seq<int>): Matrix
    requires Mapped(m, rowMap, colMap) && |PossiblePaths(m, rowMap, colMap)| > 0
  {
    var paths := PossiblePaths(m, rowMap, colMap);
    DisableOn(m, rowMap, colMap, paths[|paths| - 1].0, paths[|paths| - 1].1)
  }

  /** The retry step is disable_path on the last candidate's cities. */
  lemma ForbidLastIsDisable(m: Matrix, rowMap: seq<int>, colMap: seq<int>, a: int, b: int)
    requires Mapped(m, rowMap, colMap) && |PossiblePaths(m, rowMap, colMap)| > 0
    requires (a, b) == PossiblePaths(m, rowMap, colMap)[|PossiblePaths(m, rowMap, colMap)| - 1]
    ensures ForbidLast(m, rowMap, colMap) == DisableOn(m, rowMap, colMap, a, b)
  {
  }

  /** Forbidding the last candidate turns exactly its zero cell into None. */
  lemma ForbidLastCell(m: Matrix, rowMap: seq<int>, colMap: seq<int>) returns (cell: Pos)
    requires Mapped(m, rowMap, colMap) && |PossiblePaths(m, rowMap, colMap)| > 0
    ensures cell.0 < |m| && cell.1 < |m| && m[cell.0][cell.1] == Some(0)
    ensures PossiblePaths(m, rowMap, colMap)[|PossiblePaths(m, rowMap, colMap)| - 1] == (rowMap[cell.0], colMap[cell.1])
    ensures ForbidLast(m, rowMap, colMap) == Forbid(m, cell.0, cell.1)
  {
    SquareRectangular(m, |rowMap|);
    var cells := MaxPaths(m);
    cell := cells[|cells| - 1];
    MaxPathsExact(m);
    assert cell in cells;
    IndexOfDistinct(rowMap, cell.0);
    IndexOfDistinct(colMap, cell.1);
  }

  /** A retry keeps the matrix mapped and takes one position out of the zero cells, so retries end. */
  lemma ForbidLastShrinks(m: Matrix, rowMap: seq<int>, colMap: seq<int>)
    requires Mapped(m, rowMap, colMap) && |PossiblePaths(m, rowMap, colMap)| > 0
    ensures Mapped(ForbidLast(m, rowMap, colMap), rowMap, colMap)
    ensures ZeroSet(ForbidLast(m, rowMap, colMap)) < ZeroSet(m)
  {
    var cell := ForbidLastCell(m, rowMap, colMap);
    ForbidZeroShrinks(m, cell.0, cell.1);
    ForbidSquare(m, |rowMap|, cell.0, cell.1);
  }

  /**
   * block_3's choice, from C', the maps and the fragment list: None when no
   * zero cell is left, else the first candidate add_path accepts. While all
   * candidates are refused, the last one is forbidden and the choice is made
   * again. The matrix returned is C' after the retries.
   */
  function Choose(m: Matrix, rowMap: seq<int>, colMap: seq<int>, tour: Tour): (Matrix, Option<(int, int)>)
    requires Mapped(m, rowMap, colMap) && NonEmptyFragments(tour)
    decreases ZeroSet(m)
  {
    var paths := PossiblePaths(m, rowMap, colMap);
    if |paths| == 0 then (m, None)
    else match FirstAddable(tour, paths, 0)
      case Some(k) => (m, Some(paths[k]))
      case None =>
        ForbidLastShrinks(m, rowMap, colMap);
        Choose(ForbidLast(m, rowMap, colMap), rowMap, colMap, tour)
  }

  /** With no zero cell left there is nothing to branch on. */
  lemma ChooseNothing(m: Matrix, rowMap: seq<int>, colMap: seq<int>, tour: Tour)
    requires Mapped(m, rowMap, colMap) && NonEmptyFragments(tour) && |PossiblePaths(m, rowMap, colMap)| == 0
    ensures Choose(m, rowMap, colMap, tour) == (m, None)
  {
  }

  /** The first candidate add_path accepts is the choice, and C' stays as it is. */
  lemma ChooseAccepted(m: Matrix, rowMap: seq<int>, colMap: seq<int>, tour: Tour)
    requires Mapped(m, rowMap, colMap) && NonEmptyFragments(tour)
    requires FirstAddable(tour, PossiblePaths(m, rowMap, colMap), 0).Some?
    ensures FirstAddable(tour, PossiblePaths(m, rowMap, colMap), 0).value < |PossiblePaths(m, rowMap, colMap)|
    ensures Choose(m, rowMap, colMap, tour)
         == (m, Some(PossiblePaths(m, rowMap, colMap)[FirstAddable(tour, PossiblePaths(m, rowMap, colMap), 0).value]))
  {
  }

  /** When every candidate is refused, the choice is the one made after forbidding the last. */
  lemma ChooseRetry(m: Matrix, rowMap: seq<int>, colMap: seq<int>, tour: Tour)
    requires Mapped(m, rowMap, colMap) && NonEmptyFragments(tour) && |PossiblePaths(m, rowMap, colMap)| > 0
    requires FirstAddable(tour, PossiblePaths(m, rowMap, colMap), 0).None?
    ensures Mapped(ForbidLast(m, rowMap, colMap), rowMap, colMap)
    ensures ZeroSet(ForbidLast(m, rowMap, colMap)) < ZeroSet(m)
    ensures Choose(m, rowMap, colMap, tour) == Choose(ForbidLast(m, rowMap, colMap), rowMap, colMap, tour)
  {
    ForbidLastShrinks(m, rowMap, colMap);
  }

  /** Every cell of m' is the cell of m, or a zero of m forbidden because the fragments refuse its arc. */
  predicate OnlyRefusedForbidden(m: Matrix, m': Matrix, rowMap: seq<int>, colMap: seq<int>, tour: Tour)
    requires Mapped(m, rowMap, colMap) && Mapped(m', rowMap, colMap) && NonEmptyFragments(tour)
  {
    forall i, j {:trigger m'[i][j]} {:trigger m[i][j]} :: 0 <= i < |m| && 0 <= j < |m| ==>
      m'[i][j] == m[i][j]
      || (m[i][j] == Some(0) && m'[i][j] == None && TryAdd(tour, rowMap[i], colMap[j]).None?)
  }

  /** One retry forbids a zero cell whose arc the fragments refuse. */
  lemma ForbidLastRefused(m: Matrix, rowMap: seq<int>, colMap: seq<int>, tour: Tour)
    requires Mapped(m, rowMap, colMap) && NonEmptyFragments(tour) && |PossiblePaths(m, rowMap, colMap)| > 0
    requires FirstAddable(tour, PossiblePaths(m, rowMap, colMap), 0).None?
    ensures Mapped(ForbidLast(m, rowMap, colMap), rowMap, colMap)
    ensures OnlyRefusedForbidden(m, ForbidLast(m, rowMap, colMap), rowMap, colMap, tour)
  {
    var paths := PossiblePaths(m, rowMap, colMap);
    var cell := ForbidLastCell(m, rowMap, colMap);
    ForbidLastShrinks(m, rowMap, colMap);
    var m1 := ForbidLast(m, rowMap, colMap);
    assert TryAdd(tour, rowMap[cell.0], colMap[cell.1]).None? by {
      assert TryAdd(tour, paths[|paths| - 1].0, paths[|paths| - 1].1).None?;
    }
    forall i, j | 0 <= i < |m| && 0 <= j < |m|
      ensures m1[i][j] == m[i][j]
        || (m[i][j] == Some(0) && m1[i][j] == None && TryAdd(tour, rowMap[i], colMap[j]).None?)
    {
      assert m1[i][j] == if i == cell.0 && j == cell.1 then None else m[i][j];
    }
  }

  /** Two rounds of forbidding refused zeros are one round of forbidding refused zeros. */
  lemma OnlyRefusedForbiddenTrans(m: Matrix, m1: Matrix, m2: Matrix, rowMap: seq<int>, colMap: seq<int>, tour: Tour)
    requires Mapped(m, rowMap, colMap) && Mapped(m1, rowMap, colMap) && Mapped(m2, rowMap, colMap)
    requires NonEmptyFragments(tour)
    requires OnlyRefusedForbidden(m, m1, rowMap, colMap, tour) && OnlyRefusedForbidden(m1, m2, rowMap, colMap, tour)
    ensures OnlyRefusedForbidden(m, m2, rowMap, colMap, tour)
  {
    forall i, j | 0 <= i < |m| && 0 <= j < |m|
      ensures m2[i][j] == m[i][j]
        || (m[i][j] == Some(0) && m2[i][j] == None && TryAdd(tour, rowMap[i], colMap[j]).None?)
    {
      assert m1[i][j] == m[i][j]
        || (m[i][j] == Some(0) && m1[i][j] == None && TryAdd(tour, rowMap[i], colMap[j]).None?);
      assert m2[i][j] == m1[i][j]
        || (m1[i][j] == Some(0) && m2[i][j] == None && TryAdd(tour, rowMap[i], colMap[j]).None?);
    }
  }

  /**
   * What block_3 chooses: the matrix stays mapped, loses no entry other than
   * zero cells whose arcs the fragments refuse, and so never gains a zero or
   * a negative cell. With no arc chosen no candidate is left; with an arc
   * chosen it is the first candidate of the final matrix that add_path
   * accepts.
   */
  lemma {:induction false} ChooseFacts(m: Matrix, rowMap: seq<int>, colMap: seq<int>, tour: Tour)
    requires Mapped(m, rowMap, colMap) && NonEmptyFragments(tour)
    ensures
      var (m', arc) := Choose(m, rowMap, colMap, tour);
      Mapped(m', rowMap, colMap)
      && OnlyRefusedForbidden(m, m', rowMap, colMap, tour)
      && ZeroSet(m') <= ZeroSet(m)
      && (NonNegative(m) ==> NonNegative(m'))
      && (arc.None? ==> PossiblePaths(m', rowMap, colMap) == [])
      && (arc.Some? ==>
            var k := FirstAddable(tour, PossiblePaths(m', rowMap, colMap), 0);
            k.Some? && arc.value == PossiblePaths(m', rowMap, colMap)[k.value])
    decreases ZeroSet(m)
  {
    var paths := PossiblePaths(m, rowMap, colMap);
    if |paths| > 0 && FirstAddable(tour, paths, 0).None? {
      var m1 := ForbidLast(m, rowMap, colMap);
      ForbidLastShrinks(m, rowMap, colMap);
      ForbidLastRefused(m, rowMap, colMap, tour);
      ChooseFacts(m1, rowMap, colMap, tour);
      var m' := Choose(m1, rowMap, colMap, tour).0;
      OnlyRefusedForbiddenTrans(m, m1, m', rowMap, colMap, tour);
    }
  }

  /** With no fragments yet any arc is accepted, so the head of the list is taken, as block_3 does. */
  lemma ChooseOnNoFragments(m: Matrix, rowMap: seq<int>, colMap: seq<int>)
    requires Mapped(m, rowMap, colMap)
    ensures PossiblePaths(m, rowMap, colMap) != [] ==>
      Choose(m, rowMap, colMap, []) == (m, Some(PossiblePaths(m, rowMap, colMap)[0]))
  {
    var paths := PossiblePaths(m, rowMap, colMap);
    if paths != [] {
      assert FirstTouching([], paths[0].0, paths[0].1, 0) == None;
      assert TryAdd([], paths[0].0, paths[0].1).Some?;
    }
  }

  /** Every candidate arc runs from a row city to a column city. */
  lemma PossiblePathsMapped(m: Matrix, rowMap: seq<int>, colMap: seq<int>)
    requires Mapped(m, rowMap, colMap)
    ensures forall k :: 0 <= k < |PossiblePaths(m, rowMap, colMap)| ==>
      PossiblePaths(m, rowMap, colMap)[k].0 in rowMap && PossiblePaths(m, rowMap, colMap)[k].1 in colMap
  {
    SquareRectangular(m, |rowMap|);
    var cells := MaxPaths(m);
    assert forall k :: 0 <= k < |cells| ==> cells[k].0 < |rowMap| && cells[k].1 < |colMap|;
  }

  /** The arc block_3 chooses runs from a row city to a column city, and add_path accepts it. */
  lemma {:induction false} ChooseMapped(m: Matrix, rowMap: seq<int>, colMap: seq<int>, tour: Tour)
    requires Mapped(m, rowMap, colMap) && NonEmptyFragments(tour)
    ensures
      var arc := Choose(m, rowMap, colMap, tour).1;
      arc.Some? ==> arc.value.0 in rowMap && arc.value.1 in colMap && AddArc(tour, arc.value.0, arc.value.1).Some?
    decreases ZeroSet(m)
  {
    var paths := PossiblePaths(m, rowMap, colMap);
    PossiblePathsMapped(m, rowMap, colMap);
    if |paths| > 0 && FirstAddable(tour, paths, 0).None? {
      ForbidLastShrinks(m, rowMap, colMap);
      ChooseMapped(ForbidLast(m, rowMap, colMap), rowMap, colMap, tour);
    }
  }

  /** Joining the chosen arc keeps every city of the fragments within 1..n. */
  lemma ChosenWithin(m: Matrix, rowMap: seq<int>, colMap: seq<int>, tour: Tour, n: int)
    requires Mapped(m, rowMap, colMap) && NonEmptyFragments(tour)
    requires IdsWithin(rowMap, n) && IdsWithin(colMap, n) && FragmentsWithin(tour, n)
    ensures
      var arc := Choose(m, rowMap, colMap, tour).1;
      arc.Some? ==> AddArc(tour, arc.value.0, arc.value.1).Some? && FragmentsWithin(AddArc(tour, arc.value.0, arc.value.1).value, n)
  {
    ChooseMapped(m, rowMap, colMap, tour);
    var arc := Choose(m, rowMap, colMap, tour).1;
    if arc.Some? {
      AddArcCities(tour, arc.value.0, arc.value.1);
    }
  }

  /**
   * When the fragments are apart from the maps, joining the chosen arc keeps
   * every city visited once unless the arc runs from a city to itself: the
   * flat check of block_3 can then only fail on a self arc.
   */
  lemma ChosenArcKeepsDistinct(m: Matrix, rowMap: seq<int>, colMap: seq<int>, tour: Tour)
    requires Mapped(m, rowMap, colMap) && Apart(tour, rowMap, colMap)
    ensures
      var arc := Choose(m, rowMap, colMap, tour).1;
      arc.Some? && arc.value.0 != arc.value.1 ==>
        AddArc(tour, arc.value.0, arc.value.1).Some? && DistinctCities(AddArc(tour, arc.value.0, arc.value.1).value)
  {
    ChooseMapped(m, rowMap, colMap, tour);
    var arc := Choose(m, rowMap, colMap, tour).1;
    if arc.Some? && arc.value.0 != arc.value.1 {
      AddArcKeepsDistinct(tour, rowMap, colMap, arc.value.0, arc.value.1);
    }
  }

  // ------------------------------------------------------------------
  // block_7: the leaf
  // ------------------------------------------------------------------

  /**
   * The flat tour block_7 closes from the fragments and the two rows and
   * columns left: two fragments are joined; one fragment is closed with the
   * pairing (row 0, column 0), (row 1, column 1) when add_path accepts it and
   * it leaves one fragment, else with (row 0, column 1), (row 1, column 0).
   * None where the source raises.
   */
  function LeafPaths(tour: Tour, rowMap: seq<int>, colMap: seq<int>): Option<seq<int>>
    requires NonEmptyFragments(tour)
  {
    if |tour| == 2 then Some(tour[0] + tour[1])
    else if |tour| == 1 && |rowMap| >= 2 && |colMap| >= 2 then
      var first := AddPathResult(tour, [(rowMap[0], colMap[0]), (rowMap[1], colMap[1])]);
      var closed := if first.Some? && |first.value| <= 1 then first
                    else AddPathResult(tour, [(rowMap[0], colMap[1]), (rowMap[1], colMap[0])]);
      if closed.Some? && |closed.value| > 0 then Some(closed.value[0]) else None
    else None
  }

  /** An arc added to a single fragment extends it, or starts a second fragment behind it. */
  lemma TryAddSingle(f: Fragment, i: int, j: int)
    requires |f| > 0
    ensures TryAdd([f], i, j).Some? ==>
      var r := TryAdd([f], i, j).value;
      |r| == 1 || r == [f, [i, j]]
  {
    match FirstTouching([f], i, j, 0)
    case None =>
    case Some(s) =>
      if Last(f) == i {
        if f[0] != j {
          var t1 := [f + [j]];
          assert [f][s := f + [j]] == t1;
          assert FirstStartingWith(t1, j, 1) == None;
          assert FirstStartingWith(t1, j, 0) == None;
        }
      } else if Last(f) != i {
        var t1 := [[i] + f];
        assert [f][s := [i] + f] == t1;
        assert Last([i] + f) == Last(f);
        assert FirstEndingWith(t1, i, 1) == None;
        assert FirstEndingWith(t1, i, 0) == None;
      }
  }

  /** A one-fragment list holds the arcs of its fragment. */
  lemma ArcsSingle(f: Fragment)
    ensures Arcs([f]) == FragmentArcs(f)
  {
    ArcsAppend([], f);
    assert [] + [f] == [f];
  }

  /** add_path on one fragment keeps its arcs, in one fragment or in the first of two. */
  lemma AddPathResultSingle(f: Fragment, paths: seq<(int, int)>)
    requires |f| > 0
    ensures AddPathResult([f], paths).Some? ==>
      var r := AddPathResult([f], paths).value;
      NonEmptyFragments(r) && |r| > 0 && (|r| == 1 || r[0] == f)
      && FragmentArcs(f) <= Arcs(r)
  {
    match FirstAddable([f], paths, 0)
    case None =>
    case Some(k) =>
      TryAddSingle(f, paths[k].0, paths[k].1);
      TryAddArcs([f], paths[k].0, paths[k].1);
      TryAddNonEmpty([f], paths[k].0, paths[k].1);
      ArcsSingle(f);
  }

  /** Joining the two fragments keeps the arcs of both. */
  lemma LeafOfTwo(tour: Tour)
    requires NonEmptyFragments(tour) && |tour| == 2
    ensures Arcs(tour) <= FragmentArcs(tour[0] + tour[1])
  {
    FragmentArcsJoin(tour[0], tour[1]);
    ArcsSingle(tour[0]);
    ArcsAppend([tour[0]], tour[1]);
    assert [tour[0]] + [tour[1]] == tour;
  }

  /** Closing one fragment keeps its arcs. */
  lemma LeafOfOne(f: Fragment, pair1: seq<(int, int)>, pair2: seq<(int, int)>)
    requires |f| > 0
    ensures
      var first := AddPathResult([f], pair1);
      var closed := if first.Some? && |first.value| <= 1 then first else AddPathResult([f], pair2);
      closed.Some? ==> |closed.value| > 0 && FragmentArcs(f) <= FragmentArcs(closed.value[0])
  {
    AddPathResultSingle(f, pair1);
    AddPathResultSingle(f, pair2);
    var first := AddPathResult([f], pair1);
    var closed := if first.Some? && |first.value| <= 1 then first else AddPathResult([f], pair2);
    if closed.Some? && |closed.value| == 1 {
      ArcsSingle(closed.value[0]);
      assert [closed.value[0]] == closed.value;
    }
  }

  /** The leaf tour runs along every arc the fragments already hold. */
  lemma LeafKeepsArcs(tour: Tour, rowMap: seq<int>, colMap: seq<int>)
    requires NonEmptyFragments(tour)
    ensures LeafPaths(tour, rowMap, colMap).Some? ==> Arcs(tour) <= FragmentArcs(LeafPaths(tour, rowMap, colMap).value)
  {
    if |tour| == 2 {
      LeafOfTwo(tour);
    } else if |tour| == 1 && |rowMap| >= 2 && |colMap| >= 2 {
      assert tour == [tour[0]];
      ArcsSingle(tour[0]);
      LeafOfOne(tour[0], [(rowMap[0], colMap[0]), (rowMap[1], colMap[1])], [(rowMap[0], colMap[1]), (rowMap[1], colMap[0])]);
    }
  }

  /** Closing one fragment with either pairing brings in only cities of the pairings. */
  lemma ClosedCities(tour: Tour, pair1: seq<(int, int)>, pair2: seq<(int, int)>, rows: seq<int>, cols: seq<int>)
    requires NonEmptyFragments(tour)
    requires forall k :: 0 <= k < |pair1| ==> pair1[k].0 in rows && pair1[k].1 in cols
    requires forall k :: 0 <= k < |pair2| ==> pair2[k].0 in rows && pair2[k].1 in cols
    ensures
      var first := AddPathResult(tour, pair1);
      var closed := if first.Some? && |first.value| <= 1 then first else AddPathResult(tour, pair2);
      closed.Some? && |closed.value| > 0 ==>
        forall x :: x in closed.value[0] ==> x in Cities(tour) || x in rows || x in cols
  {
    AddPathResultCities(tour, pair1, rows, cols);
    AddPathResultCities(tour, pair2, rows, cols);
    var first := AddPathResult(tour, pair1);
    var closed := if first.Some? && |first.value| <= 1 then first else AddPathResult(tour, pair2);
    if closed.Some? && |closed.value| > 0 {
      CitiesHasFragment(closed.value, 0);
      assert forall x :: x in closed.value[0] ==> x in multiset(closed.value[0]);
    }
  }

  /** The leaf tour names only cities of the fragments and of the rows and columns left. */
  lemma LeafPathsCities(tour: Tour, rowMap: seq<int>, colMap: seq<int>)
    requires NonEmptyFragments(tour)
    ensures LeafPaths(tour, rowMap, colMap).Some? ==>
      forall x :: x in LeafPaths(tour, rowMap, colMap).value ==> x in Cities(tour) || x in rowMap || x in colMap
  {
    if |tour| == 2 {
      CitiesHasFragment(tour, 0);
      CitiesHasFragment(tour, 1);
      assert forall x :: x in tour[0] + tour[1] ==> x in multiset(tour[0]) || x in multiset(tour[1]);
    } else if |tour| == 1 && |rowMap| >= 2 && |colMap| >= 2 {
      ClosedCities(tour, [(rowMap[0], colMap[0]), (rowMap[1], colMap[1])],
                   [(rowMap[0], colMap[1]), (rowMap[1], colMap[0])], rowMap, colMap);
    }
  }
}
