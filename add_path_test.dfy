/**
 * The test copy of the assembler: its add_path takes the candidates from a
 * global, returns the updated fragment list on success and False otherwise,
 * and the unit test checks fourteen concrete calls.
 */
module AddPathTest {
  import opened Wrappers
  import opened TourAssembly

  /** False is returned only when no candidate can be added. */
  lemma AddPathResultFalseIffNoneAddable(tour: Tour, paths: seq<(int, int)>)
    requires NonEmptyFragments(tour)
    ensures AddPathResult(tour, paths).None? <==>
      forall k :: 0 <= k < |paths| ==> TryAdd(tour, paths[k].0, paths[k].1).None?
  {
    match FirstAddable(tour, paths, 0)
    case None =>
    case Some(k) =>
  }

  /** On success the result is the tour produced by the first addable candidate. */
  lemma AddPathResultFirstAddable(tour: Tour, paths: seq<(int, int)>, k: nat)
    requires NonEmptyFragments(tour) && k < |paths|
    requires TryAdd(tour, paths[k].0, paths[k].1).Some?
    requires forall q :: 0 <= q < k ==> TryAdd(tour, paths[q].0, paths[q].1).None?
    ensures AddPathResult(tour, paths) == TryAdd(tour, paths[k].0, paths[k].1)
  {
    match FirstAddable(tour, paths, 0)
    case None =>
    case Some(r) =>
      if r < k {
      } else if r > k {
      }
  }

  /** add_path of the test file, run on an assembler and the candidates. */
  method AddPath(assembler: PathAssembler, possiblePaths: seq<(int, int)>) returns (r: Option<Tour>)
    requires assembler.Valid()
    modifies assembler
    ensures assembler.Valid()
    ensures r == AddPathResult(old(assembler.currentTour), possiblePaths)
    ensures r.None? ==> assembler.currentTour == old(assembler.currentTour)
    ensures r.Some? ==> assembler.currentTour == r.value
  {
    var k := 0;
    while k < |possiblePaths|
      invariant k <= |possiblePaths| && assembler.Valid()
      invariant assembler.currentTour == old(assembler.currentTour)
      invariant FirstAddable(assembler.currentTour, possiblePaths, 0) == FirstAddable(assembler.currentTour, possiblePaths, k)
    {
      assembler.iFrom := possiblePaths[k].0;
      assembler.jTo := possiblePaths[k].1;
      var added := assembler.TryAddThisPath();
      if added {
        return Some(assembler.currentTour);
      }
      k := k + 1;
    }
    return None;
  }

  // ------------------------------------------------------------------
  // The unit test's cases, in the order the test checks them
  // ------------------------------------------------------------------

  /** [1,2] on an empty tour starts the first fragment. */
  lemma StartsFirstFragment()
    ensures AddPathResult([], [(1, 2)]) == Some([[1, 2]])
  {
    assert FirstTouching([], 1, 2, 0) == None;
    assert [] + [[1, 2]] == [[1, 2]];
    AddPathResultFirstAddable([], [(1, 2)], 0);
  }

  /** [5,1] enters the start of [1,2] and is prepended. */
  lemma PrependsToPair()
    ensures AddPathResult([[1, 2]], [(5, 1)]) == Some([[5, 1, 2]])
  {
    var tour: Tour := [[1, 2]];
    assert FirstTouching(tour, 5, 1, 0) == Some(0);
    assert [5] + tour[0] == [5, 1, 2];
    var t1 := tour[0 := [5] + tour[0]];
    assert t1 == [[5, 1, 2]];
    assert FirstEndingWith(t1, 5, 0) == None;
    AddPathResultFirstAddable(tour, [(5, 1)], 0);
  }

  /** [3,5] enters the start of [5,1,2] and is prepended. */
  lemma PrependsToTriple()
    ensures AddPathResult([[5, 1, 2]], [(3, 5)]) == Some([[3, 5, 1, 2]])
  {
    var tour: Tour := [[5, 1, 2]];
    assert FirstTouching(tour, 3, 5, 0) == Some(0);
    assert [3] + tour[0] == [3, 5, 1, 2];
    var t1 := tour[0 := [3] + tour[0]];
    assert t1 == [[3, 5, 1, 2]];
    assert FirstEndingWith(t1, 3, 0) == None;
    AddPathResultFirstAddable(tour, [(3, 5)], 0);
  }

  /** [4,8] touches no fragment end and becomes a second fragment. */
  lemma AppendsSecondFragment()
    ensures AddPathResult([[3, 5, 1, 2]], [(4, 8)]) == Some([[3, 5, 1, 2], [4, 8]])
  {
    var tour: Tour := [[3, 5, 1, 2]];
    assert FirstTouching(tour, 4, 8, 0) == None;
    assert tour + [[4, 8]] == [[3, 5, 1, 2], [4, 8]];
    AddPathResultFirstAddable(tour, [(4, 8)], 0);
  }

  /** [8,3] is prepended to [3,5,1,2], which is then spliced behind [4,8]. */
  lemma SplicesBehindFragmentEndingAtIFrom()
    ensures AddPathResult([[3, 5, 1, 2], [4, 8]], [(8, 3), (8, 6)]) == Some([[4, 8, 3, 5, 1, 2]])
  {
    var tour: Tour := [[3, 5, 1, 2], [4, 8]];
    assert FirstTouching(tour, 8, 3, 0) == Some(0);
    assert [8] + tour[0] == [8, 3, 5, 1, 2];
    var t1 := tour[0 := [8] + tour[0]];
    assert t1 == [[8, 3, 5, 1, 2], [4, 8]];
    assert FirstEndingWith(t1, 8, 0) == Some(1);
    assert t1[1][..1] + t1[0] == [4, 8, 3, 5, 1, 2];
    var t2 := t1[0 := t1[1][..1] + t1[0]];
    assert t2 == [[4, 8, 3, 5, 1, 2], [4, 8]];
    assert Delete(t2, 1) == [[4, 8, 3, 5, 1, 2]];
    AddPathResultFirstAddable(tour, [(8, 3), (8, 6)], 0);
  }

  /** [7,8] touches no fragment end and is appended after the existing fragments. */
  lemma AppendsAfterExistingFragments()
    ensures AddPathResult([[4, 6, 2], [1, 5, 3]], [(7, 8), (3, 4)]) == Some([[4, 6, 2], [1, 5, 3], [7, 8]])
  {
    var tour: Tour := [[4, 6, 2], [1, 5, 3]];
    assert FirstTouching(tour, 7, 8, 0) == None;
    assert tour + [[7, 8]] == [[4, 6, 2], [1, 5, 3], [7, 8]];
    AddPathResultFirstAddable(tour, [(7, 8), (3, 4)], 0);
  }

  /** [4,8] is prepended to [8,3,5], which is spliced behind [2,4]; [6,1] stays in place. */
  lemma SpliceDeletesAbsorbedFragment()
    ensures AddPathResult([[8, 3, 5], [2, 4], [6, 1]], [(4, 8), (4, 6)]) == Some([[2, 4, 8, 3, 5], [6, 1]])
  {
    var tour: Tour := [[8, 3, 5], [2, 4], [6, 1]];
    assert FirstTouching(tour, 4, 8, 0) == Some(0);
    assert [4] + tour[0] == [4, 8, 3, 5];
    var t1 := tour[0 := [4] + tour[0]];
    assert t1 == [[4, 8, 3, 5], [2, 4], [6, 1]];
    assert FirstEndingWith(t1, 4, 0) == Some(1);
    assert t1[1][..1] + t1[0] == [2, 4, 8, 3, 5];
    var t2 := t1[0 := t1[1][..1] + t1[0]];
    assert t2 == [[2, 4, 8, 3, 5], [2, 4], [6, 1]];
    assert Delete(t2, 1) == [[2, 4, 8, 3, 5], [6, 1]];
    AddPathResultFirstAddable(tour, [(4, 8), (4, 6)], 0);
  }

  /** [7,8] is prepended to the second fragment [8,5,3] without a splice. */
  lemma PrependsToSecondFragment()
    ensures AddPathResult([[4, 6, 2], [8, 5, 3]], [(7, 8), (1, 9)]) == Some([[4, 6, 2], [7, 8, 5, 3]])
  {
    var tour: Tour := [[4, 6, 2], [8, 5, 3]];
    assert FirstTouching(tour, 7, 8, 0) == Some(1);
    assert [7] + tour[1] == [7, 8, 5, 3];
    var t1 := tour[1 := [7] + tour[1]];
    assert t1 == [[4, 6, 2], [7, 8, 5, 3]];
    assert FirstEndingWith(t1, 7, 0) == None;
    AddPathResultFirstAddable(tour, [(7, 8), (1, 9)], 0);
  }

  /** [8,5] is prepended to [5,3,6,7], which is spliced behind the last fragment [9,8]. */
  lemma SplicesWithLastFragment()
    ensures AddPathResult([[5, 3, 6, 7], [1, 2, 4], [9, 8]], [(8, 5), (1, 9)]) == Some([[9, 8, 5, 3, 6, 7], [1, 2, 4]])
  {
    var tour: Tour := [[5, 3, 6, 7], [1, 2, 4], [9, 8]];
    assert FirstTouching(tour, 8, 5, 0) == Some(0);
    assert [8] + tour[0] == [8, 5, 3, 6, 7];
    var t1 := tour[0 := [8] + tour[0]];
    assert t1 == [[8, 5, 3, 6, 7], [1, 2, 4], [9, 8]];
    assert FirstEndingWith(t1, 8, 2) == Some(2);
    assert FirstEndingWith(t1, 8, 0) == Some(2);
    assert t1[2][..1] + t1[0] == [9, 8, 5, 3, 6, 7];
    var t2 := t1[0 := t1[2][..1] + t1[0]];
    assert t2 == [[9, 8, 5, 3, 6, 7], [1, 2, 4], [9, 8]];
    assert Delete(t2, 2) == [[9, 8, 5, 3, 6, 7], [1, 2, 4]];
    AddPathResultFirstAddable(tour, [(8, 5), (1, 9)], 0);
  }

  /** [8,5] extends [3,6,8], which then absorbs [5,7,4]. */
  lemma ExtendsAndAbsorbsFragmentStartingAtJTo()
    ensures AddPathResult([[3, 6, 8], [2, 1], [5, 7, 4]], [(8, 5), (1, 9)]) == Some([[3, 6, 8, 5, 7, 4], [2, 1]])
  {
    var tour: Tour := [[3, 6, 8], [2, 1], [5, 7, 4]];
    assert FirstTouching(tour, 8, 5, 0) == Some(0);
    assert tour[0] + [5] == [3, 6, 8, 5];
    var t1 := tour[0 := tour[0] + [5]];
    assert t1 == [[3, 6, 8, 5], [2, 1], [5, 7, 4]];
    assert FirstStartingWith(t1, 5, 2) == Some(2);
    assert FirstStartingWith(t1, 5, 0) == Some(2);
    assert t1[0] + t1[2][1..] == [3, 6, 8, 5, 7, 4];
    var t2 := t1[0 := t1[0] + t1[2][1..]];
    assert t2 == [[3, 6, 8, 5, 7, 4], [2, 1], [5, 7, 4]];
    assert Delete(t2, 2) == [[3, 6, 8, 5, 7, 4], [2, 1]];
    AddPathResultFirstAddable(tour, [(8, 5), (1, 9)], 0);
  }

  /** [8,2] joins the two fragments into one. */
  lemma JoinsTwoFragments()
    ensures AddPathResult([[3, 6, 8], [2, 1]], [(8, 2)]) == Some([[3, 6, 8, 2, 1]])
  {
    var tour: Tour := [[3, 6, 8], [2, 1]];
    assert FirstTouching(tour, 8, 2, 0) == Some(0);
    assert tour[0] + [2] == [3, 6, 8, 2];
    var t1 := tour[0 := tour[0] + [2]];
    assert t1 == [[3, 6, 8, 2], [2, 1]];
    assert FirstStartingWith(t1, 2, 0) == Some(1);
    assert t1[0] + t1[1][1..] == [3, 6, 8, 2, 1];
    var t2 := t1[0 := t1[0] + t1[1][1..]];
    assert t2 == [[3, 6, 8, 2, 1], [2, 1]];
    assert Delete(t2, 1) == [[3, 6, 8, 2, 1]];
    AddPathResultFirstAddable(tour, [(8, 2)], 0);
  }

  /** [3,5] would close [5,1,3] into a cycle; [4,6] is added instead. */
  lemma RefusesClosingThenAppends()
    ensures AddPathResult([[5, 1, 3]], [(3, 5), (4, 6)]) == Some([[5, 1, 3], [4, 6]])
  {
    var tour: Tour := [[5, 1, 3]];
    assert FirstTouching(tour, 3, 5, 0) == Some(0);
    assert TryAdd(tour, 3, 5) == None;
    assert FirstTouching(tour, 4, 6, 0) == None;
    assert tour + [[4, 6]] == [[5, 1, 3], [4, 6]];
    AddPathResultFirstAddable(tour, [(3, 5), (4, 6)], 1);
  }

  /** [2,4] is prepended to the second fragment [4,6]. */
  lemma PrependsToLaterFragment()
    ensures AddPathResult([[5, 1, 3], [4, 6]], [(2, 4)]) == Some([[5, 1, 3], [2, 4, 6]])
  {
    var tour: Tour := [[5, 1, 3], [4, 6]];
    assert FirstTouching(tour, 2, 4, 0) == Some(1);
    assert [2] + tour[1] == [2, 4, 6];
    var t1 := tour[1 := [2] + tour[1]];
    assert t1 == [[5, 1, 3], [2, 4, 6]];
    assert FirstEndingWith(t1, 2, 0) == None;
    AddPathResultFirstAddable(tour, [(2, 4)], 0);
  }

  /** [2,4] and [3,1] would each close a fragment; [3,4] joins both fragments. */
  lemma RefusesTwiceThenJoins()
    ensures AddPathResult([[1, 3], [4, 2]], [(2, 4), (3, 1), (3, 4)]) == Some([[1, 3, 4, 2]])
  {
    var tour: Tour := [[1, 3], [4, 2]];
    var paths := [(2, 4), (3, 1), (3, 4)];
    assert FirstTouching(tour, 2, 4, 0) == Some(1);
    assert TryAdd(tour, 2, 4) == None;
    assert FirstTouching(tour, 3, 1, 0) == Some(0);
    assert TryAdd(tour, 3, 1) == None;
    assert FirstTouching(tour, 3, 4, 0) == Some(0);
    assert tour[0] + [4] == [1, 3, 4];
    var t1 := tour[0 := tour[0] + [4]];
    assert t1 == [[1, 3, 4], [4, 2]];
    assert FirstStartingWith(t1, 4, 0) == Some(1);
    assert t1[0] + t1[1][1..] == [1, 3, 4, 2];
    var t2 := t1[0 := t1[0] + t1[1][1..]];
    assert t2 == [[1, 3, 4, 2], [4, 2]];
    assert Delete(t2, 1) == [[1, 3, 4, 2]];
    AddPathResultFirstAddable(tour, paths, 2);
  }
}
