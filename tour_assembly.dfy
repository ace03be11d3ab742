/**
 * The partial-tour assembler: the included arcs are kept as a list of
 * directed path fragments. An arc (i, j) extends the first fragment that
 * ends at i or starts at j, is then spliced with an abutting fragment, and is
 * refused when it would close that fragment on itself; an arc touching no
 * fragment starts a new one.
 */
module TourAssembly {
  import opened Wrappers

  type Fragment = seq<int>
  type Tour = seq<Fragment>

  predicate NonEmptyFragments(tour: Tour)
  {
    forall k :: 0 <= k < |tour| ==> |tour[k]| > 0
  }

  function Last(f: Fragment): int
    requires |f| > 0
  {
    f[|f| - 1]
  }

  /** del tour[k] */
  function Delete(tour: Tour, k: nat): (r: Tour)
    requires k < |tour|
    ensures |r| == |tour| - 1
    ensures forall q :: 0 <= q < |r| ==> r[q] == if q < k then tour[q] else tour[q + 1]
  {
    tour[..k] + tour[k + 1..]
  }

  // ------------------------------------------------------------------
  // The scans over the fragments, in list order
  // ------------------------------------------------------------------

  /** The first fragment at or after `from` whose first city is j. */
  function FirstStartingWith(tour: Tour, j: int, from: nat): (r: Option<nat>)
    requires NonEmptyFragments(tour) && from <= |tour|
    ensures r.Some? ==> (from <= r.value < |tour| && tour[r.value][0] == j
      && forall k :: from <= k < r.value ==> tour[k][0] != j)
    ensures r.None? ==> forall k :: from <= k < |tour| ==> tour[k][0] != j
    decreases |tour| - from
  {
    if from == |tour| then None
    else if tour[from][0] == j then Some(from)
    else FirstStartingWith(tour, j, from + 1)
  }

  /** The first fragment at or after `from` whose last city is i. */
  function FirstEndingWith(tour: Tour, i: int, from: nat): (r: Option<nat>)
    requires NonEmptyFragments(tour) && from <= |tour|
    ensures r.Some? ==> (from <= r.value < |tour| && Last(tour[r.value]) == i
      && forall k :: from <= k < r.value ==> Last(tour[k]) != i)
    ensures r.None? ==> forall k :: from <= k < |tour| ==> Last(tour[k]) != i
    decreases |tour| - from
  {
    if from == |tour| then None
    else if Last(tour[from]) == i then Some(from)
    else FirstEndingWith(tour, i, from + 1)
  }

  predicate Touches(f: Fragment, i: int, j: int)
    requires |f| > 0
  {
    Last(f) == i || f[0] == j
  }

  /** The first fragment at or after `from` that ends at i or starts at j. */
  function FirstTouching(tour: Tour, i: int, j: int, from: nat): (r: Option<nat>)
    requires NonEmptyFragments(tour) && from <= |tour|
    ensures r.Some? ==> (from <= r.value < |tour| && Touches(tour[r.value], i, j)
      && forall k :: from <= k < r.value ==> !Touches(tour[k], i, j))
    ensures r.None? ==> forall k :: from <= k < |tour| ==> !Touches(tour[k], i, j)
    decreases |tour| - from
  {
    if from == |tour| then None
    else if Touches(tour[from], i, j) then Some(from)
    else FirstTouching(tour, i, j, from + 1)
  }

  // ------------------------------------------------------------------
  // The assembler as functions of the fragment list
  // ------------------------------------------------------------------

  /** added_path_merge_on_i_from: splice fragment s with the first fragment starting at j. */
  function MergeOnIFrom(tour: Tour, s: nat, j: int): Tour
    requires NonEmptyFragments(tour) && s < |tour|
  {
    match FirstStartingWith(tour, j, 0)
    case None => tour
    case Some(s2) => Delete(tour[s := tour[s] + tour[s2][1..]], s2)
  }

  /** added_path_merge_on_j_to: splice the first fragment ending at i in front of fragment s. */
  function MergeOnJTo(tour: Tour, s: nat, i: int): Tour
    requires NonEmptyFragments(tour) && s < |tour|
  {
    match FirstEndingWith(tour, i, 0)
    case None => tour
    case Some(s2) => Delete(tour[s := tour[s2][..|tour[s2]| - 1] + tour[s]], s2)
  }

  /** add_path_already_have_i_from: fragment s ends at i; refuse when it starts at j. */
  function HaveIFrom(tour: Tour, s: nat, j: int): Option<Tour>
    requires NonEmptyFragments(tour) && s < |tour|
  {
    if tour[s][0] == j then None
    else Some(MergeOnIFrom(tour[s := tour[s] + [j]], s, j))
  }

  /** add_path_already_have_j_to: fragment s starts at j; refuse when it ends at i. */
  function HaveJTo(tour: Tour, s: nat, i: int): Option<Tour>
    requires NonEmptyFragments(tour) && s < |tour|
  {
    if Last(tour[s]) == i then None
    else Some(MergeOnJTo(tour[s := [i] + tour[s]], s, i))
  }

  /** try_add_this_path: None when the arc is refused, else the new fragment list. */
  function TryAdd(tour: Tour, i: int, j: int): Option<Tour>
    requires NonEmptyFragments(tour)
  {
    match FirstTouching(tour, i, j, 0)
    case None => Some(tour + [[i, j]])
    case Some(s) => if Last(tour[s]) == i then HaveIFrom(tour, s, j) else HaveJTo(tour, s, i)
  }

  /** The first candidate at or after `from` that try_add_this_path accepts. */
  function FirstAddable(tour: Tour, paths: seq<(int, int)>, from: nat): (r: Option<nat>)
    requires NonEmptyFragments(tour) && from <= |paths|
    ensures r.Some? ==> (from <= r.value < |paths| && TryAdd(tour, paths[r.value].0, paths[r.value].1).Some?
      && forall k :: from <= k < r.value ==> TryAdd(tour, paths[k].0, paths[k].1).None?)
    ensures r.None? ==> forall k :: from <= k < |paths| ==> TryAdd(tour, paths[k].0, paths[k].1).None?
    decreases |paths| - from
  {
    if from == |paths| then None
    else if TryAdd(tour, paths[from].0, paths[from].1).Some? then Some(from)
    else FirstAddable(tour, paths, from + 1)
  }

  /** add_path: the fragment list after the first accepted candidate, None when every candidate is refused. */
  function AddPathResult(tour: Tour, paths: seq<(int, int)>): Option<Tour>
    requires NonEmptyFragments(tour)
  {
    match FirstAddable(tour, paths, 0)
    case None => None
    case Some(k) => TryAdd(tour, paths[k].0, paths[k].1)
  }

  // ------------------------------------------------------------------
  // Shape facts
  // ------------------------------------------------------------------

  lemma {:induction false} DeleteNonEmpty(tour: Tour, k: nat)
    requires NonEmptyFragments(tour) && k < |tour|
    ensures NonEmptyFragments(Delete(tour, k))
  {
  }

  lemma {:induction false} TryAddNonEmptyIFrom(tour: Tour, s: nat, j: int)
    requires NonEmptyFragments(tour) && s < |tour|
    ensures HaveIFrom(tour, s, j).Some? ==> NonEmptyFragments(HaveIFrom(tour, s, j).value)
  {
    if tour[s][0] != j {
      var t1 := tour[s := tour[s] + [j]];
      match FirstStartingWith(t1, j, 0)
      case None =>
      case Some(s2) => DeleteNonEmpty(t1[s := t1[s] + t1[s2][1..]], s2);
    }
  }

  lemma {:induction false} TryAddNonEmptyJTo(tour: Tour, s: nat, i: int)
    requires NonEmptyFragments(tour) && s < |tour|
    ensures HaveJTo(tour, s, i).Some? ==> NonEmptyFragments(HaveJTo(tour, s, i).value)
  {
    if Last(tour[s]) != i {
      var t1 := tour[s := [i] + tour[s]];
      match FirstEndingWith(t1, i, 0)
      case None =>
      case Some(s2) => DeleteNonEmpty(t1[s := t1[s2][..|t1[s2]| - 1] + t1[s]], s2);
    }
  }

  /** Every accepted arc keeps the fragments non-empty. */
  lemma {:induction false} TryAddNonEmpty(tour: Tour, i: int, j: int)
    requires NonEmptyFragments(tour)
    ensures TryAdd(tour, i, j).Some? ==> NonEmptyFragments(TryAdd(tour, i, j).value)
  {
    match FirstTouching(tour, i, j, 0)
    case None =>
    case Some(s) =>
      TryAddNonEmptyIFrom(tour, s, j);
      TryAddNonEmptyJTo(tour, s, i);
  }

  // ------------------------------------------------------------------
  // Sums of multisets over the fragments: the cities and the arcs
  // ------------------------------------------------------------------

  /** The multiset of the cities of a fragment list. */
  function Cities(tour: Tour): multiset<int>
  {
    if |tour| == 0 then multiset{} else Cities(tour[..|tour| - 1]) + multiset(tour[|tour| - 1])
  }

  /** The arcs of one fragment: each city to the next. */
  function FragmentArcs(f: Fragment): multiset<(int, int)>
  {
    if |f| < 2 then multiset{} else FragmentArcs(f[..|f| - 1]) + multiset{(f[|f| - 2], f[|f| - 1])}
  }

  /** The multiset of the arcs of a fragment list. */
  function Arcs(tour: Tour): multiset<(int, int)>
  {
    if |tour| == 0 then multiset{} else Arcs(tour[..|tour| - 1]) + FragmentArcs(tour[|tour| - 1])
  }

  lemma {:induction false} CitiesAppend(tour: Tour, f: Fragment)
    ensures Cities(tour + [f]) == Cities(tour) + multiset(f)
  {
    assert (tour + [f])[..|tour|] == tour;
  }

  lemma {:induction false} CitiesConcat(a: Tour, b: Tour)
    ensures Cities(a + b) == Cities(a) + Cities(b)
    decreases |b|
  {
    if |b| == 0 {
      assert a + b == a;
    } else {
      var n := |b| - 1;
      assert a + b == (a + b[..n]) + [b[n]];
      CitiesAppend(a + b[..n], b[n]);
      CitiesConcat(a, b[..n]);
      CitiesAppend(b[..n], b[n]);
      assert b[..n] + [b[n]] == b;
    }
  }

  lemma {:induction false} CitiesUpdate(tour: Tour, s: nat, f: Fragment)
    requires s < |tour|
    ensures Cities(tour[s := f]) + multiset(tour[s]) == Cities(tour) + multiset(f)
  {
    assert tour == tour[..s] + [tour[s]] + tour[s + 1..];
    assert tour[s := f] == tour[..s] + [f] + tour[s + 1..];
    CitiesConcat(tour[..s] + [tour[s]], tour[s + 1..]);
    CitiesConcat(tour[..s] + [f], tour[s + 1..]);
    CitiesAppend(tour[..s], tour[s]);
    CitiesAppend(tour[..s], f);
  }

  lemma {:induction false} CitiesDelete(tour: Tour, k: nat)
    requires k < |tour|
    ensures Cities(Delete(tour, k)) + multiset(tour[k]) == Cities(tour)
  {
    assert tour == tour[..k] + [tour[k]] + tour[k + 1..];
    CitiesConcat(tour[..k] + [tour[k]], tour[k + 1..]);
    CitiesConcat(tour[..k], tour[k + 1..]);
    CitiesAppend(tour[..k], tour[k]);
  }

  lemma {:induction false} ArcsAppend(tour: Tour, f: Fragment)
    ensures Arcs(tour + [f]) == Arcs(tour) + FragmentArcs(f)
  {
    assert (tour + [f])[..|tour|] == tour;
  }

  lemma {:induction false} ArcsConcat(a: Tour, b: Tour)
    ensures Arcs(a + b) == Arcs(a) + Arcs(b)
    decreases |b|
  {
    if |b| == 0 {
      assert a + b == a;
    } else {
      var n := |b| - 1;
      assert a + b == (a + b[..n]) + [b[n]];
      ArcsAppend(a + b[..n], b[n]);
      ArcsConcat(a, b[..n]);
      ArcsAppend(b[..n], b[n]);
      assert b[..n] + [b[n]] == b;
    }
  }

  lemma {:induction false} ArcsUpdate(tour: Tour, s: nat, f: Fragment)
    requires s < |tour|
    ensures Arcs(tour[s := f]) + FragmentArcs(tour[s]) == Arcs(tour) + FragmentArcs(f)
  {
    assert tour == tour[..s] + [tour[s]] + tour[s + 1..];
    assert tour[s := f] == tour[..s] + [f] + tour[s + 1..];
    ArcsConcat(tour[..s] + [tour[s]], tour[s + 1..]);
    ArcsConcat(tour[..s] + [f], tour[s + 1..]);
    ArcsAppend(tour[..s], tour[s]);
    ArcsAppend(tour[..s], f);
  }

  lemma {:induction false} ArcsDelete(tour: Tour, k: nat)
    requires k < |tour|
    ensures Arcs(Delete(tour, k)) + FragmentArcs(tour[k]) == Arcs(tour)
  {
    assert tour == tour[..k] + [tour[k]] + tour[k + 1..];
    ArcsConcat(tour[..k] + [tour[k]], tour[k + 1..]);
    ArcsConcat(tour[..k], tour[k + 1..]);
    ArcsAppend(tour[..k], tour[k]);
  }

  /** Joining two fragments adds exactly the arc between them. */
  lemma {:induction false} FragmentArcsJoin(a: Fragment, b: Fragment)
    requires |a| > 0 && |b| > 0
    ensures FragmentArcs(a + b) == FragmentArcs(a) + FragmentArcs(b) + multiset{(Last(a), b[0])}
    decreases |b|
  {
    var ab := a + b;
    var n := |b| - 1;
    assert ab[|ab| - 1] == b[n];
    if n == 0 {
      assert ab[..|ab| - 1] == a;
      assert FragmentArcs(ab) == FragmentArcs(a) + multiset{(ab[|ab| - 2], ab[|ab| - 1])};
    } else {
      var b' := b[..n];
      assert ab[..|ab| - 1] == a + b';
      assert ab[|ab| - 2] == b[n - 1];
      FragmentArcsJoin(a, b');
      assert b[..n][0] == b[0];
      assert FragmentArcs(b) == FragmentArcs(b') + multiset{(b[n - 1], b[n])};
      assert FragmentArcs(ab) == FragmentArcs(a + b') + multiset{(b[n - 1], b[n])};
    }
  }

  lemma {:induction false} FragmentArcsCons(x: int, f: Fragment)
    requires |f| > 0
    ensures FragmentArcs([x] + f) == FragmentArcs(f) + multiset{(x, f[0])}
  {
    FragmentArcsJoin([x], f);
  }

  lemma {:induction false} FragmentArcsSnoc(f: Fragment, x: int)
    requires |f| > 0
    ensures FragmentArcs(f + [x]) == FragmentArcs(f) + multiset{(Last(f), x)}
  {
    FragmentArcsJoin(f, [x]);
  }

  lemma {:induction false} FragmentArcsPair(i: int, j: int)
    ensures FragmentArcs([i, j]) == multiset{(i, j)}
  {
    assert [i, j][..1] == [i];
  }

  // ------------------------------------------------------------------
  // What an accepted arc does
  // ------------------------------------------------------------------

  /** Overlapping the last city of f with the first city of g keeps both arc sets. */
  lemma {:induction false} FragmentArcsOverlap(f: Fragment, g: Fragment)
    requires |f| > 0 && |g| > 0 && Last(f) == g[0]
    ensures FragmentArcs(f + g[1..]) == FragmentArcs(f) + FragmentArcs(g)
  {
    var g' := g[1..];
    if |g'| == 0 {
      assert f + g' == f;
      assert FragmentArcs(g) == multiset{};
    } else {
      FragmentArcsJoin(f, g');
      assert g == [g[0]] + g';
      FragmentArcsCons(g[0], g');
      assert FragmentArcs(g) == FragmentArcs(g') + multiset{(Last(f), g'[0])};
    }
  }

  /** The same overlap, dropping the copy at the end of f. */
  lemma {:induction false} FragmentArcsOverlapFront(f: Fragment, g: Fragment)
    requires |f| > 0 && |g| > 0 && Last(f) == g[0]
    ensures FragmentArcs(f[..|f| - 1] + g) == FragmentArcs(f) + FragmentArcs(g)
  {
    var f' := f[..|f| - 1];
    if |f'| == 0 {
      assert f' + g == g;
      assert FragmentArcs(f) == multiset{};
    } else {
      FragmentArcsJoin(f', g);
      assert f == f' + [Last(f)];
      FragmentArcsSnoc(f', Last(f));
      assert FragmentArcs(f) == FragmentArcs(f') + multiset{(Last(f'), g[0])};
    }
  }

  /** Multiset bookkeeping for one replace-then-delete step, kept apart from the fragment functions. */
  lemma Rebalance<T>(before: multiset<T>, updated: multiset<T>, after: multiset<T>,
                     added: multiset<T>, old1: multiset<T>, old2: multiset<T>, joined: multiset<T>)
    requires updated + old1 == before + joined
    requires joined == old1 + old2 + added
    requires after + old2 == updated
    ensures after == before + added
  {
    forall o
      ensures after[o] == (before + added)[o]
    {
      assert (after + old2)[o] == updated[o];
      assert (updated + old1)[o] == (before + joined)[o];
    }
  }

  /** Multiset bookkeeping for one replacement step. */
  lemma Replaced<T>(before: multiset<T>, updated: multiset<T>, old1: multiset<T>,
                    joined: multiset<T>, added: multiset<T>)
    requires updated + old1 == before + joined
    requires joined == old1 + added
    ensures updated == before + added
  {
    forall o
      ensures updated[o] == (before + added)[o]
    {
      assert (updated + old1)[o] == (before + joined)[o];
    }
  }

  /** Splicing on the shared city j keeps the arcs of the fragment list. */
  lemma {:induction false} MergeOnIFromArcs(tour: Tour, s: nat, j: int)
    requires NonEmptyFragments(tour) && s < |tour| && Last(tour[s]) == j && tour[s][0] != j
    ensures Arcs(MergeOnIFrom(tour, s, j)) == Arcs(tour)
  {
    match FirstStartingWith(tour, j, 0)
    case None =>
    case Some(s2) =>
      var f := tour[s];
      var g := tour[s2];
      var joined := f + g[1..];
      var t2 := tour[s := joined];
      assert t2[s2] == g;
      FragmentArcsOverlap(f, g);
      ArcsUpdate(tour, s, joined);
      ArcsDelete(t2, s2);
      Rebalance(Arcs(tour), Arcs(t2), Arcs(Delete(t2, s2)),
                multiset{}, FragmentArcs(f), FragmentArcs(g), FragmentArcs(joined));
  }

  /** Splicing on the shared city i keeps the arcs of the fragment list. */
  lemma {:induction false} MergeOnJToArcs(tour: Tour, s: nat, i: int)
    requires NonEmptyFragments(tour) && s < |tour| && tour[s][0] == i && Last(tour[s]) != i
    ensures Arcs(MergeOnJTo(tour, s, i)) == Arcs(tour)
  {
    match FirstEndingWith(tour, i, 0)
    case None =>
    case Some(s2) =>
      var f := tour[s];
      var g := tour[s2];
      var joined := g[..|g| - 1] + f;
      var t2 := tour[s := joined];
      assert t2[s2] == g;
      FragmentArcsOverlapFront(g, f);
      ArcsUpdate(tour, s, joined);
      ArcsDelete(t2, s2);
      Rebalance(Arcs(tour), Arcs(t2), Arcs(Delete(t2, s2)),
                multiset{}, FragmentArcs(f), FragmentArcs(g), FragmentArcs(joined));
  }

  lemma {:induction false} HaveIFromArcs(tour: Tour, s: nat, i: int, j: int)
    requires NonEmptyFragments(tour) && s < |tour| && Last(tour[s]) == i && tour[s][0] != j
    ensures Arcs(HaveIFrom(tour, s, j).value) == Arcs(tour) + multiset{(i, j)}
  {
    var f := tour[s];
    var t1 := tour[s := f + [j]];
    FragmentArcsSnoc(f, j);
    ArcsUpdate(tour, s, f + [j]);
    Replaced(Arcs(tour), Arcs(t1), FragmentArcs(f), FragmentArcs(f + [j]), multiset{(i, j)});
    MergeOnIFromArcs(t1, s, j);
  }

  lemma {:induction false} HaveJToArcs(tour: Tour, s: nat, i: int, j: int)
    requires NonEmptyFragments(tour) && s < |tour| && tour[s][0] == j && Last(tour[s]) != i
    ensures Arcs(HaveJTo(tour, s, i).value) == Arcs(tour) + multiset{(i, j)}
  {
    var f := tour[s];
    var t1 := tour[s := [i] + f];
    FragmentArcsCons(i, f);
    ArcsUpdate(tour, s, [i] + f);
    Replaced(Arcs(tour), Arcs(t1), FragmentArcs(f), FragmentArcs([i] + f), multiset{(i, j)});
    MergeOnJToArcs(t1, s, i);
  }

  /** An accepted arc adds exactly the arc (i, j) to the arcs of the fragments. */
  lemma {:induction false} TryAddArcs(tour: Tour, i: int, j: int)
    requires NonEmptyFragments(tour)
    ensures TryAdd(tour, i, j).Some? ==> Arcs(TryAdd(tour, i, j).value) == Arcs(tour) + multiset{(i, j)}
  {
    match FirstTouching(tour, i, j, 0)
    case None =>
      ArcsAppend(tour, [i, j]);
      FragmentArcsPair(i, j);
    case Some(s) =>
      if Last(tour[s]) == i {
        if tour[s][0] != j {
          HaveIFromArcs(tour, s, i, j);
        }
      } else {
        HaveJToArcs(tour, s, i, j);
      }
  }

  // ------------------------------------------------------------------
  // What an accepted arc does to the cities
  // ------------------------------------------------------------------

  predicate NoRepeats(m: multiset<int>)
  {
    forall x :: x in m ==> m[x] == 1
  }

  /** No city is visited twice by the fragments. */
  predicate DistinctCities(tour: Tour)
  {
    NoRepeats(Cities(tour))
  }

  /** The arc (i, j) may only leave the end of a fragment and only enter the start of one. */
  predicate EndsOnly(tour: Tour, i: int, j: int)
  {
    forall k, p :: 0 <= k < |tour| && 0 <= p < |tour[k]| ==>
      (tour[k][p] == i ==> p == |tour[k]| - 1) && (tour[k][p] == j ==> p == 0)
  }

  /** Well-formed input for one arc: distinct cities, i and j at fragment ends only, no self arc. */
  predicate Fits(tour: Tour, i: int, j: int)
  {
    NonEmptyFragments(tour) && DistinctCities(tour) && EndsOnly(tour, i, j) && i != j
  }

  lemma {:induction false} CitiesHasFragment(tour: Tour, k: nat)
    requires k < |tour|
    ensures multiset(tour[k]) <= Cities(tour)
  {
    CitiesDelete(tour, k);
  }

  /** A city in two fragments is counted twice. */
  lemma {:induction false} TwoFragments(tour: Tour, a: nat, b: nat, x: int)
    requires a < |tour| && b < |tour| && a != b && x in tour[a] && x in tour[b]
    ensures Cities(tour)[x] >= 2
  {
    CitiesDelete(tour, a);
    var d := Delete(tour, a);
    var b' := if b < a then b else b - 1;
    assert d[b'] == tour[b];
    CitiesHasFragment(d, b');
    assert Cities(tour)[x] >= multiset(tour[a])[x] + multiset(tour[b])[x];
  }

  /** A city at two positions of one fragment is counted twice. */
  lemma {:induction false} TwoPositions(tour: Tour, a: nat, p: nat, q: nat)
    requires a < |tour| && p < q < |tour[a]| && tour[a][p] == tour[a][q]
    ensures Cities(tour)[tour[a][p]] >= 2
  {
    var f := tour[a];
    assert f == f[..q] + [f[q]] + f[q + 1..];
    assert f[p] in f[..q];
    assert multiset(f)[f[p]] >= 2;
    CitiesHasFragment(tour, a);
  }

  /** With distinct cities, a city sits at one position of one fragment. */
  lemma {:induction false} DistinctPositions(tour: Tour, a: nat, p: nat, b: nat, q: nat)
    requires DistinctCities(tour)
    requires a < |tour| && p < |tour[a]| && b < |tour| && q < |tour[b]| && tour[a][p] == tour[b][q]
    ensures a == b && p == q
  {
    if a != b {
      TwoFragments(tour, a, b, tour[a][p]);
      assert false;
    } else if p < q {
      TwoPositions(tour, a, p, q);
      assert false;
    } else if q < p {
      TwoPositions(tour, a, q, p);
      assert false;
    }
  }

  lemma {:induction false} CitiesMember(tour: Tour, x: int)
    ensures x in Cities(tour) <==> exists k :: 0 <= k < |tour| && x in tour[k]
    decreases |tour|
  {
    if |tour| > 0 {
      var n := |tour| - 1;
      CitiesMember(tour[..n], x);
      if x in Cities(tour[..n]) {
        var k :| 0 <= k < n && x in tour[..n][k];
        assert tour[k] == tour[..n][k];
      }
      if exists k :: 0 <= k < |tour| && x in tour[k] {
        var k :| 0 <= k < |tour| && x in tour[k];
        if k < n {
          assert tour[..n][k] == tour[k];
        }
      }
    }
  }

  predicate EndsAt(tour: Tour, i: int)
    requires NonEmptyFragments(tour)
  {
    exists k :: 0 <= k < |tour| && Last(tour[k]) == i
  }

  predicate StartsAt(tour: Tour, j: int)
    requires NonEmptyFragments(tour)
  {
    exists k :: 0 <= k < |tour| && tour[k][0] == j
  }

  /** With i at fragment ends only, i is a city exactly when some fragment ends at i. */
  lemma {:induction false} EndIsOnlyOccurrence(tour: Tour, i: int, j: int)
    requires NonEmptyFragments(tour) && EndsOnly(tour, i, j)
    ensures i in Cities(tour) <==> EndsAt(tour, i)
    ensures j in Cities(tour) <==> StartsAt(tour, j)
  {
    CitiesMember(tour, i);
    CitiesMember(tour, j);
    if i in Cities(tour) {
      var k :| 0 <= k < |tour| && i in tour[k];
      var p :| 0 <= p < |tour[k]| && tour[k][p] == i;
      assert Last(tour[k]) == i;
    }
    if exists k :: 0 <= k < |tour| && Last(tour[k]) == i {
      var k :| 0 <= k < |tour| && Last(tour[k]) == i;
      assert i in tour[k];
    }
    if j in Cities(tour) {
      var k :| 0 <= k < |tour| && j in tour[k];
      var p :| 0 <= p < |tour[k]| && tour[k][p] == j;
      assert tour[k][0] == j;
    }
    if exists k :: 0 <= k < |tour| && tour[k][0] == j {
      var k :| 0 <= k < |tour| && tour[k][0] == j;
      assert j in tour[k];
    }
  }

  /** The arc is refused exactly when some fragment already runs from j to i: adding it would close a sub-tour. */
  lemma {:induction false} TryAddRefusedIffClosing(tour: Tour, i: int, j: int)
    requires Fits(tour, i, j)
    ensures TryAdd(tour, i, j).None? <==> exists k :: 0 <= k < |tour| && tour[k][0] == j && Last(tour[k]) == i
  {
    match FirstTouching(tour, i, j, 0)
    case None =>
    case Some(s) =>
      if exists k :: 0 <= k < |tour| && tour[k][0] == j && Last(tour[k]) == i {
        var k :| 0 <= k < |tour| && tour[k][0] == j && Last(tour[k]) == i;
        if Last(tour[s]) == i {
          DistinctPositions(tour, s, |tour[s]| - 1, k, |tour[k]| - 1);
        } else {
          DistinctPositions(tour, s, 0, k, 0);
        }
      }
  }

  /** Multiset bookkeeping for a replace-then-delete step that drops one shared element. */
  lemma Overlapped<T>(before: multiset<T>, updated: multiset<T>, after: multiset<T>, dropped: multiset<T>,
                      old1: multiset<T>, old2: multiset<T>, joined: multiset<T>)
    requires updated + old1 == before + joined
    requires joined + dropped == old1 + old2
    requires after + old2 == updated
    ensures after + dropped == before
  {
    forall o
      ensures (after + dropped)[o] == before[o]
    {
      assert (after + old2)[o] == updated[o];
      assert (updated + old1)[o] == (before + joined)[o];
      assert (joined + dropped)[o] == (old1 + old2)[o];
    }
  }

  /** Splicing fragment s with the fragment starting at its last city j drops one copy of j. */
  lemma {:induction false} MergeOnIFromCities(tour: Tour, s: nat, j: int)
    requires NonEmptyFragments(tour) && s < |tour| && Last(tour[s]) == j && tour[s][0] != j
    ensures FirstStartingWith(tour, j, 0).Some? ==> Cities(MergeOnIFrom(tour, s, j)) + multiset{j} == Cities(tour)
  {
    match FirstStartingWith(tour, j, 0)
    case None =>
    case Some(s2) =>
      var f := tour[s];
      var g := tour[s2];
      var joined := f + g[1..];
      var t2 := tour[s := joined];
      assert t2[s2] == g;
      assert g == [j] + g[1..];
      CitiesUpdate(tour, s, joined);
      CitiesDelete(t2, s2);
      Overlapped(Cities(tour), Cities(t2), Cities(Delete(t2, s2)), multiset{j},
                 multiset(f), multiset(g), multiset(joined));
  }

  /** Splicing the fragment ending at i in front of fragment s (starting at i) drops one copy of i. */
  lemma {:induction false} MergeOnJToCities(tour: Tour, s: nat, i: int)
    requires NonEmptyFragments(tour) && s < |tour| && tour[s][0] == i && Last(tour[s]) != i
    ensures FirstEndingWith(tour, i, 0).Some? ==> Cities(MergeOnJTo(tour, s, i)) + multiset{i} == Cities(tour)
  {
    match FirstEndingWith(tour, i, 0)
    case None =>
    case Some(s2) =>
      var f := tour[s];
      var g := tour[s2];
      var joined := g[..|g| - 1] + f;
      var t2 := tour[s := joined];
      assert t2[s2] == g;
      assert g == g[..|g| - 1] + [i];
      CitiesUpdate(tour, s, joined);
      CitiesDelete(t2, s2);
      Overlapped(Cities(tour), Cities(t2), Cities(Delete(t2, s2)), multiset{i},
                 multiset(f), multiset(g), multiset(joined));
  }

  /** Exactly those of i and j that no fragment visits yet become cities. */
  function NewCities(visited: multiset<int>, i: int, j: int): multiset<int>
  {
    visited + (multiset{i, j} - visited)
  }

  lemma NewCitiesCases(visited: multiset<int>, i: int, j: int)
    requires NoRepeats(visited) && i != j
    ensures NoRepeats(NewCities(visited, i, j))
    ensures i in visited && j in visited ==> NewCities(visited, i, j) == visited
    ensures i in visited && j !in visited ==> NewCities(visited, i, j) == visited + multiset{j}
    ensures i !in visited && j in visited ==> NewCities(visited, i, j) == visited + multiset{i}
    ensures i !in visited && j !in visited ==> NewCities(visited, i, j) == visited + multiset{i, j}
  {
  }

  lemma Cancel(a: multiset<int>, b: multiset<int>, x: int)
    requires a + multiset{x} == b + multiset{x}
    ensures a == b
  {
    forall o
      ensures a[o] == b[o]
    {
      assert (a + multiset{x})[o] == (b + multiset{x})[o];
    }
  }

  /** Changing a fragment that keeps its first city does not change the scan for a first city. */
  lemma {:induction false} FirstStartingWithUpdate(tour: Tour, s: nat, f: Fragment, j: int, from: nat)
    requires NonEmptyFragments(tour) && s < |tour| && from <= |tour| && |f| > 0 && f[0] == tour[s][0]
    ensures FirstStartingWith(tour[s := f], j, from) == FirstStartingWith(tour, j, from)
    decreases |tour| - from
  {
    if from < |tour| {
      FirstStartingWithUpdate(tour, s, f, j, from + 1);
    }
  }

  /** Changing a fragment that keeps its last city does not change the scan for a last city. */
  lemma {:induction false} FirstEndingWithUpdate(tour: Tour, s: nat, f: Fragment, i: int, from: nat)
    requires NonEmptyFragments(tour) && s < |tour| && from <= |tour| && |f| > 0 && Last(f) == Last(tour[s])
    ensures FirstEndingWith(tour[s := f], i, from) == FirstEndingWith(tour, i, from)
    decreases |tour| - from
  {
    if from < |tour| {
      FirstEndingWithUpdate(tour, s, f, i, from + 1);
    }
  }

  /** Extending fragment s by j adds j once, and the splice with the fragment starting at j removes it again. */
  lemma {:induction false} HaveIFromCities(tour: Tour, s: nat, j: int)
    requires NonEmptyFragments(tour) && s < |tour| && tour[s][0] != j
    ensures FirstStartingWith(tour, j, 0).Some? ==> Cities(HaveIFrom(tour, s, j).value) == Cities(tour)
    ensures FirstStartingWith(tour, j, 0).None? ==> Cities(HaveIFrom(tour, s, j).value) == Cities(tour) + multiset{j}
  {
    var f := tour[s];
    var t1 := tour[s := f + [j]];
    CitiesUpdate(tour, s, f + [j]);
    Replaced(Cities(tour), Cities(t1), multiset(f), multiset(f + [j]), multiset{j});
    FirstStartingWithUpdate(tour, s, f + [j], j, 0);
    MergeOnIFromCities(t1, s, j);
    if FirstStartingWith(tour, j, 0).Some? {
      Cancel(Cities(MergeOnIFrom(t1, s, j)), Cities(tour), j);
    }
  }

  /** Extending fragment s by i in front adds i once, and the splice with the fragment ending at i removes it again. */
  lemma {:induction false} HaveJToCities(tour: Tour, s: nat, i: int)
    requires NonEmptyFragments(tour) && s < |tour| && Last(tour[s]) != i
    ensures FirstEndingWith(tour, i, 0).Some? ==> Cities(HaveJTo(tour, s, i).value) == Cities(tour)
    ensures FirstEndingWith(tour, i, 0).None? ==> Cities(HaveJTo(tour, s, i).value) == Cities(tour) + multiset{i}
  {
    var f := tour[s];
    var t1 := tour[s := [i] + f];
    CitiesUpdate(tour, s, [i] + f);
    Replaced(Cities(tour), Cities(t1), multiset(f), multiset([i] + f), multiset{i});
    assert Last([i] + f) == Last(f);
    FirstEndingWithUpdate(tour, s, [i] + f, i, 0);
    MergeOnJToCities(t1, s, i);
    if FirstEndingWith(tour, i, 0).Some? {
      Cancel(Cities(MergeOnJTo(t1, s, i)), Cities(tour), i);
    }
  }

  lemma {:induction false} TryAddCitiesCore(tour: Tour, i: int, j: int)
    requires NonEmptyFragments(tour) && DistinctCities(tour) && i != j
    requires i in Cities(tour) <==> EndsAt(tour, i)
    requires j in Cities(tour) <==> StartsAt(tour, j)
    ensures TryAdd(tour, i, j).Some? ==> Cities(TryAdd(tour, i, j).value) == NewCities(Cities(tour), i, j)
  {
    var c := Cities(tour);
    NewCitiesCases(c, i, j);
    match FirstTouching(tour, i, j, 0)
    case None =>
      CitiesAppend(tour, [i, j]);
      assert i !in c && j !in c;
    case Some(s) =>
      if Last(tour[s]) == i {
        assert i in c;
        if tour[s][0] != j {
          HaveIFromCities(tour, s, j);
          match FirstStartingWith(tour, j, 0)
          case None =>
            assert j !in c;
          case Some(s2) =>
            assert j in c;
        }
      } else {
        assert tour[s][0] == j;
        assert j in c;
        HaveJToCities(tour, s, i);
        match FirstEndingWith(tour, i, 0)
        case None =>
          assert i !in c;
        case Some(s2) =>
          assert i in c;
      }
  }

  /**
   * An accepted arc adds exactly those of i and j that were not yet visited,
   * so the fragments keep visiting every city at most once.
   */
  lemma {:induction false} TryAddCities(tour: Tour, i: int, j: int)
    requires Fits(tour, i, j)
    ensures TryAdd(tour, i, j).Some? ==> Cities(TryAdd(tour, i, j).value) == NewCities(Cities(tour), i, j)
    ensures TryAdd(tour, i, j).Some? ==> DistinctCities(TryAdd(tour, i, j).value)
  {
    EndIsOnlyOccurrence(tour, i, j);
    NewCitiesCases(Cities(tour), i, j);
    TryAddCitiesCore(tour, i, j);
  }

  /** Whatever the fragments look like, an accepted arc brings in no city other than i and j. */
  lemma {:induction false} TryAddCitiesWithin(tour: Tour, i: int, j: int)
    requires NonEmptyFragments(tour)
    ensures TryAdd(tour, i, j).Some? ==> Cities(TryAdd(tour, i, j).value) <= Cities(tour) + multiset{i, j}
  {
    match FirstTouching(tour, i, j, 0)
    case None =>
      CitiesAppend(tour, [i, j]);
      assert multiset([i, j]) == multiset{i, j};
    case Some(s) =>
      if Last(tour[s]) == i {
        if tour[s][0] != j {
          HaveIFromCities(tour, s, j);
        }
      } else {
        HaveJToCities(tour, s, i);
      }
  }

  /** add_path brings in only cities of the candidate arcs it was offered. */
  lemma AddPathResultCities(tour: Tour, paths: seq<(int, int)>, rows: seq<int>, cols: seq<int>)
    requires NonEmptyFragments(tour)
    requires forall k :: 0 <= k < |paths| ==> paths[k].0 in rows && paths[k].1 in cols
    ensures AddPathResult(tour, paths).Some? ==>
      forall x :: x in Cities(AddPathResult(tour, paths).value) ==> x in Cities(tour) || x in rows || x in cols
  {
    match FirstAddable(tour, paths, 0)
    case None =>
    case Some(k) =>
      TryAddCitiesWithin(tour, paths[k].0, paths[k].1);
  }

  /** Each city of a fragment and the city after it form one of the fragment's arcs. */
  lemma {:induction false} FragmentArcsMember(f: Fragment, p: nat)
    requires p + 1 < |f|
    ensures (f[p], f[p + 1]) in FragmentArcs(f)
    decreases |f|
  {
    var init := f[..|f| - 1];
    if p + 2 < |f| {
      FragmentArcsMember(init, p);
      assert (init[p], init[p + 1]) == (f[p], f[p + 1]);
    }
  }

  lemma {:induction false} ArcsHasFragment(tour: Tour, k: nat)
    requires k < |tour|
    ensures FragmentArcs(tour[k]) <= Arcs(tour)
  {
    ArcsDelete(tour, k);
  }

  // ------------------------------------------------------------------
  // The assembler state: the fragment list and the candidate arc
  // ------------------------------------------------------------------

  class PathAssembler {
    var currentTour: Tour
    var iFrom: int
    var jTo: int

    predicate Valid()
      reads this
    {
      NonEmptyFragments(currentTour)
    }

    constructor ()
      ensures Valid() && currentTour == []
    {
      currentTour := [];
      iFrom := 0;
      jTo := 0;
    }

    /** added_path_merge_on_i_from */
    method AddedPathMergeOnIFrom(sIndex: nat) returns (merged: bool)
      requires Valid() && sIndex < |currentTour|
      modifies this
      ensures merged <==> FirstStartingWith(old(currentTour), jTo, 0).Some?
      ensures currentTour == MergeOnIFrom(old(currentTour), sIndex, jTo)
      ensures iFrom == old(iFrom) && jTo == old(jTo)
    {
      var s2 := 0;
      while s2 < |currentTour|
        invariant s2 <= |currentTour| && currentTour == old(currentTour)
        invariant FirstStartingWith(currentTour, jTo, 0) == FirstStartingWith(currentTour, jTo, s2)
      {
        var sublist2 := currentTour[s2];
        if sublist2[0] == jTo {
          currentTour := currentTour[sIndex := currentTour[sIndex] + sublist2[1..]];
          currentTour := currentTour[..s2] + currentTour[s2 + 1..];
          return true;
        }
        s2 := s2 + 1;
      }
      return false;
    }

    /** added_path_merge_on_j_to */
    method AddedPathMergeOnJTo(sIndex: nat) returns (merged: bool)
      requires Valid() && sIndex < |currentTour|
      modifies this
      ensures merged <==> FirstEndingWith(old(currentTour), iFrom, 0).Some?
      ensures currentTour == MergeOnJTo(old(currentTour), sIndex, iFrom)
      ensures iFrom == old(iFrom) && jTo == old(jTo)
    {
      var s2 := 0;
      while s2 < |currentTour|
        invariant s2 <= |currentTour| && currentTour == old(currentTour)
        invariant FirstEndingWith(currentTour, iFrom, 0) == FirstEndingWith(currentTour, iFrom, s2)
      {
        var sublist2 := currentTour[s2];
        if sublist2[|sublist2| - 1] == iFrom {
          currentTour := currentTour[sIndex := sublist2[..|sublist2| - 1] + currentTour[sIndex]];
          currentTour := currentTour[..s2] + currentTour[s2 + 1..];
          return true;
        }
        s2 := s2 + 1;
      }
      return false;
    }

    /** add_path_already_have_i_from: `sublist` is the fragment at sIndex, which ends at iFrom. */
    method AddPathAlreadyHaveIFrom(sIndex: nat, sublist: Fragment) returns (added: bool)
      requires Valid() && sIndex < |currentTour| && sublist == currentTour[sIndex]
      modifies this
      ensures Valid()
      ensures HaveIFrom(old(currentTour), sIndex, jTo) == if added then Some(currentTour) else None
      ensures !added ==> currentTour == old(currentTour)
      ensures iFrom == old(iFrom) && jTo == old(jTo)
    {
      if sublist[0] == jTo {
        return false;
      }
      currentTour := currentTour[sIndex := sublist + [jTo]];
      var merged := AddedPathMergeOnIFrom(sIndex);
      TryAddNonEmptyIFrom(old(currentTour), sIndex, jTo);
      return true;
    }

    /** add_path_already_have_j_to: `sublist` is the fragment at sIndex, which starts at jTo. */
    method AddPathAlreadyHaveJTo(sIndex: nat, sublist: Fragment) returns (added: bool)
      requires Valid() && sIndex < |currentTour| && sublist == currentTour[sIndex]
      modifies this
      ensures Valid()
      ensures HaveJTo(old(currentTour), sIndex, iFrom) == if added then Some(currentTour) else None
      ensures !added ==> currentTour == old(currentTour)
      ensures iFrom == old(iFrom) && jTo == old(jTo)
    {
      if sublist[|sublist| - 1] == iFrom {
        return false;
      }
      currentTour := currentTour[sIndex := [iFrom] + sublist];
      var merged := AddedPathMergeOnJTo(sIndex);
      TryAddNonEmptyJTo(old(currentTour), sIndex, iFrom);
      return true;
    }

    /** try_add_this_path: try to add the arc (iFrom, jTo). */
    method TryAddThisPath() returns (added: bool)
      requires Valid()
      modifies this
      ensures Valid()
      ensures TryAdd(old(currentTour), iFrom, jTo) == if added then Some(currentTour) else None
      ensures !added ==> currentTour == old(currentTour)
      ensures iFrom == old(iFrom) && jTo == old(jTo)
    {
      var s := 0;
      while s < |currentTour|
        invariant s <= |currentTour| && currentTour == old(currentTour)
        invariant FirstTouching(currentTour, iFrom, jTo, 0) == FirstTouching(currentTour, iFrom, jTo, s)
      {
        var sublist := currentTour[s];
        if iFrom == sublist[|sublist| - 1] {
          added := AddPathAlreadyHaveIFrom(s, sublist);
          return;
        } else if jTo == sublist[0] {
          added := AddPathAlreadyHaveJTo(s, sublist);
          return;
        }
        s := s + 1;
      }
      currentTour := currentTour + [[iFrom, jTo]];
      return true;
    }

    /**
     * add_path: try the candidates in order and keep the first one accepted;
     * iFrom and jTo are left at the last candidate tried.
     */
    method AddPath(possiblePaths: seq<(int, int)>) returns (added: bool)
      requires Valid()
      modifies this
      ensures Valid()
      ensures match FirstAddable(old(currentTour), possiblePaths, 0)
        case Some(k) =>
          added && (iFrom, jTo) == possiblePaths[k]
          && Some(currentTour) == TryAdd(old(currentTour), iFrom, jTo)
        case None =>
          !added && currentTour == old(currentTour)
          && (iFrom, jTo) == if |possiblePaths| == 0 then (old(iFrom), old(jTo)) else possiblePaths[|possiblePaths| - 1]
    {
      var k := 0;
      while k < |possiblePaths|
        invariant k <= |possiblePaths| && currentTour == old(currentTour)
        invariant FirstAddable(currentTour, possiblePaths, 0) == FirstAddable(currentTour, possiblePaths, k)
        invariant (iFrom, jTo) == if k == 0 then (old(iFrom), old(jTo)) else possiblePaths[k - 1]
      {
        iFrom := possiblePaths[k].0;
        jTo := possiblePaths[k].1;
        added := TryAddThisPath();
        if added {
          return;
        }
        k := k + 1;
      }
      return false;
    }
  }
}
