/**
 * Complete tours as flat lists of city ids: the leaf's cycle cost summed the
 * way block_7 sums it, the rotation block_10 applies to the best tour, and
 * the repeated-city test of check_tour.
 */
module Tours {
  import opened Wrappers
  import opened Reduction
  import opened TourAssembly
  import CitySets

  predicate Distinct(t: seq<int>)
  {
    forall p, q :: 0 <= p < q < |t| ==> t[p] != t[q]
  }

  /** Python's s[k]: a negative index counts from the end; None where Python raises IndexError. */
  function PyAt<T>(s: seq<T>, k: int): Option<T>
  {
    if 0 <= k < |s| then Some(s[k])
    else if -|s| <= k < 0 then Some(s[|s| + k])
    else None
  }

  /**
   * C[ind(a)][ind(b)] as an addend: None where Python raises, for an index
   * out of range or for the None of a cell that was 0 in the input.
   */
  function ArcCost(c: Matrix, a: int, b: int): Option<int>
  {
    match PyAt(c, Ind(a))
    case None => None
    case Some(row) =>
      match PyAt(row, Ind(b))
      case None => None
      case Some(cell) => cell
  }

  /** Addition that fails once either addend failed. */
  function Plus(x: Option<int>, y: Option<int>): Option<int>
  {
    if x.Some? && y.Some? then Some(x.value + y.value) else None
  }

  /** The cost of the open path t[0] -> t[1] -> ... -> t[|t| - 1]. */
  function PathCost(c: Matrix, t: seq<int>): Option<int>
  {
    if |t| < 2 then Some(0)
    else Plus(PathCost(c, t[..|t| - 1]), ArcCost(c, t[|t| - 2], t[|t| - 1]))
  }

  /** The cost of the closed tour, the open path plus the arc back to the start; None for no cities. */
  function TourCost(c: Matrix, t: seq<int>): Option<int>
  {
    if |t| == 0 then None
    else Plus(PathCost(c, t), ArcCost(c, t[|t| - 1], t[0]))
  }

  /** block_7's summation of the leaf's cycle cost, stopping where Python raises. */
  method CycleCost(c: Matrix, paths: seq<int>) returns (cost: Option<int>)
    ensures cost == TourCost(c, paths)
  {
    if |paths| == 0 {
      return None;
    }
    var total := 0;
    var i := 0;
    while i < |paths| - 1
      invariant 0 <= i <= |paths| - 1
      invariant PathCost(c, paths[..i + 1]) == Some(total)
    {
      var arc := ArcCost(c, paths[i], paths[i + 1]);
      assert paths[..i + 2][..i + 1] == paths[..i + 1];
      if arc.None? {
        PathCostFailurePersists(c, paths, i + 2);
        return None;
      }
      total := total + arc.value;
      i := i + 1;
    }
    assert paths[..i + 1] == paths;
    var back := ArcCost(c, paths[|paths| - 1], paths[0]);
    if back.None? {
      return None;
    }
    return Some(total + back.value);
  }

  /** Once a prefix of the path cannot be costed, neither can the path. */
  lemma {:induction false} PathCostFailurePersists(c: Matrix, t: seq<int>, k: nat)
    requires k <= |t| && PathCost(c, t[..k]) == None
    ensures PathCost(c, t) == None
    decreases |t| - k
  {
    if k < |t| {
      assert t[..k + 1][..k] == t[..k];
      assert PathCost(c, t[..k + 1]) == None;
      PathCostFailurePersists(c, t, k + 1);
    } else {
      assert t[..k] == t;
    }
  }

  /** Splitting a path in two costs the halves and the arc that joins them. */
  lemma {:induction false} PathCostConcat(c: Matrix, a: seq<int>, b: seq<int>)
    requires |a| > 0 && |b| > 0
    ensures PathCost(c, a + b) == Plus(Plus(PathCost(c, a), ArcCost(c, a[|a| - 1], b[0])), PathCost(c, b))
    decreases |b|
  {
    var ab := a + b;
    if |b| == 1 {
      assert ab[..|ab| - 1] == a;
    } else {
      var b' := b[..|b| - 1];
      assert ab[..|ab| - 1] == a + b';
      assert b'[0] == b[0];
      PathCostConcat(c, a, b');
    }
  }

  /** t[k..] + t[..k]: the same cycle entered at position k. */
  function Rotate(t: seq<int>, k: nat): seq<int>
    requires k <= |t|
  {
    t[k..] + t[..k]
  }

  /** A rotation starts at t[k], visits the cities in the same cyclic order and keeps them all. */
  lemma RotateCells(t: seq<int>, k: nat)
    requires k < |t|
    ensures |Rotate(t, k)| == |t| && Rotate(t, k)[0] == t[k]
    ensures forall q :: 0 <= q < |t| ==> Rotate(t, k)[q] == t[(q + k) % |t|]
    ensures multiset(Rotate(t, k)) == multiset(t)
  {
    assert t == t[..k] + t[k..];
    forall q | 0 <= q < |t|
      ensures Rotate(t, k)[q] == t[(q + k) % |t|]
    {
      ModOnce(q + k, |t|);
    }
  }

  /** Below twice the modulus, the remainder is at most one subtraction away. */
  lemma ModOnce(x: nat, n: nat)
    requires 0 < n && x < 2 * n
    ensures x % n == if x < n then x else x - n
  {
  }

  /** Rotating a tour does not change its cycle cost. */
  lemma {:induction false} TourCostRotate(c: Matrix, t: seq<int>, k: nat)
    requires k < |t|
    ensures TourCost(c, Rotate(t, k)) == TourCost(c, t)
  {
    if k == 0 {
      assert Rotate(t, k) == t;
    } else {
      var a, b := t[..k], t[k..];
      assert t == a + b;
      assert Rotate(t, k) == b + a;
      PathCostConcat(c, a, b);
      PathCostConcat(c, b, a);
      assert (a + b)[0] == a[0] && (a + b)[|t| - 1] == b[|b| - 1];
      assert (b + a)[0] == b[0] && (b + a)[|t| - 1] == a[|a| - 1];
    }
  }

  /** Rotating a tour keeps its length and its cities, so check_tour judges it alike. */
  lemma RotateKeepsCheck(t: seq<int>, k: nat, n: nat)
    requires k < |t|
    ensures CheckTour(Rotate(t, k), n, true) == CheckTour(t, n, true)
  {
    RotateCells(t, k);
    var r := Rotate(t, k);
    assert forall x :: x in r <==> x in multiset(r);
    assert forall x :: x in t <==> x in multiset(t);
    assert Elements(r) == Elements(t);
  }

  /** The cities of t as a set. */
  function Elements(t: seq<int>): set<int>
  {
    set x | x in t
  }

  /** check_tour: the length test when asked for, and as many distinct cities as entries. */
  function CheckTour(tour: seq<int>, n: nat, checkLen: bool): bool
  {
    (!checkLen || |tour| == n) && |tour| == |Elements(tour)|
  }

  /** The set of a list is never larger than the list, and is as large exactly when no city repeats. */
  lemma {:induction false} ElementsSize(t: seq<int>)
    ensures |Elements(t)| <= |t|
    ensures |Elements(t)| == |t| <==> Distinct(t)
  {
    if |t| > 0 {
      var p, x := t[..|t| - 1], t[|t| - 1];
      assert t == p + [x];
      assert Elements(t) == Elements(p) + {x};
      ElementsSize(p);
      if x in p {
        assert Elements(t) == Elements(p);
        var q :| 0 <= q < |p| && p[q] == x;
        assert t[q] == t[|t| - 1];
      } else {
        assert x !in Elements(p);
        if Distinct(p) {
          forall u, v | 0 <= u < v < |t|
            ensures t[u] != t[v]
          {
            if v < |p| {
              assert t[u] == p[u] && t[v] == p[v];
            } else {
              assert t[u] == p[u];
            }
          }
        } else {
          var u, v :| 0 <= u < v < |p| && p[u] == p[v];
          assert t[u] == t[v];
        }
      }
    } else {
      assert Elements(t) == {};
    }
  }

  /** check_tour passes exactly on tours of the required length without a repeated city. */
  lemma CheckTourMeaning(tour: seq<int>, n: nat, checkLen: bool)
    ensures CheckTour(tour, n, checkLen) <==> (!checkLen || |tour| == n) && Distinct(tour)
  {
    ElementsSize(tour);
  }

  /** Every entry names one of the cities 1..n. */
  predicate IdsWithin(s: seq<int>, n: int)
  {
    forall x :: x in s ==> 1 <= x <= n
  }

  /** Every city of the fragments is one of 1..n. */
  predicate FragmentsWithin(tour: Tour, n: int)
  {
    forall x :: x in Cities(tour) ==> 1 <= x <= n
  }

  /** A full-length tour that check_tour accepts and that names only cities 1..n visits each of them. */
  lemma CheckedTourIsPermutation(t: seq<int>, n: nat)
    requires CheckTour(t, n, true) && IdsWithin(t, n)
    ensures forall x :: x in t <==> 1 <= x <= n
  {
    var all := CitySets.Cities(1, n + 1);
    assert Elements(t) <= all && |all| == n;
    CitySets.SubsetSameSize(Elements(t), all);
    assert forall x :: x in t <==> x in Elements(t);
  }

  /** Rotating a tour keeps the cities it names. */
  lemma RotateKeepsIds(t: seq<int>, k: nat, n: int)
    requires k < |t|
    ensures IdsWithin(Rotate(t, k), n) == IdsWithin(t, n)
  {
    RotateCells(t, k);
    var r := Rotate(t, k);
    assert forall x :: x in r <==> x in multiset(r);
    assert forall x :: x in t <==> x in multiset(t);
  }

  /** The fragments laid end to end, as check_tour flattens them. */
  function Flatten(tour: Tour): seq<int>
  {
    if |tour| == 0 then [] else Flatten(tour[..|tour| - 1]) + tour[|tour| - 1]
  }

  lemma {:induction false} FlattenCities(tour: Tour)
    ensures multiset(Flatten(tour)) == Cities(tour)
  {
    if |tour| > 0 {
      FlattenCities(tour[..|tour| - 1]);
    }
  }

  lemma {:induction false} DistinctIffNoRepeats(t: seq<int>)
    ensures Distinct(t) <==> NoRepeats(multiset(t))
  {
    if |t| > 0 {
      var p, x := t[..|t| - 1], t[|t| - 1];
      assert t == p + [x];
      DistinctIffNoRepeats(p);
      if x in p {
        var q :| 0 <= q < |p| && p[q] == x;
        assert t[q] == t[|t| - 1];
        assert multiset(t)[x] >= 2;
      } else if Distinct(p) {
        forall u, v | 0 <= u < v < |t|
          ensures t[u] != t[v]
        {
          assert t[u] == p[u];
          if v < |p| {
            assert t[v] == p[v];
          }
        }
        forall y | y in multiset(t)
          ensures multiset(t)[y] == 1
        {
          if y != x {
            assert y in multiset(p);
          }
        }
      } else {
        var u, v :| 0 <= u < v < |p| && p[u] == p[v];
        assert t[u] == t[v];
        var y :| y in multiset(p) && multiset(p)[y] != 1;
        assert multiset(t)[y] == multiset(p)[y] + (if y == x then 1 else 0);
      }
    }
  }

  /** block_3's check of the fragment list passes exactly when no city repeats across the fragments. */
  lemma FlatCheckIffDistinctCities(tour: Tour, n: nat)
    ensures CheckTour(Flatten(tour), n, false) <==> DistinctCities(tour)
  {
    CheckTourMeaning(Flatten(tour), n, false);
    DistinctIffNoRepeats(Flatten(tour));
    FlattenCities(tour);
  }
}
