/** Finite sets of cities and their sizes, as used to show that a tour visits every city. */
module CitySets {
  /** The cities lo..hi-1. */
  function Cities(lo: int, hi: int): (cs: set<int>)
    ensures forall c :: c in cs <==> lo <= c < hi
    ensures lo <= hi ==> |cs| == hi - lo
    decreases hi - lo
  {
    if lo >= hi then {} else {lo} + Cities(lo + 1, hi)
  }

  /** A subset as large as its superset is the superset: nothing is left over. */
  lemma SubsetSameSize(a: set<int>, b: set<int>)
    requires a <= b && |a| == |b|
    ensures a == b
  {
    assert b == a + (b - a);
    assert a * (b - a) == {};
    assert |b - a| == 0;
  }
}
