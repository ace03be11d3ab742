/**
 * The priority queue of search-tree nodes still to be explored: a list kept
 * in non-decreasing order of the nodes' lower bounds, with the head the
 * most promising node.
 */
module Candidates {
  import opened Wrappers

  /** A queued node: its id in the search tree and its lower bound. */
  datatype Candidate = Candidate(node: nat, bound: int)

  predicate SortedByBound(s: seq<Candidate>)
  {
    forall p, q :: 0 <= p < q < |s| ==> s[p].bound <= s[q].bound
  }

  /** The position `add` inserts at: before the first entry whose bound is at least b. */
  function InsertionPoint(s: seq<Candidate>, b: int): (k: nat)
    ensures k <= |s|
    ensures forall q :: 0 <= q < k ==> s[q].bound < b
    ensures k < |s| ==> b <= s[k].bound
  {
    if |s| == 0 then 0
    else if b <= s[0].bound then 0
    else 1 + InsertionPoint(s[1..], b)
  }

  function Inserted(s: seq<Candidate>, e: Candidate): seq<Candidate>
  {
    var k := InsertionPoint(s, e.bound);
    s[..k] + [e] + s[k..]
  }

  /** The new entry sits at the insertion point, behind every smaller bound and in front of every bound at least its own. */
  lemma {:induction false} InsertedCells(s: seq<Candidate>, e: Candidate)
    ensures |Inserted(s, e)| == |s| + 1
    ensures var k := InsertionPoint(s, e.bound);
      Inserted(s, e)[k] == e
      && (forall q :: 0 <= q < k ==> Inserted(s, e)[q] == s[q] && s[q].bound < e.bound)
      && (forall q :: k < q < |s| + 1 ==> Inserted(s, e)[q] == s[q - 1])
  {
  }

  /** Inserting adds exactly the new entry. */
  lemma InsertedContents(s: seq<Candidate>, e: Candidate)
    ensures multiset(Inserted(s, e)) == multiset(s) + multiset{e}
  {
    var k := InsertionPoint(s, e.bound);
    assert s == s[..k] + s[k..];
  }

  /** Inserting keeps the list sorted. */
  lemma {:induction false} InsertedSorted(s: seq<Candidate>, e: Candidate)
    requires SortedByBound(s)
    ensures SortedByBound(Inserted(s, e))
  {
    var k := InsertionPoint(s, e.bound);
    var r := Inserted(s, e);
    InsertedCells(s, e);
    forall p, q | 0 <= p < q < |r|
      ensures r[p].bound <= r[q].bound
    {
      if q == k {
      } else if p == k {
        assert r[q] == s[q - 1];
      } else if q < k {
      } else if p < k {
        assert r[q] == s[q - 1];
      } else {
        assert r[p] == s[p - 1] && r[q] == s[q - 1];
      }
    }
  }

  /** The head of a sorted list has the smallest bound. */
  lemma HeadIsMinimal(s: seq<Candidate>)
    requires SortedByBound(s) && |s| > 0
    ensures forall q :: 0 <= q < |s| ==> s[0].bound <= s[q].bound
  {
  }

  /** Every entry names one of the first n nodes of the tree. */
  predicate NodesBelow(s: seq<Candidate>, n: nat)
  {
    forall q :: 0 <= q < |s| ==> s[q].node < n
  }

  /** Every entry's bound is at least b. */
  predicate BoundsAtLeast(s: seq<Candidate>, b: int)
  {
    forall q :: 0 <= q < |s| ==> b <= s[q].bound
  }

  /** Inserting an entry that names one of the first n nodes keeps every entry naming one. */
  lemma InsertedNodesBelow(s: seq<Candidate>, e: Candidate, n: nat)
    requires NodesBelow(s, n) && e.node < n
    ensures NodesBelow(Inserted(s, e), n)
  {
    InsertedCells(s, e);
  }

  /** Inserting an entry whose bound is at least b keeps every bound at least b. */
  lemma InsertedBoundsAtLeast(s: seq<Candidate>, e: Candidate, b: int)
    requires BoundsAtLeast(s, b) && b <= e.bound
    ensures BoundsAtLeast(Inserted(s, e), b)
  {
    InsertedCells(s, e);
  }

  /** Behind the head of a sorted list every bound is at least the head's. */
  lemma TailAboveHead(s: seq<Candidate>)
    requires SortedByBound(s) && |s| > 0
    ensures BoundsAtLeast(s[1..], s[0].bound)
  {
  }

  class CandidateNodes {
    var nodelist: seq<Candidate>
    var size: int

    predicate Valid()
      reads this
    {
      size == |nodelist| && SortedByBound(nodelist)
    }

    constructor ()
      ensures Valid() && nodelist == []
    {
      nodelist := [];
      size := 0;
    }

    /** add: insert before the first entry whose bound is at least the new one. */
    method Add(e: Candidate)
      requires Valid()
      modifies this
      ensures Valid()
      ensures nodelist == Inserted(old(nodelist), e)
    {
      InsertedSorted(nodelist, e);
      InsertedCells(nodelist, e);
      var i := 0;
      while i < size
        invariant 0 <= i <= size && Valid() && nodelist == old(nodelist)
        invariant forall q :: 0 <= q < i ==> nodelist[q].bound < e.bound
      {
        if e.bound <= nodelist[i].bound {
          assert i == InsertionPoint(nodelist, e.bound);
          nodelist := nodelist[..i] + [e] + nodelist[i..];
          size := size + 1;
          return;
        }
        i := i + 1;
      }
      assert InsertionPoint(nodelist, e.bound) == |nodelist|;
      assert nodelist[..|nodelist|] + [e] + nodelist[|nodelist|..] == nodelist + [e];
      nodelist := nodelist + [e];
      size := size + 1;
    }

    /** get: the head, which has the smallest bound; None where the source raises on an empty list. */
    method Get() returns (r: Option<Candidate>)
      requires Valid()
      ensures r.None? <==> |nodelist| == 0
      ensures r.Some? ==> r.value == nodelist[0] && forall q :: 0 <= q < |nodelist| ==> r.value.bound <= nodelist[q].bound
    {
      if |nodelist| == 0 {
        return None;
      }
      HeadIsMinimal(nodelist);
      return Some(nodelist[0]);
    }

    /** pop: remove and return the head; None, changing nothing, on an empty list. */
    method Pop() returns (r: Option<Candidate>)
      requires Valid()
      modifies this
      ensures Valid()
      ensures old(|nodelist|) == 0 ==> r.None? && nodelist == old(nodelist)
      ensures old(|nodelist|) > 0 ==> r == Some(old(nodelist)[0]) && nodelist == old(nodelist)[1..]
    {
      if |nodelist| == 0 {
        return None;
      }
      var node := nodelist[0];
      nodelist := nodelist[1..];
      size := size - 1;
      return Some(node);
    }
  }
}
