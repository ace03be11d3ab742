/**
 * The search tree and the matrix a tree node stands for. Nodes live in an
 * arena (a sequence indexed by node id; Python's object identity is id
 * equality). Each non-root node carries the arc its branch decided: (i, j)
 * for "arc i -> j is in the tour", (-i, -j) for "arc i -> j is not". The
 * working matrix of a node is rebuilt, as block_11 does, by replaying the
 * decisions from the node up to the root on a fresh copy of C.
 */
module SearchTree {
  import opened Wrappers
  import opened Reduction
  import opened TourAssembly
  import opened Tours
  import opened WorkingMatrix

  /** A tree vertex: parent and children by id, the branching decision and the lower bound. */
  datatype Node = Node(parent: Option<nat>, path: Option<(int, int)>, leftChild: Option<nat>,
                       rightChild: Option<nat>, bound: Option<int>)

  /** Every parent was created before its child, so climbing towards the root terminates. */
  predicate Tree(nodes: seq<Node>)
  {
    forall k :: 0 <= k < |nodes| && nodes[k].parent.Some? ==> nodes[k].parent.value < k
  }

  /** The matrix with its maps: a square matrix whose rows and columns are named by distinct city ids. */
  predicate Mapped(m: Matrix, rowMap: seq<int>, colMap: seq<int>)
  {
    Square(m, |rowMap|) && |colMap| == |rowMap| && Distinct(rowMap) && Distinct(colMap)
  }

  /** The cell of row city a and column city b. */
  function At(m: Matrix, rowMap: seq<int>, colMap: seq<int>, a: int, b: int): Cell
    requires Mapped(m, rowMap, colMap) && a in rowMap && b in colMap
  {
    m[IndexOf(rowMap, a).value][IndexOf(colMap, b).value]
  }

  /**
   * disable_path: forbid arc a -> b when both cities are still in the
   * matrix (the position tests always hold for a mapped matrix).
   */
  function DisableOn(m: Matrix, rowMap: seq<int>, colMap: seq<int>, a: int, b: int): Matrix
  {
    var r, k := IndexOf(rowMap, a), IndexOf(colMap, b);
    if r.Some? && k.Some? && r.value < |m| && k.value < |m[r.value]| then Forbid(m, r.value, k.value) else m
  }

  /** disable_path changes the one cell of arc a -> b, when present, to None. */
  lemma DisableOnCells(m: Matrix, rowMap: seq<int>, colMap: seq<int>, a: int, b: int)
    requires Mapped(m, rowMap, colMap)
    ensures Mapped(DisableOn(m, rowMap, colMap, a, b), rowMap, colMap)
    ensures forall u, v :: u in rowMap && v in colMap ==>
      At(DisableOn(m, rowMap, colMap, a, b), rowMap, colMap, u, v)
      == if u == a && v == b then None else At(m, rowMap, colMap, u, v)
  {
    if a in rowMap && b in colMap {
      ForbidSquare(m, |rowMap|, IndexOf(rowMap, a).value, IndexOf(colMap, b).value);
      forall u, v | u in rowMap && v in colMap
        ensures (IndexOf(rowMap, u) == IndexOf(rowMap, a)) == (u == a)
        ensures (IndexOf(colMap, v) == IndexOf(colMap, b)) == (v == b)
      {
      }
    }
  }

  /**
   * Committing arc i -> j: delete_row_col (the row of i, the column of j and
   * both map entries), then disable_path on the reverse arc j -> i. None where
   * the source raises ValueError because a city is no longer in a map.
   */
  function CommitArc(m: Matrix, rowMap: seq<int>, colMap: seq<int>, i: int, j: int): (r: Option<(Matrix, seq<int>, seq<int>)>)
    requires Mapped(m, rowMap, colMap)
    ensures r.Some? ==> Square(r.value.0, |r.value.1|) && |r.value.1| == |rowMap| - 1 && |r.value.2| == |r.value.1|
  {
    if i in rowMap && j in colMap then
      var r, k := IndexOf(rowMap, i).value, IndexOf(colMap, j).value;
      var rm, cm := RemoveAt(rowMap, r), RemoveAt(colMap, k);
      CommitArcSquare(m, |rowMap|, rm, cm, r, k, i, j);
      Some((DisableOn(DeleteRowCol(m, r, k), rm, cm, j, i), rm, cm))
    else None
  }

  lemma CommitArcSquare(m: Matrix, n: nat, rm: seq<int>, cm: seq<int>, r: nat, k: nat, i: int, j: int)
    requires Square(m, n) && r < n && k < n
    ensures Square(DisableOn(DeleteRowCol(m, r, k), rm, cm, j, i), n - 1)
  {
    DeleteRowColCells(m, n, r, k);
  }

  /** Committing arc i -> j removes city i from the rows and j from the columns. */
  lemma CommitArcShape(m: Matrix, rowMap: seq<int>, colMap: seq<int>, i: int, j: int)
    requires Mapped(m, rowMap, colMap)
    ensures CommitArc(m, rowMap, colMap, i, j).Some? <==> i in rowMap && j in colMap
    ensures CommitArc(m, rowMap, colMap, i, j).Some? ==>
      var (m', rm, cm) := CommitArc(m, rowMap, colMap, i, j).value;
      Mapped(m', rm, cm) && |rm| == |rowMap| - 1
      && (forall u :: u in rm <==> u in rowMap && u != i)
      && (forall v :: v in cm <==> v in colMap && v != j)
  {
    if i in rowMap && j in colMap {
      var r, k := IndexOf(rowMap, i).value, IndexOf(colMap, j).value;
      DeleteRowColCells(m, |rowMap|, r, k);
      RemoveAtDistinct(rowMap, r);
      RemoveAtDistinct(colMap, k);
      DisableOnCells(DeleteRowCol(m, r, k), RemoveAt(rowMap, r), RemoveAt(colMap, k), j, i);
    }
  }

  /**
   * Committing arc i -> j forbids the reverse arc j -> i and leaves every
   * other remaining cell, addressed by city ids, as it was.
   */
  lemma CommitArcCells(m: Matrix, rowMap: seq<int>, colMap: seq<int>, i: int, j: int)
    requires Mapped(m, rowMap, colMap) && i in rowMap && j in colMap
    ensures CommitArc(m, rowMap, colMap, i, j).Some?
    ensures
      var (m', rm, cm) := CommitArc(m, rowMap, colMap, i, j).value;
      Mapped(m', rm, cm)
      && forall u, v :: u in rm && v in cm ==>
        At(m', rm, cm, u, v) == if u == j && v == i then None else At(m, rowMap, colMap, u, v)
  {
    var n := |rowMap|;
    var r, k := IndexOf(rowMap, i).value, IndexOf(colMap, j).value;
    var rm, cm := RemoveAt(rowMap, r), RemoveAt(colMap, k);
    DeleteRowColCells(m, n, r, k);
    RemoveAtDistinct(rowMap, r);
    RemoveAtDistinct(colMap, k);
    var d := DeleteRowCol(m, r, k);
    assert Mapped(d, rm, cm);
    forall u, v | u in rm && v in cm
      ensures At(d, rm, cm, u, v) == At(m, rowMap, colMap, u, v)
    {
      var p, q := IndexOf(rm, u).value, IndexOf(cm, v).value;
      IndexOfDistinct(rowMap, Skip(p, r));
      IndexOfDistinct(colMap, Skip(q, k));
    }
    DisableOnCells(d, rm, cm, j, i);
  }

  /** What block_11 rebuilds: matrix, maps, fragment list and the cost of the arcs included so far. */
  datatype Branch = Branch(m: Matrix, rowMap: seq<int>, colMap: seq<int>, tour: Tour, cost: int)

  predicate Shaped(b: Branch)
  {
    Mapped(b.m, b.rowMap, b.colMap) && NonEmptyFragments(b.tour)
  }

  /** The state block_11 starts from: C with identity maps, no fragments, nothing paid. */
  function Fresh(c: Matrix): Branch
  {
    Branch(c, Ids(|c|), Ids(|c|), [], 0)
  }

  lemma FreshShaped(c: Matrix)
    requires Square(c, |c|)
    ensures Shaped(Fresh(c))
  {
    IdsDistinct(|c|);
  }

  /** A decision with both components negative forbids an arc; any other includes one. */
  predicate Excludes(decision: (int, int))
  {
    decision.0 < 0 && decision.1 < 0
  }

  /**
   * An included arc joins the fragments: it starts the first fragment when
   * there is none, otherwise add_path tries it alone. None when refused.
   */
  function AddArc(tour: Tour, i: int, j: int): Option<Tour>
    requires NonEmptyFragments(tour)
  {
    if |tour| == 0 then Some([[i, j]]) else TryAdd(tour, i, j)
  }

  /** An accepted arc is the one arc the fragments gain. */
  lemma AddArcFacts(tour: Tour, i: int, j: int)
    requires NonEmptyFragments(tour)
    ensures AddArc(tour, i, j).Some? ==>
      NonEmptyFragments(AddArc(tour, i, j).value) && Arcs(AddArc(tour, i, j).value) == Arcs(tour) + multiset{(i, j)}
  {
    if |tour| == 0 {
      assert Arcs([[i, j]]) == Arcs([]) + FragmentArcs([i, j]);
      FragmentArcsPair(i, j);
    } else {
      TryAddArcs(tour, i, j);
      TryAddNonEmpty(tour, i, j);
    }
  }

  /** Including arc i -> j: add it to the fragments, pay its cell of C and commit it; None where the source raises. */
  function Include(c: Matrix, b: Branch, i: int, j: int): Option<Branch>
    requires Shaped(b)
  {
    var tour := AddArc(b.tour, i, j);
    var cost := ArcCost(c, i, j);
    var committed := CommitArc(b.m, b.rowMap, b.colMap, i, j);
    if tour.Some? && cost.Some? && committed.Some? then
      Some(Branch(committed.value.0, committed.value.1, committed.value.2, tour.value, b.cost + cost.value))
    else None
  }

  /** An inclusion adds exactly its arc to the fragments, pays C's cell of the arc and takes one city out of each map. */
  lemma IncludeFacts(c: Matrix, b: Branch, i: int, j: int)
    requires Shaped(b)
    ensures Include(c, b, i, j).Some? ==>
      var b' := Include(c, b, i, j).value;
      Shaped(b') && Arcs(b'.tour) == Arcs(b.tour) + multiset{(i, j)}
      && ArcCost(c, i, j) == Some(b'.cost - b.cost)
      && |b'.rowMap| == |b.rowMap| - 1
  {
    var tour := AddArc(b.tour, i, j);
    var cost := ArcCost(c, i, j);
    var committed := CommitArc(b.m, b.rowMap, b.colMap, i, j);
    if tour.Some? && cost.Some? && committed.Some? {
      AddArcFacts(b.tour, i, j);
      CommitArcShape(b.m, b.rowMap, b.colMap, i, j);
      var b' := Branch(committed.value.0, committed.value.1, committed.value.2, tour.value, b.cost + cost.value);
      assert Include(c, b, i, j) == Some(b');
      assert Mapped(b'.m, b'.rowMap, b'.colMap);
    }
  }

  /** One step of block_11's climb: forbid the arc of an exclusion, include the arc of an inclusion. */
  function Step(c: Matrix, b: Branch, decision: (int, int)): Option<Branch>
    requires Shaped(b)
  {
    if Excludes(decision) then Some(b.(m := DisableOn(b.m, b.rowMap, b.colMap, -decision.0, -decision.1)))
    else Include(c, b, decision.0, decision.1)
  }

  /** A step keeps the state well shaped; an exclusion changes one cell and nothing else. */
  lemma StepFacts(c: Matrix, b: Branch, decision: (int, int))
    requires Shaped(b)
    ensures Step(c, b, decision).Some? ==> Shaped(Step(c, b, decision).value)
    ensures !Excludes(decision) && Step(c, b, decision).Some? ==>
      Arcs(Step(c, b, decision).value.tour) == Arcs(b.tour) + multiset{decision}
      && |Step(c, b, decision).value.rowMap| == |b.rowMap| - 1
  {
    if Excludes(decision) {
      DisableOnCells(b.m, b.rowMap, b.colMap, -decision.0, -decision.1);
    } else {
      IncludeFacts(c, b, decision.0, decision.1);
    }
  }

  /** Replay the decisions from node k up to the root; None where the source raises. */
  function Walk(c: Matrix, nodes: seq<Node>, b: Branch, k: nat): Option<Branch>
    requires Tree(nodes) && k < |nodes| && Shaped(b)
    decreases k
  {
    match nodes[k].parent
    case None => Some(b)
    case Some(p) =>
      match nodes[k].path
      case None => None
      case Some(decision) =>
        StepFacts(c, b, decision);
        match Step(c, b, decision)
        case None => None
        case Some(b') => Walk(c, nodes, b', p)
  }

  /** The arcs included on the way from node k to the root. */
  function Included(nodes: seq<Node>, k: nat): multiset<(int, int)>
    requires Tree(nodes) && k < |nodes|
    decreases k
  {
    match nodes[k].parent
    case None => multiset{}
    case Some(p) =>
      var here := match nodes[k].path
        case Some(decision) => if Excludes(decision) then multiset{} else multiset{decision}
        case None => multiset{};
      here + Included(nodes, p)
  }

  /**
   * A successful replay leaves a well-shaped state whose fragments hold
   * exactly the arcs included on the way to the root, and every included arc
   * removed one city from the maps.
   */
  lemma {:induction false} WalkArcs(c: Matrix, nodes: seq<Node>, b: Branch, k: nat)
    requires Tree(nodes) && k < |nodes| && Shaped(b)
    ensures Walk(c, nodes, b, k).Some? ==>
      var w := Walk(c, nodes, b, k).value;
      Shaped(w) && Arcs(w.tour) == Arcs(b.tour) + Included(nodes, k)
      && |w.rowMap| + |Included(nodes, k)| == |b.rowMap|
    decreases k
  {
    match nodes[k].parent
    case None =>
    case Some(p) =>
      match nodes[k].path
      case None =>
      case Some(decision) =>
        StepFacts(c, b, decision);
        match Step(c, b, decision)
        case None =>
        case Some(b') =>
          WalkArcs(c, nodes, b', p);
  }

  // ------------------------------------------------------------------
  // City ids stay within 1..n
  // ------------------------------------------------------------------

  /** The maps and the fragments of a state name cities among 1..n only. */
  predicate BranchWithin(b: Branch, n: int)
  {
    IdsWithin(b.rowMap, n) && IdsWithin(b.colMap, n) && FragmentsWithin(b.tour, n)
  }

  /** An accepted arc brings in no city other than its two ends. */
  lemma AddArcCities(tour: Tour, i: int, j: int)
    requires NonEmptyFragments(tour)
    ensures AddArc(tour, i, j).Some? ==> Cities(AddArc(tour, i, j).value) <= Cities(tour) + multiset{i, j}
  {
    if |tour| == 0 {
      CitiesAppend([], [i, j]);
      assert [] + [[i, j]] == [[i, j]];
      assert multiset([i, j]) == multiset{i, j};
    } else {
      TryAddCitiesWithin(tour, i, j);
    }
  }

  /** An inclusion takes its arc from the maps, so a step keeps every city id within 1..n. */
  lemma StepWithin(c: Matrix, b: Branch, decision: (int, int), n: int)
    requires Shaped(b) && BranchWithin(b, n)
    ensures Step(c, b, decision).Some? ==> BranchWithin(Step(c, b, decision).value, n)
  {
    if !Excludes(decision) && Step(c, b, decision).Some? {
      CommitArcShape(b.m, b.rowMap, b.colMap, decision.0, decision.1);
      AddArcCities(b.tour, decision.0, decision.1);
    }
  }

  lemma {:induction false} WalkWithin(c: Matrix, nodes: seq<Node>, b: Branch, k: nat, n: int)
    requires Tree(nodes) && k < |nodes| && Shaped(b) && BranchWithin(b, n)
    ensures Walk(c, nodes, b, k).Some? ==> BranchWithin(Walk(c, nodes, b, k).value, n)
    decreases k
  {
    match nodes[k].parent
    case None =>
    case Some(p) =>
      match nodes[k].path
      case None =>
      case Some(decision) =>
        StepFacts(c, b, decision);
        StepWithin(c, b, decision, n);
        match Step(c, b, decision)
        case None =>
        case Some(b') =>
          WalkWithin(c, nodes, b', p, n);
  }

  /** block_11 rebuilds maps and fragments that name cities 1..|C| only. */
  lemma RebuildWithin(c: Matrix, nodes: seq<Node>, k: nat)
    requires Square(c, |c|) && Tree(nodes) && k < |nodes|
    ensures Walk(c, nodes, Fresh(c), k).Some? ==> BranchWithin(Walk(c, nodes, Fresh(c), k).value, |c|)
  {
    FreshShaped(c);
    IdsWithinRange(|c|);
    WalkWithin(c, nodes, Fresh(c), k, |c|);
  }

  // ------------------------------------------------------------------
  // The fragments never visit a city twice
  // ------------------------------------------------------------------

  /**
   * The fragments and the maps agree as the deletions of block_5 and
   * block_11 keep them: no city is visited twice, no city a fragment already
   * leaves is still a row of the matrix and no city a fragment already enters
   * is still a column.
   */
  predicate Apart(tour: Tour, rowMap: seq<int>, colMap: seq<int>)
  {
    NonEmptyFragments(tour) && DistinctCities(tour)
    && forall a :: a in Arcs(tour) ==> a.0 !in rowMap && a.1 !in colMap
  }

  /** Under Apart, a city that some city follows in a fragment is no longer a row of the matrix. */
  lemma ApartLeaves(tour: Tour, rowMap: seq<int>, colMap: seq<int>, k: nat, p: nat)
    requires Apart(tour, rowMap, colMap) && k < |tour| && p + 1 < |tour[k]|
    ensures tour[k][p] !in rowMap
  {
    ArcsHasFragment(tour, k);
    FragmentArcsMember(tour[k], p);
  }

  /** Under Apart, a city that follows another in a fragment is no longer a column of the matrix. */
  lemma ApartEnters(tour: Tour, rowMap: seq<int>, colMap: seq<int>, k: nat, p: nat)
    requires Apart(tour, rowMap, colMap) && k < |tour| && 0 < p < |tour[k]|
    ensures tour[k][p] !in colMap
  {
    ArcsHasFragment(tour, k);
    FragmentArcsMember(tour[k], p - 1);
  }

  /** Under Apart, a row city can only end a fragment and a column city only start one. */
  lemma ApartEndsOnly(tour: Tour, rowMap: seq<int>, colMap: seq<int>, i: int, j: int)
    requires Apart(tour, rowMap, colMap) && i in rowMap && j in colMap
    ensures EndsOnly(tour, i, j)
  {
    forall k, p | 0 <= k < |tour| && 0 <= p < |tour[k]|
      ensures (tour[k][p] == i ==> p == |tour[k]| - 1) && (tour[k][p] == j ==> p == 0)
    {
      if p + 1 < |tour[k]| {
        ApartLeaves(tour, rowMap, colMap, k, p);
      }
      if p > 0 {
        ApartEnters(tour, rowMap, colMap, k, p);
      }
    }
  }

  /** Under Apart, an arc from a row city to a different column city that is accepted keeps every city visited once. */
  lemma AddArcKeepsDistinct(tour: Tour, rowMap: seq<int>, colMap: seq<int>, i: int, j: int)
    requires Apart(tour, rowMap, colMap) && i in rowMap && j in colMap && i != j
    ensures AddArc(tour, i, j).Some? ==> DistinctCities(AddArc(tour, i, j).value)
  {
    if |tour| == 0 {
      AddArcCities(tour, i, j);
      assert Cities([[i, j]]) == multiset{i, j} by {
        CitiesAppend([], [i, j]);
        assert [] + [[i, j]] == [[i, j]];
      }
    } else {
      ApartEndsOnly(tour, rowMap, colMap, i, j);
      TryAddCities(tour, i, j);
    }
  }

  /** An inclusion that is not a self arc keeps the fragments apart from the maps. */
  lemma IncludeKeepsApart(c: Matrix, b: Branch, i: int, j: int)
    requires Shaped(b) && Apart(b.tour, b.rowMap, b.colMap) && i != j
    ensures Include(c, b, i, j).Some? ==>
      var b' := Include(c, b, i, j).value;
      Apart(b'.tour, b'.rowMap, b'.colMap)
  {
    if Include(c, b, i, j).Some? {
      CommitArcShape(b.m, b.rowMap, b.colMap, i, j);
      AddArcKeepsDistinct(b.tour, b.rowMap, b.colMap, i, j);
      AddArcFacts(b.tour, i, j);
    }
  }

  /** No node of the tree includes an arc from a city to itself. */
  predicate NoSelfArcs(nodes: seq<Node>)
  {
    forall k :: 0 <= k < |nodes| && nodes[k].path.Some? ==> nodes[k].path.value.0 != nodes[k].path.value.1
  }

  lemma {:induction false} WalkKeepsApart(c: Matrix, nodes: seq<Node>, b: Branch, k: nat)
    requires Tree(nodes) && k < |nodes| && Shaped(b) && Apart(b.tour, b.rowMap, b.colMap) && NoSelfArcs(nodes)
    ensures Walk(c, nodes, b, k).Some? ==>
      var w := Walk(c, nodes, b, k).value;
      Apart(w.tour, w.rowMap, w.colMap)
    decreases k
  {
    match nodes[k].parent
    case None =>
    case Some(p) =>
      match nodes[k].path
      case None =>
      case Some(decision) =>
        StepFacts(c, b, decision);
        if !Excludes(decision) {
          IncludeKeepsApart(c, b, decision.0, decision.1);
        }
        match Step(c, b, decision)
        case None =>
        case Some(b') =>
          WalkKeepsApart(c, nodes, b', p);
  }

  /** Fragments that block_11 rebuilds from a tree without self arcs never visit a city twice. */
  lemma RebuildIsApart(c: Matrix, nodes: seq<Node>, k: nat)
    requires Square(c, |c|) && Tree(nodes) && k < |nodes| && NoSelfArcs(nodes)
    ensures Walk(c, nodes, Fresh(c), k).Some? ==>
      var w := Walk(c, nodes, Fresh(c), k).value;
      Apart(w.tour, w.rowMap, w.colMap) && DistinctCities(w.tour)
  {
    FreshShaped(c);
    WalkKeepsApart(c, nodes, Fresh(c), k);
  }
}
