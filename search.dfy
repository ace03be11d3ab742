/**
 * Little's branch-and-bound search as the source drives it: the global state
 * of the solver (C, C' with its maps, the current vertices X, Y and Y-bar,
 * the fragment list, the queue, the incumbent) becomes the fields of one
 * object, and every block of the flowchart a method on it. Where Python
 * raises, a method reports failure instead.
 */
module Search {
  import opened Wrappers
  import opened Reduction
  import opened ArcSelection
  import opened TourAssembly
  import opened Candidates
  import opened Tours
  import opened WorkingMatrix
  import opened SearchTree
  import opened MatrixState
  import opened Branching

  /** Every row of the input has one entry per city. */
  predicate SquareInput(input: seq<seq<int>>)
  {
    forall i :: 0 <= i < |input| ==> |input[i]| == |input|
  }

  /** find_max_Dij(C_prime) with the global maps: the candidate arcs by city ids and their penalty. */
  method MaxDijOf(matrix: IndexedMatrix) returns (possiblePaths: seq<(int, int)>, maxDij: int)
    requires matrix.Valid()
    ensures Rectangular(matrix.cPrime) && maxDij == MaxPenalty(matrix.cPrime) && maxDij >= 0
    ensures possiblePaths == PossiblePaths(matrix.cPrime, matrix.rowMap, matrix.colMap)
  {
    SquareRectangular(matrix.cPrime, |matrix.rowMap|);
    possiblePaths, maxDij := FindMaxDij(matrix.cPrime, matrix.rowMap, matrix.colMap);
    MaxPenaltyIsMax(matrix.cPrime);
  }

  /**
   * add_path over find_max_Dij's candidates: i_from and j_to start at the
   * first candidate and end at the one accepted, or at the last when all are
   * refused.
   */
  method TryCandidates(assembler: PathAssembler, possiblePaths: seq<(int, int)>) returns (added: bool)
    requires assembler.Valid() && |possiblePaths| > 0
    modifies assembler
    ensures assembler.Valid()
    ensures !added ==> (assembler.currentTour == old(assembler.currentTour)
      && FirstAddable(old(assembler.currentTour), possiblePaths, 0).None?
      && (assembler.iFrom, assembler.jTo) == possiblePaths[|possiblePaths| - 1])
    ensures added ==> (FirstAddable(old(assembler.currentTour), possiblePaths, 0).Some?
      && (assembler.iFrom, assembler.jTo) == possiblePaths[FirstAddable(old(assembler.currentTour), possiblePaths, 0).value]
      && Some(assembler.currentTour) == TryAdd(old(assembler.currentTour), assembler.iFrom, assembler.jTo))
  {
    assembler.iFrom := possiblePaths[0].0;
    assembler.jTo := possiblePaths[0].1;
    added := assembler.AddPath(possiblePaths);
  }

  /** The retry step of block_3: forbid the last candidate, which the fragment list refused like all the others. */
  method ForbidLastTried(matrix: IndexedMatrix, ghost tour: Tour, ghost tried: seq<(int, int)>, iFrom: int, jTo: int)
    requires matrix.Valid() && NonEmptyFragments(tour)
    requires tried == PossiblePaths(matrix.cPrime, matrix.rowMap, matrix.colMap) && |tried| > 0
    requires FirstAddable(tour, tried, 0).None? && (iFrom, jTo) == tried[|tried| - 1]
    modifies matrix`cPrime
    ensures matrix.Valid()
    ensures Choose(matrix.cPrime, matrix.rowMap, matrix.colMap, tour) == Choose(old(matrix.cPrime), matrix.rowMap, matrix.colMap, tour)
    ensures ZeroSet(matrix.cPrime) < ZeroSet(old(matrix.cPrime))
  {
    ChooseRetry(matrix.cPrime, matrix.rowMap, matrix.colMap, tour);
    ForbidLastIsDisable(matrix.cPrime, matrix.rowMap, matrix.colMap, iFrom, jTo);
    // both ids come from the maps, so this forbids exactly the cell of the last candidate
    matrix.DisablePath(iFrom, jTo);
  }

  /**
   * One pass of block_3's retry loop: forbid the last candidate, which the
   * fragment list refused like all the others, recompute the candidates and
   * try them again. The choice still to be made stays the same.
   */
  method Retry(matrix: IndexedMatrix, assembler: PathAssembler, tried: seq<(int, int)>)
      returns (possiblePaths: seq<(int, int)>, maxDij: int, added: bool)
    requires matrix.Valid() && assembler.Valid()
    requires tried == PossiblePaths(matrix.cPrime, matrix.rowMap, matrix.colMap) && |tried| > 0
    requires FirstAddable(assembler.currentTour, tried, 0).None? && (assembler.iFrom, assembler.jTo) == tried[|tried| - 1]
    modifies matrix`cPrime, assembler
    ensures matrix.Valid() && assembler.Valid()
    ensures Choose(matrix.cPrime, matrix.rowMap, matrix.colMap, old(assembler.currentTour))
         == Choose(old(matrix.cPrime), matrix.rowMap, matrix.colMap, old(assembler.currentTour))
    ensures ZeroSet(matrix.cPrime) < ZeroSet(old(matrix.cPrime))
    ensures Rectangular(matrix.cPrime) && maxDij == MaxPenalty(matrix.cPrime) && maxDij >= 0
    ensures possiblePaths == PossiblePaths(matrix.cPrime, matrix.rowMap, matrix.colMap)
    ensures |possiblePaths| == 0 ==> !added && assembler.currentTour == old(assembler.currentTour)
    ensures |possiblePaths| > 0 && !added ==> (assembler.currentTour == old(assembler.currentTour)
      && FirstAddable(old(assembler.currentTour), possiblePaths, 0).None?
      && (assembler.iFrom, assembler.jTo) == possiblePaths[|possiblePaths| - 1])
    ensures added ==> (|possiblePaths| > 0 && FirstAddable(old(assembler.currentTour), possiblePaths, 0).Some?
      && (assembler.iFrom, assembler.jTo) == possiblePaths[FirstAddable(old(assembler.currentTour), possiblePaths, 0).value]
      && Some(assembler.currentTour) == TryAdd(old(assembler.currentTour), assembler.iFrom, assembler.jTo))
  {
    ForbidLastTried(matrix, assembler.currentTour, tried, assembler.iFrom, assembler.jTo);
    possiblePaths, maxDij := MaxDijOf(matrix);
    if |possiblePaths| == 0 {
      return possiblePaths, maxDij, false;
    }
    added := TryCandidates(assembler, possiblePaths);
  }

  /**
   * The arc choice of block_3, proved to compute Choose: find_max_Dij, then
   * add_path over the candidates, forbidding the last candidate tried and
   * starting again while all are refused. Returns max_Dij as well.
   */
  method ChooseArc(matrix: IndexedMatrix, assembler: PathAssembler) returns (found: bool, maxDij: int)
    requires matrix.Valid() && assembler.Valid()
    modifies matrix`cPrime, assembler
    ensures matrix.Valid() && assembler.Valid() && maxDij >= 0
    ensures
      var (m', arc) := Choose(old(matrix.cPrime), matrix.rowMap, matrix.colMap, old(assembler.currentTour));
      matrix.cPrime == m' && Rectangular(m') && maxDij == MaxPenalty(m')
      && (found <==> arc.Some?)
      && (found ==> ((assembler.iFrom, assembler.jTo) == arc.value
           && AddArc(old(assembler.currentTour), arc.value.0, arc.value.1) == Some(assembler.currentTour)))
      && (!found ==> assembler.currentTour == old(assembler.currentTour))
  {
    ghost var tour0, rowMap, colMap := assembler.currentTour, matrix.rowMap, matrix.colMap;
    ghost var target := Choose(matrix.cPrime, rowMap, colMap, tour0);
    var possiblePaths;
    possiblePaths, maxDij := MaxDijOf(matrix);
    if |possiblePaths| == 0 {
      ChooseNothing(matrix.cPrime, rowMap, colMap, tour0);
      return false, maxDij;
    }
    if |assembler.currentTour| == 0 {
      ChooseOnNoFragments(matrix.cPrime, rowMap, colMap);
      assembler.iFrom := possiblePaths[0].0;
      assembler.jTo := possiblePaths[0].1;
      assembler.currentTour := [[assembler.iFrom, assembler.jTo]];
      return true, maxDij;
    }
    var added := TryCandidates(assembler, possiblePaths);
    while !added
      invariant matrix.Valid() && assembler.Valid() && matrix.rowMap == rowMap && matrix.colMap == colMap
      invariant possiblePaths == PossiblePaths(matrix.cPrime, rowMap, colMap) && |possiblePaths| > 0
      invariant Rectangular(matrix.cPrime) && maxDij == MaxPenalty(matrix.cPrime) && maxDij >= 0
      invariant Choose(matrix.cPrime, rowMap, colMap, tour0) == target
      invariant !added ==> (assembler.currentTour == tour0
        && FirstAddable(tour0, possiblePaths, 0).None?
        && (assembler.iFrom, assembler.jTo) == possiblePaths[|possiblePaths| - 1])
      invariant added ==> (FirstAddable(tour0, possiblePaths, 0).Some?
        && (assembler.iFrom, assembler.jTo) == possiblePaths[FirstAddable(tour0, possiblePaths, 0).value]
        && Some(assembler.currentTour) == TryAdd(tour0, assembler.iFrom, assembler.jTo))
      decreases ZeroSet(matrix.cPrime)
    {
      possiblePaths, maxDij, added := Retry(matrix, assembler, possiblePaths);
      if |possiblePaths| == 0 {
        ChooseNothing(matrix.cPrime, rowMap, colMap, tour0);
        return false, maxDij;
      }
    }
    ChooseAccepted(matrix.cPrime, rowMap, colMap, tour0);
    return true, maxDij;
  }

  /**
   * block_7's closing of the fragment list once C' is 2 by 2: join the two
   * fragments, or add one of the two pairings of the remaining rows and
   * columns to the single fragment. None where the source raises.
   */
  method CloseFragments(assembler: PathAssembler, rowMap: seq<int>, colMap: seq<int>) returns (paths: Option<seq<int>>)
    requires assembler.Valid()
    modifies assembler
    ensures assembler.Valid()
    ensures paths == LeafPaths(old(assembler.currentTour), rowMap, colMap)
    ensures forall u :: u in Cities(assembler.currentTour) ==>
      u in Cities(old(assembler.currentTour)) || u in rowMap || u in colMap
  {
    var tour := assembler.currentTour;
    if |tour| == 2 {
      return Some(tour[0] + tour[1]);
    }
    if |tour| != 1 || |rowMap| < 2 || |colMap| < 2 {
      return None;
    }
    var pair1 := [(rowMap[0], colMap[0]), (rowMap[1], colMap[1])];
    var pair2 := [(rowMap[0], colMap[1]), (rowMap[1], colMap[0])];
    AddPathResultCities(tour, pair1, rowMap, colMap);
    AddPathResultCities(tour, pair2, rowMap, colMap);
    var pathAdded := assembler.AddPath(pair1);
    if !pathAdded || |assembler.currentTour| > 1 {
      assembler.currentTour := tour;
      pathAdded := assembler.AddPath(pair2);
      if !pathAdded {
        return None;
      }
    }
    if |assembler.currentTour| == 0 {
      return None;
    }
    return Some(assembler.currentTour[0]);
  }

  /**
   * block_11's joining of an included arc to the fragments: the arc starts
   * the first fragment when there is none, otherwise add_path tries it alone.
   */
  method JoinArc(assembler: PathAssembler, i: int, j: int) returns (added: bool)
    requires assembler.Valid()
    modifies assembler
    ensures assembler.Valid()
    ensures AddArc(old(assembler.currentTour), i, j) == if added then Some(assembler.currentTour) else None
  {
    if |assembler.currentTour| == 0 {
      assembler.currentTour := [[i, j]];
      return true;
    }
    added := assembler.AddPath([(i, j)]);
  }

  /**
   * block_11 on an included arc: join it to the fragments, pay its cell of C,
   * then delete its row and column and forbid the reverse arc. The step
   * computes Include; it fails where the source raises.
   */
  method IncludeArc(matrix: IndexedMatrix, assembler: PathAssembler, c: Matrix, i: int, j: int, cost: int)
      returns (r: Result<int>)
    requires matrix.Valid() && assembler.Valid()
    modifies matrix, assembler
    ensures r.Success? ==> matrix.Valid() && assembler.Valid()
    ensures
      var b := Branch(old(matrix.cPrime), old(matrix.rowMap), old(matrix.colMap), old(assembler.currentTour), cost);
      Shaped(b) && (r.Success? <==> Include(c, b, i, j).Some?)
      && (r.Success? ==> (Include(c, b, i, j).value
          == Branch(matrix.cPrime, matrix.rowMap, matrix.colMap, assembler.currentTour, r.value)))
  {
    var added := JoinArc(assembler, i, j);
    if !added {
      return Failure("Exception");
    }
    var arcCost := ArcCost(c, i, j);
    if arcCost.None? {
      return Failure("TypeError");
    }
    if i !in matrix.rowMap || j !in matrix.colMap {
      return Failure("ValueError");
    }
    var committed := matrix.Commit(i, j);
    return Success(cost + arcCost.value);
  }

  /**
   * One step of block_11's climb on C', the maps and the fragment list:
   * forbid the arc of an exclusion, or include the arc of an inclusion and
   * pay its cell of C. The step computes Step; it fails where the source raises.
   */
  method Replay(matrix: IndexedMatrix, assembler: PathAssembler, c: Matrix, decision: (int, int), cost: int)
      returns (r: Result<int>)
    requires matrix.Valid() && assembler.Valid()
    modifies matrix, assembler
    ensures r.Success? ==> matrix.Valid() && assembler.Valid()
    ensures
      var b := Branch(old(matrix.cPrime), old(matrix.rowMap), old(matrix.colMap), old(assembler.currentTour), cost);
      Shaped(b) && (r.Success? <==> Step(c, b, decision).Some?)
      && (r.Success? ==> (Step(c, b, decision).value
          == Branch(matrix.cPrime, matrix.rowMap, matrix.colMap, assembler.currentTour, r.value)))
  {
    var i, j := decision.0, decision.1;
    assembler.iFrom, assembler.jTo := i, j;
    if i < 0 && j < 0 {
      matrix.DisablePath(-i, -j);
      return Success(cost);
    }
    r := IncludeArc(matrix, assembler, c, i, j, cost);
  }

  /**
   * block_11's climb from node start to the root on C', the maps and the
   * fragment list, from C with identity maps and no fragments: the climb
   * computes Walk, and it fails where the source raises.
   */
  method Climb(matrix: IndexedMatrix, assembler: PathAssembler, c: Matrix, nodes: seq<Node>, start: nat)
      returns (r: Result<int>)
    requires matrix.Valid() && assembler.Valid() && Tree(nodes) && start < |nodes|
    modifies matrix, assembler
    ensures r.Success? ==> matrix.Valid() && assembler.Valid()
    ensures
      var b := Branch(old(matrix.cPrime), old(matrix.rowMap), old(matrix.colMap), old(assembler.currentTour), 0);
      Shaped(b) && (r.Success? <==> Walk(c, nodes, b, start).Some?)
      && (r.Success? ==> (Walk(c, nodes, b, start).value
          == Branch(matrix.cPrime, matrix.rowMap, matrix.colMap, assembler.currentTour, r.value)))
  {
    var node: nat := start;
    var costIncludedPaths := 0;
    while nodes[node].parent.Some?
      invariant node < |nodes| && matrix.Valid() && assembler.Valid()
      invariant Walk(c, nodes, Branch(old(matrix.cPrime), old(matrix.rowMap), old(matrix.colMap), old(assembler.currentTour), 0), start)
             == Walk(c, nodes, Branch(matrix.cPrime, matrix.rowMap, matrix.colMap, assembler.currentTour, costIncludedPaths), node)
      decreases node
    {
      var decision := nodes[node].path;
      if decision.None? {
        return Failure("TypeError");
      }
      var step := Replay(matrix, assembler, c, decision.value, costIncludedPaths);
      if step.Failure? {
        return Failure(step.error);
      }
      costIncludedPaths := step.value;
      node := nodes[node].parent.value;
    }
    return Success(costIncludedPaths);
  }

  /**
   * block_11 from X onwards: C' becomes a copy of C with identity maps and
   * no fragments, the climb from X replays every decision up to the root,
   * and C' is reduced. The result is X's new bound: the cost of the included
   * arcs plus what the reduction subtracted.
   */
  method Rebuild(matrix: IndexedMatrix, assembler: PathAssembler, c: Matrix, nodes: seq<Node>, x: Option<nat>)
      returns (r: Result<int>)
    requires matrix.Valid() && assembler.Valid() && Square(c, |c|) && Tree(nodes)
    requires x.Some? ==> x.value < |nodes|
    modifies matrix, assembler
    ensures r.Success? ==> matrix.Valid() && assembler.Valid()
    ensures Shaped(Fresh(c))
    ensures r.Success? <==> x.Some? && Walk(c, nodes, Fresh(c), x.value).Some?
    ensures r.Success? ==>
      var w := Walk(c, nodes, Fresh(c), x.value).value;
      Rectangular(w.m) && matrix.cPrime == Reduce(w.m) && NonNegative(matrix.cPrime)
      && matrix.rowMap == w.rowMap && matrix.colMap == w.colMap && assembler.currentTour == w.tour
      && r.value == w.cost + ReductionTotal(w.m)
    ensures r.Success? ==>
      IdsWithin(matrix.rowMap, |c|) && IdsWithin(matrix.colMap, |c|) && FragmentsWithin(assembler.currentTour, |c|)
  {
    FreshShaped(c);
    matrix.ResetCPrime(c);
    assembler.currentTour := [];
    if x.None? {
      return Failure("AttributeError");
    }
    var climbed := Climb(matrix, assembler, c, nodes, x.value);
    if climbed.Failure? {
      return Failure(climbed.error);
    }
    SquareRectangular(matrix.cPrime, |matrix.rowMap|);
    RebuildWithin(c, nodes, x.value);
    var sumSubtrahends := matrix.Simplify();
    return Success(climbed.value + sumSubtrahends);
  }

  class BranchAndBound {
    /** The distance matrix as read, 0 meaning no arc. */
    const input: seq<seq<int>>
    /** C: the input with None for no arc. */
    var c: Matrix
    /** C' with row_map and col_map. */
    const matrix: IndexedMatrix
    /** The fragment list with i_from and j_to. */
    const assembler: PathAssembler
    const candidateNodes: CandidateNodes
    /** Every node ever created, by id. */
    var nodes: seq<Node>
    var x: Option<nat>
    var y: Option<nat>
    var yBar: Option<nat>
    /** The flat tour block_7 closes at a leaf. */
    var leafTour: seq<int>
    var bestTour: seq<int>
    var bestCost: Option<int>
    var iterations: nat

    /** C is the square input with None for no arc. */
    predicate InputValid()
      reads this`c
    {
      SquareInput(input) && Square(c, |c|)
    }

    /** X, Y, Y-bar and every queued entry name nodes of the tree; the queue is sorted. */
    predicate ArenaValid()
      reads this`nodes, this`x, this`y, this`yBar, candidateNodes
    {
      Tree(nodes) && (x.Some? ==> x.value < |nodes|) && (y.Some? ==> y.value < |nodes|)
      && (yBar.Some? ==> yBar.value < |nodes|)
      && candidateNodes.Valid() && NodesBelow(candidateNodes.nodelist, |nodes|)
    }

    predicate Valid()
      reads this, matrix, assembler, candidateNodes
    {
      matrix.Valid() && assembler.Valid() && InputValid() && ArenaValid() && NonNegative(matrix.cPrime)
    }

    /** The maps and the fragment list name cities 1..n only. */
    predicate CitiesInRange()
      reads this`c, matrix`rowMap, matrix`colMap, assembler`currentTour
    {
      IdsWithin(matrix.rowMap, |c|) && IdsWithin(matrix.colMap, |c|) && FragmentsWithin(assembler.currentTour, |c|)
    }

    /** The incumbent is a tour through all n cities, none twice, whose cost in C is best_cost. */
    predicate Incumbent()
      reads this`bestCost, this`bestTour, this`c
    {
      bestCost.Some? ==> CheckTour(bestTour, |c|, true) && IdsWithin(bestTour, |c|) && TourCost(c, bestTour) == bestCost
    }

    /** After block_7: the leaf tour passes check_tour and Y's bound is its cost. */
    predicate LeafCosted()
      reads this`y, this`nodes, this`leafTour, this`c
    {
      y.Some? && y.value < |nodes| && CheckTour(leafTour, |c|, true) && IdsWithin(leafTour, |c|)
      && TourCost(c, leafTour).Some? && nodes[y.value].bound == TourCost(c, leafTour)
    }

    constructor (input: seq<seq<int>>)
      requires SquareInput(input)
      ensures Valid() && Incumbent() && this.input == input
      ensures nodes == [] && candidateNodes.nodelist == [] && assembler.currentTour == []
      ensures x == None && y == None && yBar == None && bestCost == None
    {
      this.input := input;
      c := [];
      matrix := new IndexedMatrix();
      assembler := new PathAssembler();
      candidateNodes := new CandidateNodes();
      nodes := [];
      x := None;
      y := None;
      yBar := None;
      leafTour := [];
      bestTour := [];
      bestCost := None;
      iterations := 0;
    }

    /** node.bound = bound for the node with the given id. */
    method SetBound(id: nat, bound: Option<int>)
      requires ArenaValid() && id < |nodes|
      modifies this`nodes
      ensures ArenaValid()
      ensures nodes == old(nodes)[id := old(nodes)[id].(bound := bound)]
    {
      nodes := nodes[id := nodes[id].(bound := bound)];
    }

    /** Block 1: a distance of 0 becomes None, meaning no arc. */
    method Block1()
      requires Valid()
      modifies this`c
      ensures Valid() && c == ZerosToNone(input)
    {
      c := ConvertZeros(input);
    }

    /** Block 2: reduce a fresh copy of C; the root's bound is what the reduction subtracted. */
    method Block2()
      requires Valid()
      modifies matrix, this`nodes, this`x
      ensures Valid() && NonNegative(matrix.cPrime)
      ensures matrix.cPrime == Reduce(c) && matrix.rowMap == Ids(|c|) && matrix.colMap == Ids(|c|)
      ensures nodes == old(nodes) + [Node(None, None, None, None, Some(ReductionTotal(c)))]
      ensures x == Some(|old(nodes)|)
    {
      matrix.ResetCPrime(c);
      var boundRoot := matrix.Simplify();
      nodes := nodes + [Node(None, None, None, None, Some(boundRoot))];
      x := Some(|nodes| - 1);
    }

    /** The two children block_3 gives X: Y-bar without the arc, Y with it. */
    method Grow(arc: (int, int))
      requires Valid() && x.Some?
      modifies this`nodes, this`y, this`yBar
      ensures Valid()
      ensures yBar == Some(|old(nodes)|) && y == Some(|old(nodes)| + 1)
      ensures nodes == old(nodes)[x.value := old(nodes)[x.value].(leftChild := yBar, rightChild := y)]
                       + [Node(x, Some((-arc.0, -arc.1)), None, None, None), Node(x, Some(arc), None, None, None)]
    {
      var n := |nodes|;
      nodes := nodes[x.value := nodes[x.value].(leftChild := Some(n), rightChild := Some(n + 1))]
               + [Node(x, Some((-arc.0, -arc.1)), None, None, None), Node(x, Some(arc), None, None, None)];
      yBar := Some(n);
      y := Some(n + 1);
    }

    /**
     * Block 3: choose the arc to branch on (Choose), with find_max_Dij's
     * penalty of the final C'; false when no zero cell is left. The fragment
     * list with the arc must pass check_tour, and X must exist to receive
     * its two children (Grow).
     */
    method Block3() returns (r: Result<bool>, arc: Option<(int, int)>, maxDij: int)
      requires Valid()
      modifies matrix`cPrime, assembler
      ensures Valid() && maxDij >= 0
      ensures Choose(old(matrix.cPrime), matrix.rowMap, matrix.colMap, old(assembler.currentTour)) == (matrix.cPrime, arc)
      ensures Rectangular(matrix.cPrime) && maxDij == MaxPenalty(matrix.cPrime)
      ensures r == Success(false) <==> arc.None?
      ensures arc.None? ==> assembler.currentTour == old(assembler.currentTour)
      ensures arc.Some? ==> ((assembler.iFrom, assembler.jTo) == arc.value
        && AddArc(old(assembler.currentTour), arc.value.0, arc.value.1) == Some(assembler.currentTour)
        && Arcs(assembler.currentTour) == Arcs(old(assembler.currentTour)) + multiset{arc.value})
      ensures r.Failure? <==> arc.Some? && (!DistinctCities(assembler.currentTour) || x.None?)
      ensures old(CitiesInRange()) ==> CitiesInRange()
    {
      ChooseFacts(matrix.cPrime, matrix.rowMap, matrix.colMap, assembler.currentTour);
      if CitiesInRange() {
        ChosenWithin(matrix.cPrime, matrix.rowMap, matrix.colMap, assembler.currentTour, |c|);
      }
      var found;
      found, maxDij := ChooseArc(matrix, assembler);
      if !found {
        return Success(false), None, maxDij;
      }
      arc := Some((assembler.iFrom, assembler.jTo));
      AddArcFacts(old(assembler.currentTour), arc.value.0, arc.value.1);
      // check_tour(current_tour, check_len=False, flatten=True)
      FlatCheckIffDistinctCities(assembler.currentTour, |c|);
      if !CheckTour(Flatten(assembler.currentTour), |c|, false) {
        return Failure("AssertionError"), arc, maxDij;
      }
      if x.None? {
        return Failure("AttributeError"), arc, maxDij;
      }
      return Success(true), arc, maxDij;
    }

    /**
     * Block 4: Y-bar's bound is X's plus the penalty block_3 found for the
     * arc it forbids; Y-bar waits in the queue.
     */
    method Block4(maxDij: int) returns (ok: bool)
      requires Valid() && maxDij >= 0
      modifies this`nodes, candidateNodes
      ensures Valid()
      ensures ok <==> x.Some? && yBar.Some? && old(nodes)[x.value].bound.Some?
      ensures ok ==> nodes[yBar.value].bound.Some? && nodes[yBar.value].bound.value >= old(nodes)[x.value].bound.value
      ensures ok ==>
        var bound := old(nodes)[x.value].bound.value + maxDij;
        nodes == old(nodes)[yBar.value := old(nodes)[yBar.value].(bound := Some(bound))]
        && candidateNodes.nodelist == Inserted(old(candidateNodes.nodelist), Candidate(yBar.value, bound))
      ensures !ok ==> nodes == old(nodes) && candidateNodes.nodelist == old(candidateNodes.nodelist)
    {
      if x.None? || yBar.None? || nodes[x.value].bound.None? {
        return false;
      }
      var bound := nodes[x.value].bound.value + maxDij;
      nodes := nodes[yBar.value := nodes[yBar.value].(bound := Some(bound))];
      InsertedNodesBelow(candidateNodes.nodelist, Candidate(yBar.value, bound), |nodes|);
      candidateNodes.Add(Candidate(yBar.value, bound));
      return true;
    }

    /**
     * Block 5: commit the arc in C' and reduce; Y's bound is X's plus what
     * the reduction subtracted, so never below X's. X is cleared.
     */
    method Block5() returns (ok: bool, sumSubtrahends: int, yBound: int)
      requires Valid()
      modifies matrix, this`nodes, this`x
      ensures Valid()
      ensures ok <==> (old(x).Some? && y.Some? && old(nodes)[old(x).value].bound.Some?
        && assembler.iFrom in old(matrix.rowMap) && assembler.jTo in old(matrix.colMap))
      ensures ok ==> CommitReduce(old(matrix.cPrime), old(matrix.rowMap), old(matrix.colMap), assembler.iFrom, assembler.jTo)
                     == Some((matrix.cPrime, matrix.rowMap, matrix.colMap, sumSubtrahends))
      ensures ok ==> yBound == old(nodes)[old(x).value].bound.value + sumSubtrahends
      ensures ok ==> sumSubtrahends >= 0 && yBound >= old(nodes)[old(x).value].bound.value
      ensures old(CitiesInRange()) ==> CitiesInRange()
      ensures ok ==> (x == None && nodes == old(nodes)[y.value := old(nodes)[y.value].(bound := Some(yBound))])
      ensures !ok ==> nodes == old(nodes)
    {
      if x.None? || y.None? || nodes[x.value].bound.None?
         || assembler.iFrom !in matrix.rowMap || assembler.jTo !in matrix.colMap {
        return false, 0, 0;
      }
      var xBound := nodes[x.value].bound.value;
      ok, sumSubtrahends := matrix.CommitAndReduce(assembler.iFrom, assembler.jTo);
      yBound := xBound + sumSubtrahends;
      SetBound(y.value, Some(yBound));
      x := None;
    }

    /** Block 6: is C' down to 2 by 2? */
    predicate Block6()
      reads matrix
    {
      |matrix.cPrime| == 2
    }

    /**
     * Block 7: close the fragments into one flat tour (LeafPaths), check it
     * with check_tour and make its cycle cost in C the bound of Y.
     */
    method Block7() returns (ok: bool)
      requires Valid() && CitiesInRange()
      modifies assembler, this`leafTour, this`nodes
      ensures Valid() && CitiesInRange()
      ensures
        var leaf := LeafPaths(old(assembler.currentTour), matrix.rowMap, matrix.colMap);
        ok <==> leaf.Some? && CheckTour(leaf.value, |c|, true) && TourCost(c, leaf.value).Some? && y.Some?
      ensures ok ==> (Some(leafTour) == LeafPaths(old(assembler.currentTour), matrix.rowMap, matrix.colMap)
        && nodes == old(nodes)[y.value := old(nodes)[y.value].(bound := TourCost(c, leafTour))]
        && LeafCosted())
      ensures !ok ==> nodes == old(nodes)
    {
      LeafPathsCities(assembler.currentTour, matrix.rowMap, matrix.colMap);
      var paths := CloseFragments(assembler, matrix.rowMap, matrix.colMap);
      if paths.None? || !CheckTour(paths.value, |c|, true) {
        return false;
      }
      var cost := CycleCost(c, paths.value);
      if cost.None? || y.None? {
        return false;
      }
      leafTour := paths.value;
      nodes := nodes[y.value := nodes[y.value].(bound := cost)];
      return true;
    }

    /** Block 8: the leaf becomes the incumbent when there is none yet or it is strictly cheaper. */
    method Block8()
      requires LeafCosted()
      modifies this`bestCost, this`bestTour
      ensures
        var cost := nodes[y.value].bound.value;
        if old(bestCost).None? || cost < old(bestCost).value then bestCost == Some(cost) && bestTour == leafTour
        else bestCost == old(bestCost) && bestTour == old(bestTour)
      ensures bestCost.Some? && bestCost.value <= nodes[y.value].bound.value
      ensures old(bestCost).Some? ==> bestCost.value <= old(bestCost).value
      ensures old(Incumbent()) ==> Incumbent()
    {
      var cost := nodes[y.value].bound.value;
      if bestCost.None? || cost < bestCost.value {
        bestCost := Some(cost);
        bestTour := leafTour;
      }
    }

    /**
     * Block 9: X becomes Y, unless the head of the queue has a smaller bound:
     * then the head is popped as X, and Y is queued unless it was a leaf.
     * Either way no bound left in the queue is below X's. Success(true) when
     * the head was popped; the failures are those of Y.bound on no Y, of
     * get() on an empty queue and of comparing a missing bound.
     */
    method Block9() returns (r: Result<bool>)
      requires Valid()
      modifies this`x, candidateNodes
      ensures Valid()
      ensures y.None? ==> r == Failure("AttributeError")
      ensures y.Some? && |old(candidateNodes.nodelist)| == 0 ==> r == Failure("IndexError")
      ensures y.Some? && |old(candidateNodes.nodelist)| > 0 && nodes[y.value].bound.None? ==> r == Failure("TypeError")
      ensures r.Failure? ==> x == y && candidateNodes.nodelist == old(candidateNodes.nodelist)
      ensures r.Success? ==>
        y.Some? && nodes[y.value].bound.Some? && |old(candidateNodes.nodelist)| > 0
        && var yBound := nodes[y.value].bound.value;
        var head := old(candidateNodes.nodelist)[0];
        (r.value <==> yBound > head.bound)
        && if yBound > head.bound then
          x == Some(head.node)
          && candidateNodes.nodelist == (if |matrix.cPrime| > 2 then Inserted(old(candidateNodes.nodelist)[1..], Candidate(y.value, yBound))
                                         else old(candidateNodes.nodelist)[1..])
          && BoundsAtLeast(candidateNodes.nodelist, head.bound)
        else
          x == y && candidateNodes.nodelist == old(candidateNodes.nodelist)
          && BoundsAtLeast(candidateNodes.nodelist, yBound)
    {
      x := y;
      if y.None? {
        return Failure("AttributeError");
      }
      var head := candidateNodes.Get();
      if head.None? {
        return Failure("IndexError");
      }
      if nodes[y.value].bound.None? {
        return Failure("TypeError");
      }
      var yBound := nodes[y.value].bound.value;
      if yBound <= head.value.bound {
        return Success(false);
      }
      TailAboveHead(candidateNodes.nodelist);
      var popped := candidateNodes.Pop();
      x := Some(popped.value.node);
      if |matrix.cPrime| > 2 {
        InsertedNodesBelow(candidateNodes.nodelist, Candidate(y.value, yBound), |nodes|);
        InsertedBoundsAtLeast(candidateNodes.nodelist, Candidate(y.value, yBound), head.value.bound);
        candidateNodes.Add(Candidate(y.value, yBound));
      }
      return Success(true);
    }

    /**
     * Block 10: stop once the incumbent costs no more than X's bound; the
     * best tour is then rotated to start at city 1.
     */
    method Block10() returns (r: Result<bool>)
      requires Valid()
      modifies this`bestTour
      ensures bestCost.None? ==> r == Success(false)
      ensures bestCost.Some? ==>
        (r.Failure? <==> x.None? || nodes[x.value].bound.None?
                         || (bestCost.value <= nodes[x.value].bound.value && 1 !in old(bestTour)))
      ensures r == Success(true) <==>
        bestCost.Some? && x.Some? && nodes[x.value].bound.Some? && bestCost.value <= nodes[x.value].bound.value
        && 1 in old(bestTour)
      ensures r == Success(true) ==>
        bestTour == Rotate(old(bestTour), IndexOf(old(bestTour), 1).value) && bestTour[0] == 1
      ensures r != Success(true) ==> bestTour == old(bestTour)
      ensures old(Incumbent()) ==> Incumbent()
    {
      if bestCost.None? {
        return Success(false);
      }
      if x.None? {
        return Failure("AttributeError");
      }
      if nodes[x.value].bound.None? {
        return Failure("TypeError");
      }
      if bestCost.value <= nodes[x.value].bound.value {
        var indexOf1 := IndexOf(bestTour, 1);
        if indexOf1.None? {
          return Failure("ValueError");
        }
        RotateCells(bestTour, indexOf1.value);
        RotateKeepsCheck(bestTour, indexOf1.value, |c|);
        RotateKeepsIds(bestTour, indexOf1.value, |c|);
        TourCostRotate(c, bestTour, indexOf1.value);
        bestTour := bestTour[indexOf1.value..] + bestTour[..indexOf1.value];
        return Success(true);
      }
      return Success(false);
    }

    /**
     * Block 11: unless X is Y, rebuild C', the maps, the fragment list and
     * the cost of the included arcs by climbing from X to the root (Walk),
     * reduce, and give X the bound the rebuilt matrix yields.
     */
    method Block11() returns (r: Result<bool>, xBound: int)
      requires Valid()
      modifies matrix, assembler, this`nodes
      ensures r.Success? ==> Valid()
      ensures x == y ==> r == Success(true) && nodes == old(nodes) && matrix.cPrime == old(matrix.cPrime)
      ensures x != y ==>
        (r == Success(false) <==> x.Some? && Walk(c, old(nodes), Fresh(c), x.value).Some?)
      ensures r == Success(false) ==>
        var w := Walk(c, old(nodes), Fresh(c), x.value).value;
        Rectangular(w.m) && matrix.cPrime == Reduce(w.m) && NonNegative(matrix.cPrime)
        && matrix.rowMap == w.rowMap && matrix.colMap == w.colMap && assembler.currentTour == w.tour
        && xBound == w.cost + ReductionTotal(w.m)
      ensures r == Success(false) ==> nodes == old(nodes)[x.value := old(nodes)[x.value].(bound := Some(xBound))]
      ensures r == Success(false) || (r.Success? && old(CitiesInRange())) ==> CitiesInRange()
    {
      if x == y {
        return Success(true), 0;
      }
      var bound := Rebuild(matrix, assembler, c, nodes, x);
      if bound.Failure? {
        return Failure(bound.error), 0;
      }
      xBound := bound.value;
      SetBound(x.value, Some(xBound));
      return Success(false), xBound;
    }

    /** Start of the main loop: block_1, then block_2. */
    method Start()
      requires Valid() && bestCost.None? && assembler.currentTour == []
      modifies this`c, matrix, this`nodes, this`x
      ensures Valid() && Incumbent() && bestCost.None? && CitiesInRange()
      ensures c == ZerosToNone(input) && |nodes| == |old(nodes)| + 1 && x == Some(|old(nodes)|)
    {
      Block1();
      Block2();
      IdsWithinRange(|c|);
    }

    /** The head of each iteration: count it, then block_3. */
    method BeginIteration() returns (r: Result<bool>, arc: Option<(int, int)>, maxDij: int)
      requires Valid()
      modifies this`iterations, matrix`cPrime, assembler
      ensures Valid() && iterations == old(iterations) + 1
      ensures nodes == old(nodes) && x == old(x)
      ensures r == Success(true) ==> arc.Some? && x.Some?
      ensures maxDij >= 0 && (old(CitiesInRange()) ==> CitiesInRange())
    {
      iterations := iterations + 1;
      r, arc, maxDij := Block3();
    }

    /**
     * When block_3 finds nothing to branch on: the head of the queue becomes
     * Y, the next one X, and block_11 rebuilds C' for X. Popping an empty
     * queue fails as in the source.
     */
    method Backtrack() returns (r: Result<bool>)
      requires Valid()
      modifies this`x, this`y, candidateNodes, matrix, assembler, this`nodes
      ensures r.Success? ==> Valid()
      ensures |old(candidateNodes.nodelist)| < 2 ==> r.Failure?
      ensures r.Success? && old(CitiesInRange()) ==> CitiesInRange()
    {
      var popped := candidateNodes.Pop();
      if popped.None? {
        return Failure("IndexError");
      }
      y := Some(popped.value.node);
      popped := candidateNodes.Pop();
      if popped.None? {
        return Failure("IndexError");
      }
      x := Some(popped.value.node);
      var xBound;
      r, xBound := Block11();
    }

    /**
     * Branching on the arc block_3 chose: X gets its children, then block_4
     * and block_5 bound them.
     */
    method Descend(arc: (int, int), maxDij: int) returns (r: Result<bool>)
      requires Valid() && x.Some? && maxDij >= 0
      modifies this`nodes, this`x, this`y, this`yBar, candidateNodes, matrix
      ensures Valid()
      ensures old(CitiesInRange()) ==> CitiesInRange()
      ensures r.Success? ==>
        var parent := old(nodes)[old(x).value].bound;
        y.Some? && yBar.Some? && parent.Some? && x.None?
        && nodes[yBar.value].bound.Some? && nodes[yBar.value].bound.value >= parent.value
        && nodes[y.value].bound.Some? && nodes[y.value].bound.value >= parent.value
    {
      Grow(arc);
      var bounded := Block4(maxDij);
      if !bounded {
        return Failure("TypeError");
      }
      var committed, sumSubtrahends, yBound := Block5();
      r := if committed then Success(true) else Failure("ValueError");
    }

    /** At a 2-by-2 leaf: block_7 costs the closed tour, block_8 keeps it when it is the best so far. */
    method Leaf() returns (r: Result<bool>)
      requires Valid() && Incumbent() && CitiesInRange()
      modifies assembler, this`leafTour, this`nodes, this`bestCost, this`bestTour
      ensures Valid() && Incumbent() && CitiesInRange()
      ensures r.Success? ==> bestCost.Some? && y.Some? && nodes[y.value].bound.Some?
    {
      var closed := Block7();
      if !closed {
        return Failure("Exception");
      }
      Block8();
      return Success(true);
    }

    /**
     * The end of each iteration: block_9 picks the next X, block_10 stops
     * with the best tour, and otherwise block_11 rebuilds C' for X.
     */
    method Finish() returns (r: Result<bool>)
      requires Valid() && Incumbent()
      modifies this`x, candidateNodes, this`bestTour, matrix, assembler, this`nodes
      ensures r.Success? ==> Valid() && Incumbent()
      ensures r == Success(false) ==> bestTour == old(bestTour)
      ensures r == Success(true) ==> Incumbent() && bestCost.Some? && bestTour[0] == 1
      ensures r.Success? && old(CitiesInRange()) ==> CitiesInRange()
    {
      r := PickAndTest();
      if r.Failure? || r.value {
        return;
      }
      var rebuilt, xBound := Block11();
      r := if rebuilt.Failure? then Failure(rebuilt.error) else Success(false);
    }

    /** Block 9, then block 10's test: Success(true) when the search stops with the rotated best tour. */
    method PickAndTest() returns (r: Result<bool>)
      requires Valid() && Incumbent()
      modifies this`x, candidateNodes, this`bestTour
      ensures Valid() && Incumbent()
      ensures r == Success(false) ==> bestTour == old(bestTour)
      ensures r == Success(true) ==> bestCost.Some? && bestTour[0] == 1
    {
      var picked := Block9();
      if picked.Failure? {
        return Failure(picked.error);
      }
      r := Block10();
    }

    /**
     * One pass of the main loop: block_3, then either backtracking when
     * there is nothing to branch on, or branching, the leaf blocks at a 2 by 2
     * C', and blocks 9 to 11. Success(true) when block_10 stops with
     * best_tour, a tour through every city exactly once that starts at city 1.
     */
    method Iterate() returns (r: Result<bool>)
      requires Valid() && Incumbent() && CitiesInRange()
      modifies this, matrix, assembler, candidateNodes
      ensures r.Success? ==> Valid() && Incumbent() && CitiesInRange()
      ensures r == Success(true) ==> bestCost.Some? && bestTour[0] == 1 && forall u :: u in bestTour <==> 1 <= u <= |c|
    {
      var chosen, arc, maxDij := BeginIteration();
      if chosen.Failure? {
        return Failure(chosen.error);
      }
      if !chosen.value {
        var back := Backtrack();
        return if back.Failure? then Failure(back.error) else Success(false);
      }
      var down := Descend(arc.value, maxDij);
      if down.Failure? {
        return down;
      }
      if Block6() {
        var leaf := Leaf();
        if leaf.Failure? {
          return leaf;
        }
      }
      r := Finish();
      if r == Success(true) {
        CheckedTourIsPermutation(bestTour, |c|);
      }
    }

    /**
     * The main loop, with a bound on the number of iterations: Success(true)
     * when block_10 stops with best_tour, a tour through every city that
     * starts at city 1 and whose cost in C is best_cost; Success(false) when
     * the iterations run out; Failure where the source raises.
     */
    method Run(fuel: nat) returns (r: Result<bool>)
      requires Valid() && bestCost.None? && assembler.currentTour == []
      modifies this, matrix, assembler, candidateNodes
      ensures r.Success? ==> Valid() && Incumbent()
      ensures r == Success(true) ==>
        bestCost.Some? && CheckTour(bestTour, |c|, true) && TourCost(c, bestTour) == bestCost && bestTour[0] == 1
      ensures r == Success(true) ==> forall u :: u in bestTour <==> 1 <= u <= |c|
    {
      Start();
      var remaining := fuel;
      while remaining > 0
        invariant Valid() && Incumbent() && CitiesInRange()
        decreases remaining
      {
        remaining := remaining - 1;
        var step := Iterate();
        if step.Failure? || step.value {
          return step;
        }
      }
      return Success(false);
    }
  }
}
