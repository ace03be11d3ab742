# Little's branch and bound for the travelling salesman, in Dafny

This project models a solver for the asymmetric travelling salesman problem
that uses Little's branch and bound method, and proves properties of that
model. It covers three programs of the repository.

- **The solver, `Project/tsp_branch_bound.py`.**
  - The distance matrix C has `None` for "no arc".
  - The working matrix C' shrinks as arcs are committed.
  - `row_map` and `col_map` name the city of each remaining row and column.
  - Reduction (`simplify`) subtracts row minima, then column minima, and the
    sum of the subtrahends is a lower bound.
  - `find_max_Dij` computes the penalty D(i, j) of every zero cell and lists
    the arcs of the largest penalty.
  - The path assembler (`add_path` and its helpers) keeps the chosen arcs as
    a list of path fragments and refuses an arc that would close a sub-tour.
  - The binary search tree of `Node`s and the sorted candidate queue
    (`CandidateNodes`) drive the search.
  - Blocks 1 to 11 and the main loop tie all of this together.
- **The same path assembler, as copied into `Project/tests/test_add_path.py`,**
  together with the fourteen cases of that test, each proved as a lemma.
- **The first draft script, `main.py`.** It holds one reduction and the
  penalties of the zero cells. Here a row without an entry raises
  `ValueError`.
- **The C++ reference solver, `tsp_branch_bound.cpp`.**
  - It works on `N x N` int arrays with `INT_MAX` for "no arc".
  - `rowReduction`, `columnReduction` and `calculateCost` work in place.
  - `solve` runs a best-first search over a priority queue of nodes, ordered
    by `comp`.

Module layout:

- `Wrappers` in `wrappers.dfy`: Option and Result.
- `Reduction` in `reduction.dfy`: cells, rows and matrices; minima; transpose; `subtract_min` and `simplify`; the reduction total as a lower bound; the zero-to-None conversion.
- `WorkingMatrix` in `working_matrix.dfy`: `list.index`, `pop`, deleting a row and a column, forbidding a cell.
- `Tours` in `tours.dfy`: the cycle cost of block 7, the rotation of block 10, `check_tour`.
- `ArcSelection` in `arc_selection.dfy`: penalties and `find_max_Dij`.
- `TourAssembly` in `tour_assembly.dfy`: the path assembler: a specification on values, and the class `PathAssembler` that mutates `current_tour` as the source does.
- `AddPathTest` in `add_path_test.dfy`: the test file's `add_path` and its fourteen cases.
- `Candidates` in `candidates.dfy`: `CandidateNodes`.
- `SearchTree` in `search_tree.dfy`: committing an arc, and the climb of block 11 from a node to the root, as functions.
- `MatrixState` in `matrix_state.dfy`: the class `IndexedMatrix`: C', `row_map` and `col_map`, and their in-place operations.
- `Branching` in `branching.dfy`: the arc choice of block 3 with its retry loop, and the closing of the fragments in block 7, as functions.
- `Search` in `search.dfy`: the class `BranchAndBound`: the solver's global state, blocks 1 to 11, and the main loop.
- `DraftScript` in `draft_script.dfy`: `main.py`.
- `ReferenceSolver` in `reference_solver.dfy`: the C++ solver, on `array2<int>` and nodes as values.
- `CitySets` in `city_sets.dfy`: the set of cities `lo..hi-1`.

Every Python exception becomes an error value of the model: a `Failure` or a
`None`, or `false` where the source's function returns a flag. This covers
an `assert` of `check_tour`, a `ValueError` from `list.index` or `min`, an
`IndexError` and an explicit `raise`.

The search tree of the Python solver is an arena. A node is its index in a
sequence of `Node` values, so `X == Y` compares node ids as the source
compares object identity.

## Model

| member | source | states |
|---|---|---|
| `Reduction.MinEntry` | main.py:13-14 | The least entry of a row that is not None; None exactly when every cell is None, where the draft's `min` raises |
| `Reduction.MinNoNone` | Project/tsp_branch_bound.py:130-135 | The result is at most every entry that is not None. It is one of them, or 0 when every cell is None |
| `Reduction.MinNoElement` | Project/tsp_branch_bound.py:140-142 | The result is at most every other entry that is not None. It is one of them when one exists, and 0 otherwise |
| `Reduction.MinEntryWithout` | main.py:19-21 | The result is None exactly when no other cell has an entry. Otherwise it equals the solver's `min_no_element` |
| `Reduction.WithoutCells` | Project/tsp_branch_bound.py:141 | `row[:index] + row[index + 1:]` keeps every other cell in order: the positions correspond both ways |
| `Reduction.Transpose` | Project/tsp_branch_bound.py:146-147 | The transpose of a rectangular matrix: `Width(m)` rows, one cell per row of the input, with `t[j][i] == m[i][j]` |
| `Reduction.TransposeTwice` | Project/tsp_branch_bound.py:146-147 | Transposing twice gives the matrix back, unless the matrix has rows but no columns |
| `Reduction.SubtractMin` | Project/tsp_branch_bound.py:152-158 | The row-by-row loop leaves every row reduced by its own minimum and returns the sum of the minima |
| `Reduction.ReduceRowFacts` | Project/tsp_branch_bound.py:157 | A reduced row keeps exactly its None cells and has no negative cell. It has a 0 when it has an entry, and its minimum is 0 |
| `Reduction.ReduceRowsNonNegative` | Project/tsp_branch_bound.py:152-158 | A row pass leaves no negative cell, whatever the input |
| `Reduction.ReduceRowsTwice` | Project/tsp_branch_bound.py:152-158 | A second row pass subtracts 0 and changes nothing |
| `Reduction.Simplify` | Project/tsp_branch_bound.py:161-177 | `simplify` returns the row pass followed by the column pass through the transpose, and the sum of both passes' minima |
| `Reduction.ReduceShape` | Project/tsp_branch_bound.py:161-177 | The reduced matrix has the input's shape and keeps exactly its None cells |
| `Reduction.ReduceNonNegative` | Project/tsp_branch_bound.py:161-177 | The reduced matrix has no negative cell |
| `Reduction.SumMinsNonNegative` | Project/tsp_branch_bound.py:152-158 | Without negative cells the subtracted sum is at least 0 |
| `Reduction.ReductionTotalNonNegative` | Project/tsp_branch_bound.py:161-177 | On a matrix without negative cells, `simplify` subtracts at least 0, so bounds never drop |
| `Reduction.ColumnPassKeepsZero` | Project/tsp_branch_bound.py:172-175 | A zero left by the row pass survives the column pass |
| `Reduction.ReducedRowMinZero` | Project/tsp_branch_bound.py:161-177 | After `simplify` every row has minimum 0 |
| `Reduction.ReducedColumnMinZero` | Project/tsp_branch_bound.py:161-177 | After `simplify` every column has minimum 0 |
| `Reduction.ReduceMinimaZero` | Project/tsp_branch_bound.py:161-177 | After `simplify` every row and every column has minimum 0 |
| `Reduction.ZeroMinRowsFixed` | Project/tsp_branch_bound.py:152-158 | Rows whose minimum is already 0 are left unchanged by a row pass, which sums to 0 |
| `Reduction.ReduceIdempotent` | Project/tsp_branch_bound.py:161-177 | Simplifying a simplified matrix changes nothing and subtracts 0 |
| `Reduction.RowPassOffset` | Project/tsp_branch_bound.py:167-168 | For any choice of one cell per row, the row pass lowers its cost by exactly the sum of the row minima |
| `Reduction.ColumnPassOffset` | Project/tsp_branch_bound.py:172-175 | For any choice of cells in distinct columns, the column pass lowers its cost by exactly the minima of the chosen columns |
| `Reduction.ReductionOffset` | Project/tsp_branch_bound.py:161-177 | For every assignment of rows to distinct columns that uses only cells that are not None, its cost is the reduction total plus its cost in the reduced matrix |
| `Reduction.ReductionTotalIsLowerBound` | Project/tsp_branch_bound.py:161-177 | The sum that `simplify` returns is a lower bound of the cost of every such assignment, and so of every tour |
| `Reduction.ZerosToNone` | Project/tsp_branch_bound.py:589-593 | The loaded matrix has the input's shape, with None exactly where the input has 0 |
| `Reduction.ConvertZeros` | Project/tsp_branch_bound.py:589-593 | The loop that appends one converted row at a time computes `ZerosToNone` |
| `Reduction.ZerosToNonePositive` | Project/tsp_branch_bound.py:589-593 | A non-negative input loads as a matrix whose entries are all positive |
| `WorkingMatrix.IndexOf` | Project/tsp_branch_bound.py:308-309 | `list.index`: the first position holding x, and None exactly when x is absent, where Python raises `ValueError` |
| `WorkingMatrix.RemoveAt` | Project/tsp_branch_bound.py:324-328 | `pop(k)`: the list is one shorter and keeps the other entries in order |
| `WorkingMatrix.RemoveAtDistinct` | Project/tsp_branch_bound.py:321-328 | Popping from a map without repeats removes exactly that city and keeps the map without repeats |
| `WorkingMatrix.RemoveRow` | Project/tsp_branch_bound.py:308-309 | Slicing a row out keeps the matrix rectangular, one row shorter, with the other rows in order |
| `WorkingMatrix.Ids` | Project/tsp_branch_bound.py:300-301 | The maps after a reset are `[1, ..., n]` |
| `WorkingMatrix.IdsDistinct` | Project/tsp_branch_bound.py:297-301 | The reset maps have no repeats |
| `WorkingMatrix.IdsWithinRange` | Project/tsp_branch_bound.py:297-301 | The reset maps name the cities 1..n only |
| `WorkingMatrix.DeleteRowColCells` | Project/tsp_branch_bound.py:304-318 | Deleting row r and column c of an n-by-n matrix leaves an (n-1)-by-(n-1) matrix. Every remaining cell keeps its relative place |
| `WorkingMatrix.DeleteRowColByTransposes` | Project/tsp_branch_bound.py:308-316 | Slicing the row out, slicing the column out of the transpose, and transposing back deletes exactly that row and column |
| `WorkingMatrix.Forbid` | Project/tsp_branch_bound.py:335 | Setting one cell to None changes that cell and nothing else |
| `WorkingMatrix.ForbidZeroShrinks` | Project/tsp_branch_bound.py:639 | Forbidding a zero cell removes exactly that position from the zero cells |
| `WorkingMatrix.ReduceSquare` | Project/tsp_branch_bound.py:161-177 | `simplify` keeps a square matrix square |
| `Tours.CycleCost` | Project/tsp_branch_bound.py:747-749 | Block 7's summation gives the cost of the closed tour, the path plus the arc back to its start. It fails where Python raises on a missing arc |
| `Tours.PathCostFailurePersists` | Project/tsp_branch_bound.py:747-749 | Once a prefix of the path cannot be costed, neither can the whole path |
| `Tours.PathCostConcat` | Project/tsp_branch_bound.py:747-749 | The cost of a path is the cost of its two halves plus the arc that joins them |
| `Tours.RotateCells` | Project/tsp_branch_bound.py:797-798 | A rotation starts at the chosen city, keeps the cyclic order, and keeps every city |
| `Tours.TourCostRotate` | Project/tsp_branch_bound.py:797-798 | Rotating the best tour to start at city 1 does not change its cycle cost |
| `Tours.RotateKeepsCheck` | Project/tsp_branch_bound.py:797-798 | A rotated tour passes `check_tour` exactly when the tour does |
| `Tours.ElementsSize` | Project/tsp_branch_bound.py:61-62 | The set of a list is never larger than the list. It is as large exactly when no city repeats |
| `Tours.CheckTourMeaning` | Project/tsp_branch_bound.py:52-62 | `check_tour` passes exactly on a tour of the required length (when asked for) that repeats no city |
| `Tours.CheckedTourIsPermutation` | Project/tsp_branch_bound.py:52-62 | A full-length tour that `check_tour` accepts and that names only cities 1..n visits every one of them |
| `Tours.RotateKeepsIds` | Project/tsp_branch_bound.py:797-798 | Rotating the best tour keeps the cities it names |
| `Tours.FlattenCities` | Project/tsp_branch_bound.py:55-56 | Flattening the fragments keeps exactly their cities, with multiplicity |
| `Tours.FlatCheckIffDistinctCities` | Project/tsp_branch_bound.py:648 | Block 3's check of the flattened fragments passes exactly when no city repeats across the fragments |
| `ArcSelection.OtherMinFacts` | Project/tsp_branch_bound.py:140-142 | The least other entry is None exactly when there is none. Otherwise it is one of the other entries and at most all of them |
| `ArcSelection.OtherMinIsMinNoElement` | Project/tsp_branch_bound.py:140-142 | The fold the penalties use agrees with `min_no_element` |
| `ArcSelection.PenaltyIsMinNoElements` | Project/tsp_branch_bound.py:197-199 | D(i, j) is `min_no_element` of row i without column j plus `min_no_element` of column j without row i |
| `ArcSelection.PenaltyNonNegative` | Project/tsp_branch_bound.py:197-199 | In a matrix without negative cells no penalty is negative |
| `ArcSelection.ZeroCellsInRowExact` | Project/tsp_branch_bound.py:187-188 | The zero cells of row i before column j, each listed once, left to right |
| `ArcSelection.ZeroCellsBeforeExact` | Project/tsp_branch_bound.py:186-188 | The zero cells of the rows above row i, each listed once, in row-major order |
| `ArcSelection.ZeroCellsExact` | Project/tsp_branch_bound.py:186-188 | The scan visits exactly the zero cells, each once, in row-major order |
| `ArcSelection.LargestIsMax` | Project/tsp_branch_bound.py:181-205 | The running maximum starts at 0. It bounds every penalty and is 0 or one of the penalties |
| `ArcSelection.SelectExact` | Project/tsp_branch_bound.py:201-205 | A cell is kept exactly when its penalty equals the given value |
| `ArcSelection.SelectOrder` | Project/tsp_branch_bound.py:201-205 | The kept cells stay in row-major order, and the first of them is the first cell reaching the value |
| `ArcSelection.MaxPenaltyIsMax` | Project/tsp_branch_bound.py:180-207 | `max_Dij` is at least 0 and bounds every zero cell's penalty. It is 0 or reached by a zero cell |
| `ArcSelection.MaxPathsExact` | Project/tsp_branch_bound.py:180-207 | A cell is listed exactly when it is a zero cell whose penalty is the maximum |
| `ArcSelection.MaxPathsOrder` | Project/tsp_branch_bound.py:180-207 | The list is in row-major order. Its head is the first zero cell in row-major order whose penalty reaches the maximum |
| `ArcSelection.PathsEmptyIffNoZeroCell` | Project/tsp_branch_bound.py:629-630 | In a matrix without negative cells, block 3 finds nothing to branch on exactly when no zero cell is left |
| `ArcSelection.MapIds` | Project/tsp_branch_bound.py:202-205 | Cells are named by `(row_map[i], col_map[j])` in the same order |
| `ArcSelection.PenaltyByTranspose` | Project/tsp_branch_bound.py:184-199 | D read through the transposed matrix, as the scan reads it, is the penalty of the cell |
| `ArcSelection.ScanMeaning` | Project/tsp_branch_bound.py:180-207 | The scan's running state is the largest penalty so far (from 0) together with the arcs of exactly the cells that reach it |
| `ArcSelection.ScanSnoc` | Project/tsp_branch_bound.py:201-205 | One more cell: an equal penalty appends its arc, a strictly larger one restarts the list, a smaller one changes nothing |
| `ArcSelection.ComputeDij` | Project/tsp_branch_bound.py:197-199 | D of one cell, computed through the transpose, is its penalty |
| `ArcSelection.ScanZeroCell` | Project/tsp_branch_bound.py:188-205 | One zero cell extends the scanned state by that cell |
| `ArcSelection.ScanRow` | Project/tsp_branch_bound.py:187-205 | The inner loop extends the scanned state by every zero cell of row i |
| `ArcSelection.FindMaxDij` | Project/tsp_branch_bound.py:180-207 | `find_max_Dij` returns the largest penalty over the zero cells (0 when there is none), and the arcs of exactly the zero cells reaching it, in row-major order |
| `Candidates.InsertionPoint` | Project/tsp_branch_bound.py:88-92 | `add` inserts behind every smaller bound and in front of the first bound at least its own |
| `Candidates.InsertedCells` | Project/tsp_branch_bound.py:87-95 | After an insertion the new entry sits at the insertion point; entries before it are unchanged and entries after it shift by one |
| `Candidates.InsertedContents` | Project/tsp_branch_bound.py:87-95 | Inserting adds exactly the new entry |
| `Candidates.InsertedSorted` | Project/tsp_branch_bound.py:87-95 | Inserting keeps the queue sorted by bound |
| `Candidates.HeadIsMinimal` | Project/tsp_branch_bound.py:97-98 | The head of a sorted queue has the smallest bound |
| `Candidates.InsertedNodesBelow` | Project/tsp_branch_bound.py:87-95 | Inserting an entry naming an existing node keeps every entry naming an existing node |
| `Candidates.InsertedBoundsAtLeast` | Project/tsp_branch_bound.py:87-95 | Inserting a bound at least b keeps every bound at least b |
| `Candidates.TailAboveHead` | Project/tsp_branch_bound.py:100-104 | After a pop every remaining bound is at least the popped one |
| `Candidates.CandidateNodes.constructor` | Project/tsp_branch_bound.py:83-85 | The queue starts empty, and its size counter is 0 |
| `Candidates.CandidateNodes.Add` | Project/tsp_branch_bound.py:87-95 | The loop inserts at the insertion point and keeps the queue sorted with `size` equal to its length |
| `Candidates.CandidateNodes.Get` | Project/tsp_branch_bound.py:97-98 | The head, which has the smallest bound; None on an empty queue, where Python raises `IndexError` |
| `Candidates.CandidateNodes.Pop` | Project/tsp_branch_bound.py:100-104 | Removes and returns the head; on an empty queue, returns None and changes nothing |
| `TourAssembly.Delete` | Project/tsp_branch_bound.py:348 | `del` drops one fragment and keeps the others in order |
| `TourAssembly.FirstStartingWith` | Project/tsp_branch_bound.py:345-346 | The first fragment starting at `j_to`, or None when no fragment does |
| `TourAssembly.FirstEndingWith` | Project/tsp_branch_bound.py:357-358 | The first fragment ending at `i_from`, or None when no fragment does |
| `TourAssembly.FirstTouching` | Project/tsp_branch_bound.py:399-403 | The first fragment that ends at `i_from` or starts at `j_to`, or None when no fragment does |
| `TourAssembly.FirstAddable` | Project/tsp_branch_bound.py:412-417 | The first candidate that `try_add_this_path` accepts, or None when it refuses them all |
| `TourAssembly.TryAddNonEmpty` | Project/tsp_branch_bound.py:395-406 | An accepted arc keeps every fragment non-empty |
| `TourAssembly.FragmentArcsOverlap` | Project/tsp_branch_bound.py:347 | Gluing fragment g onto f at a shared city keeps the arcs of both |
| `TourAssembly.FragmentArcsOverlapFront` | Project/tsp_branch_bound.py:359 | Gluing f in front of g at a shared city keeps the arcs of both |
| `TourAssembly.MergeOnIFromArcs` | Project/tsp_branch_bound.py:341-350 | The splice on `j_to` keeps the arcs of the fragment list |
| `TourAssembly.MergeOnJToArcs` | Project/tsp_branch_bound.py:353-362 | The splice on `i_from` keeps the arcs of the fragment list |
| `TourAssembly.HaveIFromArcs` | Project/tsp_branch_bound.py:365-377 | Extending a fragment that ends at i by j adds exactly the arc (i, j) |
| `TourAssembly.HaveJToArcs` | Project/tsp_branch_bound.py:380-392 | Extending a fragment that starts at j by i in front adds exactly the arc (i, j) |
| `TourAssembly.TryAddArcs` | Project/tsp_branch_bound.py:395-406 | An accepted arc adds exactly the arc (i, j) to the arcs of the fragments |
| `TourAssembly.EndIsOnlyOccurrence` | Project/tsp_branch_bound.py:399-403 | When i occurs only at fragment ends, i is visited exactly when a fragment ends at i; likewise for j and fragment starts |
| `TourAssembly.TryAddRefusedIffClosing` | Project/tsp_branch_bound.py:365-392 | On well-formed fragments, the arc is refused exactly when a fragment already runs from j to i, so adding it would close a sub-tour |
| `TourAssembly.MergeOnIFromCities` | Project/tsp_branch_bound.py:341-350 | The splice on `j_to` drops exactly one copy of `j_to` |
| `TourAssembly.MergeOnJToCities` | Project/tsp_branch_bound.py:353-362 | The splice on `i_from` drops exactly one copy of `i_from` |
| `TourAssembly.HaveIFromCities` | Project/tsp_branch_bound.py:365-377 | Extending by j adds j once; the splice, when it happens, removes the copy again |
| `TourAssembly.HaveJToCities` | Project/tsp_branch_bound.py:380-392 | Extending by i in front adds i once; the splice, when it happens, removes the copy again |
| `TourAssembly.TryAddCities` | Project/tsp_branch_bound.py:395-406 | An accepted arc adds exactly those of i and j not yet visited, so the fragments keep visiting every city at most once |
| `TourAssembly.TryAddCitiesWithin` | Project/tsp_branch_bound.py:395-406 | Whatever the fragments are, an accepted arc brings in no city other than its two ends |
| `TourAssembly.AddPathResultCities` | Project/tsp_branch_bound.py:409-418 | `add_path` brings in only cities of the candidate arcs it is offered |
| `TourAssembly.FragmentArcsMember` | Project/tsp_branch_bound.py:395-406 | Each city of a fragment and the city after it form one of the fragment's arcs |
| `TourAssembly.PathAssembler.constructor` | Project/tsp_branch_bound.py:1120 | The fragment list starts empty |
| `TourAssembly.PathAssembler.AddedPathMergeOnIFrom` | Project/tsp_branch_bound.py:341-350 | In place: splices fragment `s_index` with the first fragment starting at `j_to`. It returns whether one existed |
| `TourAssembly.PathAssembler.AddedPathMergeOnJTo` | Project/tsp_branch_bound.py:353-362 | In place: splices the first fragment ending at `i_from` in front of fragment `s_index`. It returns whether one existed |
| `TourAssembly.PathAssembler.AddPathAlreadyHaveIFrom` | Project/tsp_branch_bound.py:365-377 | In place: refuses when the fragment starts at `j_to`; otherwise appends `j_to` and splices |
| `TourAssembly.PathAssembler.AddPathAlreadyHaveJTo` | Project/tsp_branch_bound.py:380-392 | In place: refuses when the fragment ends at `i_from`; otherwise prepends `i_from` and splices |
| `TourAssembly.PathAssembler.TryAddThisPath` | Project/tsp_branch_bound.py:395-406 | In place: computes `TryAdd`, and a refusal changes nothing |
| `TourAssembly.PathAssembler.AddPath` | Project/tsp_branch_bound.py:409-419 | Applies the first candidate accepted; `i_from`, `j_to` are left at that candidate, or at the last candidate when all are refused |
| `AddPathTest.AddPathResultFalseIffNoneAddable` | Project/tests/test_add_path.py:74-86 | `add_path` returns False exactly when every candidate is refused |
| `AddPathTest.AddPathResultFirstAddable` | Project/tests/test_add_path.py:74-86 | On success the result is the fragment list made by the first candidate accepted |
| `AddPathTest.AddPath` | Project/tests/test_add_path.py:74-86 | The test file's `add_path` on an assembler returns the new fragment list, or False (None here) leaving the list unchanged |
| `AddPathTest.StartsFirstFragment` | Project/tests/test_add_path.py:94-97 | First case: `[1, 2]` on no fragments gives `[[1, 2]]` |
| `AddPathTest.PrependsToPair` | Project/tests/test_add_path.py:99-102 | Second case: `[[5, 1, 2]]` |
| `AddPathTest.PrependsToTriple` | Project/tests/test_add_path.py:104-107 | Third case: `[[3, 5, 1, 2]]` |
| `AddPathTest.AppendsSecondFragment` | Project/tests/test_add_path.py:109-112 | Fourth case: `[[3, 5, 1, 2], [4, 8]]` |
| `AddPathTest.SplicesBehindFragmentEndingAtIFrom` | Project/tests/test_add_path.py:114-117 | Fifth case: `[[4, 8, 3, 5, 1, 2]]` |
| `AddPathTest.AppendsAfterExistingFragments` | Project/tests/test_add_path.py:119-122 | Sixth case: `[[4, 6, 2], [1, 5, 3], [7, 8]]` |
| `AddPathTest.SpliceDeletesAbsorbedFragment` | Project/tests/test_add_path.py:124-127 | Seventh case: `[[2, 4, 8, 3, 5], [6, 1]]` |
| `AddPathTest.PrependsToSecondFragment` | Project/tests/test_add_path.py:129-132 | Eighth case: `[[4, 6, 2], [7, 8, 5, 3]]` |
| `AddPathTest.SplicesWithLastFragment` | Project/tests/test_add_path.py:134-137 | Ninth case: `[[9, 8, 5, 3, 6, 7], [1, 2, 4]]` |
| `AddPathTest.ExtendsAndAbsorbsFragmentStartingAtJTo` | Project/tests/test_add_path.py:139-142 | Tenth case: `[[3, 6, 8, 5, 7, 4], [2, 1]]` |
| `AddPathTest.JoinsTwoFragments` | Project/tests/test_add_path.py:144-147 | Eleventh case: `[[3, 6, 8, 2, 1]]` |
| `AddPathTest.RefusesClosingThenAppends` | Project/tests/test_add_path.py:149-152 | Twelfth case: the closing arc is refused, giving `[[5, 1, 3], [4, 6]]` |
| `AddPathTest.PrependsToLaterFragment` | Project/tests/test_add_path.py:154-157 | Thirteenth case: `[[5, 1, 3], [2, 4, 6]]` |
| `AddPathTest.RefusesTwiceThenJoins` | Project/tests/test_add_path.py:159-162 | Fourteenth case: two closing arcs are refused, giving `[[1, 3, 4, 2]]` |
| `SearchTree.DisableOnCells` | Project/tsp_branch_bound.py:331-335 | `disable_path` sets the one cell of arc a -> b (when present) to None, addressed by city ids, and changes nothing else |
| `SearchTree.CommitArc` | Project/tsp_branch_bound.py:684-685 | Committing an arc leaves a square matrix one city smaller, with maps of the same length |
| `SearchTree.CommitArcShape` | Project/tsp_branch_bound.py:684-685 | The commit succeeds exactly when both cities are in the maps. It takes i out of the rows and j out of the columns, and nothing else |
| `SearchTree.CommitArcCells` | Project/tsp_branch_bound.py:684-685 | After a commit the reverse arc j -> i is None, and every other remaining cell, addressed by city ids, is unchanged |
| `SearchTree.FreshShaped` | Project/tsp_branch_bound.py:821-826 | Block 11 starts from a well-shaped state |
| `SearchTree.AddArcFacts` | Project/tsp_branch_bound.py:837-843 | Joining an included arc adds exactly that arc to the fragments |
| `SearchTree.IncludeFacts` | Project/tsp_branch_bound.py:836-848 | An inclusion adds exactly its arc, pays C's cell of the arc, and takes one city out of each map |
| `SearchTree.StepFacts` | Project/tsp_branch_bound.py:830-848 | A climb step keeps the state well shaped. An inclusion adds exactly its arc |
| `SearchTree.WalkArcs` | Project/tsp_branch_bound.py:825-850 | A successful climb to the root leaves fragments holding exactly the arcs included on the way, and removes one city per included arc |
| `SearchTree.AddArcCities` | Project/tsp_branch_bound.py:837-843 | Joining an included arc brings in no city other than its two ends |
| `SearchTree.StepWithin` | Project/tsp_branch_bound.py:830-848 | A climb step keeps the maps and the fragments naming cities 1..n only |
| `SearchTree.WalkWithin` | Project/tsp_branch_bound.py:825-850 | The climb to the root keeps the maps and the fragments naming cities 1..n only |
| `SearchTree.RebuildWithin` | Project/tsp_branch_bound.py:821-850 | Block 11 rebuilds maps and fragments that name only cities 1..n, where n is the size of C |
| `SearchTree.ApartLeaves` | Project/tsp_branch_bound.py:684-685 | When the fragments agree with the maps, a city some city follows is no longer a row of C' |
| `SearchTree.ApartEnters` | Project/tsp_branch_bound.py:684-685 | When the fragments agree with the maps, a city that follows another is no longer a column of C' |
| `SearchTree.ApartEndsOnly` | Project/tsp_branch_bound.py:395-406 | When the fragments agree with the maps, a row city only ends a fragment and a column city only starts one |
| `SearchTree.AddArcKeepsDistinct` | Project/tsp_branch_bound.py:648 | When the fragments agree with the maps, joining an arc from a row city to another column city keeps every city visited once, so `check_tour` passes |
| `SearchTree.IncludeKeepsApart` | Project/tsp_branch_bound.py:836-848 | An inclusion that is not a self arc keeps the fragments in agreement with the maps |
| `SearchTree.WalkKeepsApart` | Project/tsp_branch_bound.py:825-850 | The climb to the root keeps the fragments in agreement with the maps, given no node includes a self arc |
| `SearchTree.RebuildIsApart` | Project/tsp_branch_bound.py:821-850 | Block 11 rebuilds fragments that visit no city twice and agree with the maps |
| `MatrixState.DeleteRowColNonNegative` | Project/tsp_branch_bound.py:304-318 | Deleting a row and a column creates no negative cell |
| `MatrixState.CommitArcNonNegative` | Project/tsp_branch_bound.py:684-685 | Committing an arc creates no negative cell |
| `MatrixState.DisableOnNonNegative` | Project/tsp_branch_bound.py:331-335 | Forbidding a cell creates no negative cell |
| `MatrixState.CommitReduceFacts` | Project/tsp_branch_bound.py:684-686 | Block 5's commit and reduction succeed exactly when both cities are mapped. The result is one city smaller with no negative cell, and subtracts at least 0 |
| `MatrixState.IndexedMatrix.constructor` | Project/tsp_branch_bound.py:1100-1103 | C' and both maps start empty |
| `MatrixState.IndexedMatrix.ResetRowColMap` | Project/tsp_branch_bound.py:297-301 | Both maps become `[1, ..., n]` |
| `MatrixState.IndexedMatrix.ResetCPrime` | Project/tsp_branch_bound.py:291-294 | C' becomes C, with identity maps |
| `MatrixState.IndexedMatrix.FixMapOnDelete` | Project/tsp_branch_bound.py:321-328 | Pops both cities from the maps. It fails exactly when one is missing, where `list.index` raises, and then changes nothing |
| `MatrixState.IndexedMatrix.DeleteRowCol` | Project/tsp_branch_bound.py:304-318 | Deletes the row of city `i_row` and the column of city `j_col` in C' and the maps, keeping the maps in step. It fails exactly when a city is missing |
| `MatrixState.IndexedMatrix.DisablePath` | Project/tsp_branch_bound.py:331-335 | Forbids arc `i_row -> j_col` when both cities are mapped |
| `MatrixState.IndexedMatrix.Commit` | Project/tsp_branch_bound.py:684-685 | Deletes the row of i and the column of j, then forbids j -> i; together they compute `CommitArc` |
| `MatrixState.IndexedMatrix.CommitAndReduce` | Project/tsp_branch_bound.py:684-686 | Commits arc i -> j and reduces C'. The subtracted sum is the one `CommitReduce` specifies, and is at least 0 while C' has no negative cell. C' is left without negative cells, the maps lose exactly i and j, and a failing commit changes nothing |
| `MatrixState.IndexedMatrix.Simplify` | Project/tsp_branch_bound.py:686 | C' becomes its reduction, with no negative cell, and the subtracted sum is returned |
| `Branching.ForbidLastIsDisable` | Project/tsp_branch_bound.py:639 | The retry step forbids the arc of the last candidate tried |
| `Branching.ForbidLastCell` | Project/tsp_branch_bound.py:639 | The retry step turns exactly one zero cell, that of the last candidate, into None |
| `Branching.ForbidLastShrinks` | Project/tsp_branch_bound.py:638-646 | Each retry removes a zero cell, so the retry loop ends |
| `Branching.ChooseNothing` | Project/tsp_branch_bound.py:629-630 | With no candidate, block 3 has nothing to branch on and leaves C' alone |
| `Branching.ChooseAccepted` | Project/tsp_branch_bound.py:632-638 | The first candidate that `add_path` accepts is the arc chosen, and C' stays as it is |
| `Branching.ChooseRetry` | Project/tsp_branch_bound.py:638-646 | When every candidate is refused, the choice is the one made after forbidding the last candidate |
| `Branching.ForbidLastRefused` | Project/tsp_branch_bound.py:638-646 | A retry forbids only a zero cell whose arc the fragments refuse |
| `Branching.ChooseFacts` | Project/tsp_branch_bound.py:627-646 | The retries forbid only refused zero cells and never add a zero or a negative cell. With no arc chosen no candidate is left; a chosen arc is the first accepted candidate of the final C' |
| `Branching.ChooseOnNoFragments` | Project/tsp_branch_bound.py:635-636 | With no fragments yet, the head of the candidate list is taken |
| `Branching.PossiblePathsMapped` | Project/tsp_branch_bound.py:627 | Every candidate runs from a row city to a column city |
| `Branching.ChooseMapped` | Project/tsp_branch_bound.py:627-646 | The arc block 3 chooses runs from a row city to a column city, and the fragments accept it |
| `Branching.ChosenWithin` | Project/tsp_branch_bound.py:627-646 | Joining the chosen arc keeps the fragments naming cities 1..n only |
| `Branching.ChosenArcKeepsDistinct` | Project/tsp_branch_bound.py:627-648 | When the fragments agree with the maps, the chosen arc keeps every city visited once unless it is a self arc, so `check_tour` can only fail on a self arc |
| `Branching.TryAddSingle` | Project/tsp_branch_bound.py:395-406 | An arc added to one fragment extends it, or starts a second fragment behind it |
| `Branching.AddPathResultSingle` | Project/tsp_branch_bound.py:727-732 | `add_path` on one fragment keeps its arcs, in one fragment or in the first of two |
| `Branching.LeafOfTwo` | Project/tsp_branch_bound.py:716-717 | Joining two fragments keeps the arcs of both |
| `Branching.LeafOfOne` | Project/tsp_branch_bound.py:718-739 | Closing one fragment with either pairing keeps its arcs |
| `Branching.LeafKeepsArcs` | Project/tsp_branch_bound.py:716-743 | The leaf tour of block 7 runs along every arc the fragments already hold |
| `Branching.ClosedCities` | Project/tsp_branch_bound.py:718-739 | Closing one fragment with either pairing brings in only cities of the pairings |
| `Branching.LeafPathsCities` | Project/tsp_branch_bound.py:716-743 | The leaf tour names only cities of the fragments and of the rows and columns left |
| `Search.MaxDijOf` | Project/tsp_branch_bound.py:627 | `find_max_Dij` on C' and the maps returns `max_Dij`, at least 0, and the candidates by city ids |
| `Search.TryCandidates` | Project/tsp_branch_bound.py:638 | `add_path` over the candidates: the candidate accepted, or the last one tried when all are refused |
| `Search.ForbidLastTried` | Project/tsp_branch_bound.py:639 | Forbidding the last candidate tried removes a zero cell, and leaves the choice still to be made unchanged |
| `Search.Retry` | Project/tsp_branch_bound.py:638-646 | One pass of the retry loop: forbid, recompute the candidates and try again. The choice still to be made is unchanged, and a zero cell is gone |
| `Search.ChooseArc` | Project/tsp_branch_bound.py:627-646 | Block 3's loop computes `Choose`: the final C', the arc joined to the fragments (or none), and `max_Dij` of the final C' |
| `Search.CloseFragments` | Project/tsp_branch_bound.py:716-743 | Block 7's closing of the fragments computes `LeafPaths`, and fails where the source raises. The fragments gain only cities of the maps |
| `Search.JoinArc` | Project/tsp_branch_bound.py:837-843 | The included arc starts the first fragment, or `add_path` tries it alone. The result is `AddArc` |
| `Search.IncludeArc` | Project/tsp_branch_bound.py:836-848 | Block 11 on an included arc computes `Include`, and fails where the source raises |
| `Search.Replay` | Project/tsp_branch_bound.py:830-848 | One climb step computes `Step` |
| `Search.Climb` | Project/tsp_branch_bound.py:825-850 | The climb from X to the root computes `Walk` |
| `Search.Rebuild` | Project/tsp_branch_bound.py:821-855 | C' rebuilt from C, then reduced. X's new bound is the cost of the included arcs plus the subtracted sum. The maps and fragments name only cities 1..n, where n is the size of C |
| `Search.BranchAndBound.constructor` | Project/tsp_branch_bound.py:1100-1129 | The initial state of the solver: no tree, empty queue, no fragments, no best tour |
| `Search.BranchAndBound.SetBound` | Project/tsp_branch_bound.py:669 | A node's bound is updated and nothing else changes |
| `Search.BranchAndBound.Block1` | Project/tsp_branch_bound.py:585-593 | C becomes the input with 0 read as None |
| `Search.BranchAndBound.Block2` | Project/tsp_branch_bound.py:601-607 | C' is C reduced, with identity maps. The root's bound is the subtracted sum |
| `Search.BranchAndBound.Grow` | Project/tsp_branch_bound.py:650-654 | X gets two new children: Y-bar, excluding the arc, and Y, including it |
| `Search.BranchAndBound.Block3` | Project/tsp_branch_bound.py:615-656 | Computes `Choose` and adds the arc chosen to the fragments. It returns false exactly when no arc is left. It fails exactly when `check_tour` would reject the fragments or X is missing. City ids stay within 1..n |
| `Search.BranchAndBound.Block4` | Project/tsp_branch_bound.py:664-672 | Y-bar's bound is X's bound plus `max_Dij`, and Y-bar is queued. As `max_Dij` is at least 0, that bound is never below X's |
| `Search.BranchAndBound.Block5` | Project/tsp_branch_bound.py:680-691 | Commits and reduces. Y's bound is X's bound plus the subtracted sum, and X is cleared. The sum is at least 0, so Y's bound is never below X's, and the maps only lose the committed cities |
| `Search.BranchAndBound.Block7` | Project/tsp_branch_bound.py:709-752 | The leaf tour is the closed fragments. It passes `check_tour`, and Y's bound becomes its cycle cost in C. The tour names only cities 1..n |
| `Search.BranchAndBound.Block8` | Project/tsp_branch_bound.py:760-768 | The leaf becomes the best tour when there is none yet or it is strictly cheaper. `best_cost` never rises, and it stays the cost of a valid tour |
| `Search.BranchAndBound.Block9` | Project/tsp_branch_bound.py:774-785 | X becomes Y unless the queue head is cheaper. Then the head is popped as X and Y is queued unless C' is 2 by 2. Either way nothing left in the queue is below X's bound. X is Y even when it then fails: `AttributeError` without Y, `IndexError` on an empty queue, `TypeError` when Y has no bound |
| `Search.BranchAndBound.Block10` | Project/tsp_branch_bound.py:791-802 | Stops exactly when the best cost is at most X's bound, rotating the best tour to start at city 1 without changing its validity or cost |
| `Search.BranchAndBound.Block11` | Project/tsp_branch_bound.py:808-858 | Unless X is Y, rebuilds C', the maps and the fragments by the climb from X. X's bound becomes the cost of the included arcs plus the subtracted sum |
| `Search.BranchAndBound.Start` | Project/tsp_branch_bound.py:1177-1178 | Block 1 then block 2: C is loaded, the root exists and is X, and the maps name cities 1..n |
| `Search.BranchAndBound.BeginIteration` | Project/tsp_branch_bound.py:1181-1182 | Counts the iteration and runs block 3. A branch is made only on a chosen arc with X present. `max_Dij` is at least 0 |
| `Search.BranchAndBound.Backtrack` | Project/tsp_branch_bound.py:1183-1186 | Pops Y and X from the queue and rebuilds. It fails when the queue holds fewer than two entries |
| `Search.BranchAndBound.Descend` | Project/tsp_branch_bound.py:1188-1189 | Block 4 then block 5 after X gets its children. On success both children have bounds, neither below X's, and X is cleared |
| `Search.BranchAndBound.Leaf` | Project/tsp_branch_bound.py:1191-1193 | Block 7 then block 8: an incumbent exists afterwards, and it is still a valid tour of its cost |
| `Search.BranchAndBound.PickAndTest` | Project/tsp_branch_bound.py:1195-1200 | Block 9 then block 10's test. The incumbent is kept. On stopping the best tour starts at city 1; otherwise the best tour is unchanged |
| `Search.BranchAndBound.Finish` | Project/tsp_branch_bound.py:1195-1200 | Block 9, block 10, and block 11 unless stopping. On stopping the best tour is valid and starts at city 1 |
| `Search.BranchAndBound.Iterate` | Project/tsp_branch_bound.py:1181-1200 | One pass of the main loop keeps the solver valid, the incumbent a tour of its cost and every city id within 1..n. On stopping the best tour visits every city exactly once and starts at city 1 |
| `Search.BranchAndBound.Run` | Project/tsp_branch_bound.py:1180-1200 | On stopping, `best_tour` visits all n cities once, starts at city 1, and costs `best_cost` in C. Its entries are exactly the cities 1..n |
| `DraftScript.IndexInRange` | main.py:8-9 | `index` maps the one-based positions 1..n onto the zero-based 0..n-1, and back |
| `DraftScript.MinEntryRaises` | main.py:13-14 | The draft's `min_no_none` raises exactly on a row without entries, and otherwise agrees with the solver's |
| `DraftScript.SubtractMin` | main.py:26-33 | Raises exactly when a row has no entry. Otherwise it gives the row pass and the sum of the minima |
| `DraftScript.RowPassKeepsColumnEntries` | main.py:73-81 | The row pass keeps exactly the columns that have entries |
| `DraftScript.ReduceScript` | main.py:63-89 | Raises exactly when a row or a column of C' has no entry. Otherwise it computes the solver's `simplify` and the root bound |
| `DraftScript.RootTransposeBack` | main.py:80-83 | Transposing the column pass back gives the reduced matrix |
| `DraftScript.PenaltyScan` | main.py:101-110 | The printed values are the penalties of the zero cells in row-major order. The scan raises exactly when a zero cell's row or column has no other entry |
| `DraftScript.ZeroCellPenalty` | main.py:109 | D(i, j) through the transpose: it fails exactly when a minimum is empty, and otherwise is the penalty |
| `ReferenceSolver.ScanRowMinima` | tsp_branch_bound.cpp:93-104 | `row[i]` becomes the least cell of row i, or `INT_MAX` when all its cells are `INT_MAX` |
| `ReferenceSolver.SubtractRowMinima` | tsp_branch_bound.cpp:107-115 | Every finite cell loses its row's finite minimum |
| `ReferenceSolver.RowReduction` | tsp_branch_bound.cpp:90-116 | `row[]` holds the row minima, and the array holds the row-reduced matrix |
| `ReferenceSolver.ScanColumnMinima` | tsp_branch_bound.cpp:123-134 | `col[j]` becomes the least cell of column j, or `INT_MAX` |
| `ReferenceSolver.FoldRowIntoMinima` | tsp_branch_bound.cpp:128-133 | Row i lowers each `col[j]` it undercuts, and only those |
| `ReferenceSolver.SubtractColumnMinima` | tsp_branch_bound.cpp:137-145 | Every finite cell loses its column's finite minimum |
| `ReferenceSolver.ColumnReduction` | tsp_branch_bound.cpp:120-146 | `col[]` holds the column minima, and the array holds the column-reduced matrix |
| `ReferenceSolver.MinUpToFacts` | tsp_branch_bound.cpp:93-104 | The scan gives `INT_MAX` exactly when every cell is `INT_MAX`, and otherwise the least cell |
| `ReferenceSolver.RowReducedInRange` | tsp_branch_bound.cpp:107-115 | The row pass keeps cells in 0..`INT_MAX` (no overflow) and keeps `INT_MAX` cells |
| `ReferenceSolver.ColumnReducedInRange` | tsp_branch_bound.cpp:137-145 | The column pass keeps cells in 0..`INT_MAX` and keeps `INT_MAX` cells |
| `ReferenceSolver.CalculateCost` | tsp_branch_bound.cpp:149-170 | Reduces rows, then columns, in place. The cost is the sum of the finite row and column minima |
| `ReferenceSolver.MinUpToIsMinEntry` | tsp_branch_bound.cpp:93-104 | The C++ row minimum, with `INT_MAX` read as None, is the Python solver's `min_no_none` |
| `ReferenceSolver.ReducedRowIsReduceRow` | tsp_branch_bound.cpp:107-115 | One row of `rowReduction` is the Python row pass on the same row |
| `ReferenceSolver.RowPassIsReduceRows` | tsp_branch_bound.cpp:90-116 | `rowReduction` is the Python row pass, and its finite minima add up to the Python sum |
| `ReferenceSolver.ColumnsAreTranspose` | tsp_branch_bound.cpp:120-146 | The columns of the array, read as rows, are the Python transpose |
| `ReferenceSolver.ColumnReducedByColumns` | tsp_branch_bound.cpp:120-146 | Reducing the columns in place is reducing the rows of the columns |
| `ReferenceSolver.RowPassWhole` | tsp_branch_bound.cpp:90-116 | Over all N rows, `rowReduction` is the Python `subtract_min` |
| `ReferenceSolver.ColumnPassWhole` | tsp_branch_bound.cpp:120-146 | `columnReduction` is the Python column pass through the transpose |
| `ReferenceSolver.CalculateCostIsSimplify` | tsp_branch_bound.cpp:149-170 | The matrix `calculateCost` leaves is the one the Python `simplify` returns |
| `ReferenceSolver.CalculateCostIsReductionTotal` | tsp_branch_bound.cpp:149-170 | The cost `calculateCost` returns is the Python `simplify` sum, a lower bound of every tour |
| `ReferenceSolver.NewNode` | tsp_branch_bound.cpp:46-87 | The node copies the parent matrix. Unless it is the root, row i and column j become `INT_MAX` and arc (i, j) is appended to the path. Cell [j][0] becomes `INT_MAX` |
| `ReferenceSolver.TopExists` | tsp_branch_bound.cpp:181-186 | A non-empty queue has a node that `comp` ranks above no other, and it costs no more than any queued node |
| `ReferenceSolver.Expand` | tsp_branch_bound.cpp:237-257 | The children of the popped node are pushed in column order, one for each finite arc out of its city |
| `ReferenceSolver.MakeChild` | tsp_branch_bound.cpp:242-252 | The child's cost is the parent's cost, plus the arc, plus `calculateCost` of the child's matrix |
| `ReferenceSolver.BlockedInRange` | tsp_branch_bound.cpp:66-77 | Forbidding cells keeps them in 0..`INT_MAX` and keeps `INT_MAX` cells |
| `ReferenceSolver.ReductionCostNonNegative` | tsp_branch_bound.cpp:163-167 | `calculateCost` adds no negative amount |
| `ReferenceSolver.ReducedKeepsInf` | tsp_branch_bound.cpp:149-170 | `calculateCost` turns no `INT_MAX` cell finite |
| `ReferenceSolver.WalkExtends` | tsp_branch_bound.cpp:52-58 | Appending an arc into a city neither entered yet nor 0 keeps the path a simple walk from 0 |
| `ReferenceSolver.ChildMatrixFacts` | tsp_branch_bound.cpp:66-77 | In the child's reduced matrix, arc j -> 0 and the column of every city entered are closed |
| `ReferenceSolver.ChildIsGood` | tsp_branch_bound.cpp:239-252 | A child made for a finite arc is again a live node. Its walk stays simple and its cost is at least its parent's |
| `ReferenceSolver.ChildrenGood` | tsp_branch_bound.cpp:237-257 | Every child of a live node is live |
| `ReferenceSolver.QueueWeightRemove` | tsp_branch_bound.cpp:214-217 | Popping a node removes exactly its weight from the queue |
| `ReferenceSolver.ChildrenLevels` | tsp_branch_bound.cpp:237-257 | There is at most one child per column, each one level deeper |
| `ReferenceSolver.ExpandLighter` | tsp_branch_bound.cpp:237-257 | Replacing a node above the last level by its children makes the queue lighter, so the loop ends |
| `ReferenceSolver.MakeRoot` | tsp_branch_bound.cpp:198-201 | The root is live at level 0 in city 0 with no path. Its cost is the root bound |
| `ReferenceSolver.Pop` | tsp_branch_bound.cpp:214-217 | Takes a node of least cost under `comp`, leaving the rest of the queue. The tie order is left open |
| `ReferenceSolver.Solve` | tsp_branch_bound.cpp:189-263 | `solve` ends. When it returns a cost, that cost is at least the root bound, and the printed path is a closed tour from city 0 that enters every city exactly once. The cost is that of the level N - 1 node popped, the tour is its path closed back to 0, and no node queued at that pop costs less |
| `ReferenceSolver.WalkEnters` | tsp_branch_bound.cpp:52-58 | A walk from city 0 enters only cities 1..N-1, each once |
| `ReferenceSolver.TourVisitsAll` | tsp_branch_bound.cpp:223-232 | The tour that `solve` prints is a Hamiltonian cycle: its N arcs enter all the cities 0..N-1 |

## Left out

- Search.BranchAndBound.Run: optimality of `best_tour` is not proved. The model proves that the stopping tour is a valid tour of its cost, not that no cheaper tour exists. When block 3 finds nothing to branch on, the source pops Y and then X from the queue (Project/tsp_branch_bound.py:1183-1184) and never returns to Y, so a proof would need an argument about that discarded node which the source does not give.
- Search.BranchAndBound.Run: the main loop runs for at most `fuel` iterations and returns `Success(false)` when they run out. The source loops until block 10 stops it. Termination of the Python search is not proved.
- Search.BranchAndBound.Block3: the solver state does not carry `SearchTree.Apart` (the fragments visit no city twice, and no row or column of C' is a city the fragments already leave or enter) as an invariant. So block 3's `check_tour` stays a runtime check, failing with `AssertionError`. `Branching.ChosenArcKeepsDistinct`, `SearchTree.IncludeKeepsApart` and `SearchTree.RebuildIsApart` prove that it holds after each rebuild and that a chosen arc that is not a self arc keeps it. A self arc can be chosen only from a diagonal cell that the input gives a distance.
- Search.BranchAndBound.Backtrack: promises only validity, and failure on a queue with fewer than two entries. The rebuilt state is stated by `Block11`.
- Search.BranchAndBound.Leaf: promises only the incumbent invariant and that Y has a bound. The details are stated by Block7 and Block8, which it calls.
- Search.BranchAndBound.Finish: promises only the incumbent invariant and the stopping facts. The details are stated by PickAndTest (Block9 and Block10) and Block11, which it calls.
- The node cost left uninitialised by `newNode` in the C++ source is 0 in `ReferenceSolver.NewNode`; the caller always sets it.
- `ReferenceSolver.Solve` requires every cell in 0..`INT_MAX`. Negative cells would make the int arithmetic overflow. The cost sums are unbounded integers, so int overflow of a long tour's cost is not modelled.
- ReferenceSolver.Pop: the heap's order among nodes of equal cost is not modelled. Any node of least cost may be taken.
- ReferenceSolver.Solve: does not prove that the returned cost is the least tour cost. It proves that the cost is that of the popped leaf and that no node queued at that moment costs less. The missing step is that a node's cost bounds every tour below it.
- ReferenceSolver.Solve: when the queue runs dry, the C++ function falls off its end without a return value. This is a `Failure` here.
- Memory management (`new`, `delete`), `printPath`, the iteration counter and `main` of the C++ source are not modelled. The printed path is returned instead.
- All printing, timing, command-line parsing, the debug main loop, the test-runs modes, file input and the name table are not modelled. In `main.py` the `print` calls are left out, and the penalties are returned.
- `generate_new_matrix` (random input generation) is not modelled: randomness is outside the model.
- Block 7 sets `current_tour` to the flat leaf tour. The model keeps that tour in a separate field (`leafTour`) and leaves the fragment list as it was, because no later block reads the fragments before block 11 resets them.
- Block 3 resets `i_from`, `j_to` and `max_Dij` to None before it starts. The model does not store these None values, because every path that reads them assigns them first. `max_Dij` is passed from block 3 to block 4 as a value.
- `delete_row_col` changes C' before `list.index` can raise in `fix_map_on_delete`. The model checks both cities first, so a failing call changes nothing; the source then stops with the exception anyway.
- C' starts as None in the source and as an empty matrix here; it is set by block 2 before any use.
- Python's `zip` truncates ragged rows when transposing. The model requires rectangular matrices (`DraftScript.ReduceScript`, `Reduction.Simplify`), which every matrix of the source is.
- `tests/test_arcs.py` is not part of this model.
