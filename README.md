# Thinness of graphs — a verified model

The thinness repository computes the *thinness* of a graph. A solution is a linear
order of the vertices together with a partition of them into classes. The solution is
*consistent* when no triple u < v < w of the order has u and v in the same class, an
edge u–w and no edge v–w. The thinness is the least number of classes that a
consistent solution needs. This project models, in Dafny, the parts of the repository
that decide and search for consistent solutions. Dafny proves the properties below
about that model.

The model follows the repository file by file. There is one Dafny module per source
file:

| Dafny module | models |
|---|---|
| `Graphs` (graphs.dfy) | Sage's undirected `Graph` as a value: a vertex set and a symmetric edge set. `MutableGraph` is the object the algorithms change in place. |
| `Itertools` (itertools.dfy) | `itertools.combinations` and `itertools.permutations`, as sequences in the order Python yields them. |
| `Wrappers` (wrappers.dfy) | `Option` (Python's `None`) and `Result` (a raised exception). |
| `Utils` (utils.dfy) | utils.py: `insertions` and `all_subsets`. |
| `ConsistentSolution` (consistent_solution.dfy) | src/thinness/consistent_solution.py: the `ConsistentSolution` record, `part_of`, and the construction from a solver model. |
| `Compatibility` (compatibility.dfy) | src/compatibility.py: incompatible triples and the compatibility graph. |
| `Verify` (verify.dfy) | thinness/verify.py: `verify_solution`. |
| `VertexSeparation` (vertex_separation.dfy) | src/thinness/vertex_separation.py: the solution built from a linear layout. |
| `BranchAndBound` (branch_and_bound.dfy) | thinness/branch_and_bound.py: the append-only search with an incremental compatibility graph. |
| `CalculateThinness` (calculate_thinness.dfy) | calculate_thinness.py: the insertion-based backtracking with the three constraint adders. |
| `ProperThinness` (proper_thinness.dfy) | proper_thinness.py: the proper-thinness verifier. |
| `SplitCrown` (split_crown.dfy) | thinness/split_crown.py: split crown graphs and their order and partition. |
| `KnByKnc` (kn_by_knc.dfy) | src/main.py: `create_Kn_by_Knc`, the four heuristic orders and `partition_for_heuristic_4`. |
| `DynamicProgramming` (dynamic_programming.dfy) | thinness/dynamic_programming.py: the prefix-extension dynamic programme. |
| `Reduce` (reduce.dfy) | thinness/reduce.py: twin-vertex reduction. |
| `Flow` (flow.dfy), `Order` (order.dfy) | thinness/order.py: the min-flow network of a fixed order and the flow algorithms on it. |
| `K2Cycles` (k2_cycles.dfy) | thinness/k2_cycles.py: set partitions, modular-decomposition trees and the K2-cycle graphs. |
| `ImplicationsDigraph` (implications_digraph.dfy) | thinness/implications_digraph.py: the implication digraph of a partition. |
| `SolutionsOf5x5` (solutions_of_5x5.dfy) | thinness/solutions_of_5x5.py: row and column checks on grid solutions. |
| `Z3Backtracking` (z3_backtracking.dfy) | thinness/z3_backtracking.py: the graph stack and the store of solved graphs. |

Code that updates state step by step is modelled as imperative Dafny:

- the deque and arrays of the vertex-separation construction;
- the `order` list and the compatibility graph that the searches push onto and pop from;
- the graphs that the reductions delete vertices from;
- the flow labels that the augmenting loop raises;
- the stack of pushed vertices.

Each such method is proved against a specification function of its inputs or of its old
state. The properties that the source promises are then proved about those functions.
Pure code (the verifiers, `part_of`, `partitions`, the tree helpers) is modelled as
functions and lemmas.

External libraries become parameters, each with the property the model relies on:

- Sage's colouring, `vertex_separation` and `pathwidth`;
- networkx's `greedy_color`;
- max-flow, strongly connected components and modular decomposition;
- canonical labels and connectivity.

Vertices are natural numbers. Graphs are simple: no loops, and edges are symmetric.

## Model

| member | source | states |
|---|---|---|
| Graphs.Range | thinness/k2_cycles.py:138 | v is in Range(n) exactly when v < n: the vertices 0..n-1 of `Graph(n)`. |
| Graphs.Iota | thinness/k2_cycles.py:83-84 | `list(range(k))` has length k and holds i at position i. |
| Graphs.IndexOf | src/thinness/vertex_separation.py:63 | `list.index(v)` on a list holding v gives a position of v with no earlier occurrence. |
| Graphs.SortedList | thinness/reduce.py:24 | Sage's `vertices()`: a strictly increasing list holding exactly the vertex set, one entry per vertex. |
| Graphs.InducedDelete | thinness/reduce.py:19 | Deleting a vertex from a graph left over by deletions from g leaves a graph left over by deletions from g. |
| Graphs.InducedTransitive | thinness/reduce.py:9-10 | A graph left by deletions from one left by deletions from g is itself left by deletions from g. |
| Graphs.MutableGraph.constructor | thinness/reduce.py:16 | `graph.copy()`: the new object holds exactly the given graph. |
| Graphs.MutableGraph.AddVertex | thinness/branch_and_bound.py:50 | `add_vertex(v)`: the graph gains v and nothing else. |
| Graphs.MutableGraph.AddEdge | thinness/branch_and_bound.py:55 | `add_edge(u, v)`: the graph gains the edge u–v and its ends; an existing edge is not doubled. |
| Graphs.MutableGraph.DeleteVertex | thinness/branch_and_bound.py:45 | `delete_vertex(v)`: the graph loses v and every edge at v, and nothing else changes. |
| Itertools.Combinations | src/compatibility.py:12 | `itertools.combinations(s, r)`: the r-combinations in lexicographic order of positions, by the first element kept or dropped. Its meaning is proved in CombinationsSound, CombinationsComplete, CombinationsCount and CombinationsShape. |
| Itertools.CombinationsSound | src/compatibility.py:12 | Every r-combination of s is s read at r strictly increasing positions. |
| Itertools.CombinationsComplete | src/compatibility.py:12 | Conversely, s read at any strictly increasing positions is among the combinations of that length. |
| Itertools.CombinationsCount | utils.py:5 | There are Binomial(n, r) r-combinations of an n-element sequence. |
| Itertools.CombinationsShape | utils.py:5 | Each r-combination has length r and keeps the input's relative order. |
| Itertools.TriplesOfCombinations | thinness/verify.py:10 | A list is one of `combinations(order, 3)` exactly when it is order[i], order[j], order[k] for some i < j < k. |
| Itertools.PairsOfCombinations | thinness/implications_digraph.py:22 | A list is one of the 2-combinations exactly when it is s[i], s[j] for some i < j. |
| Itertools.Permutations | thinness/implications_digraph.py:113 | `itertools.permutations(s)`: each position in turn first, followed by every permutation of the rest. PermutationsSound and PermutationsComplete prove it yields exactly the rearrangements of s. |
| Itertools.PermutationsSound | thinness/implications_digraph.py:113 | Every list yielded by `permutations(s)` is a rearrangement of s (same multiset). |
| Itertools.PermutationsComplete | thinness/implications_digraph.py:113 | Every rearrangement of s is yielded by `permutations(s)`. |
| Itertools.RemoveAtMultiset | utils.py:10 | Removing position i removes exactly one copy of s[i]. |
| Utils.Insertions | utils.py:8-10 | `insertions(xs, e)` yields length(xs)+1 lists, each one longer than xs, with e at index i in the i-th; the first starts with e and the last ends with e. |
| Utils.InsertionsRemove | utils.py:10 | Removing e from the i-th insertion gives back xs, and each insertion is xs plus one copy of e. |
| Utils.AllSubsets | utils.py:3-5 | `all_subsets`: the combinations of every size 0..n, chained in increasing size. AllSubsetsCount, AllSubsetsShape and AllSubsetsComplete prove its count, its order and that every subsequence occurs. |
| Utils.AllSubsetsCount | utils.py:3-5 | `all_subsets` yields 2^n subsequences of an n-element input. |
| Utils.AllSubsetsShape | utils.py:3-5 | The subsets come in non-decreasing size, and each keeps the input's relative order. |
| Utils.AllSubsetsComplete | thinness/z3_backtracking.py:134-136 | Every subsequence (s read at increasing positions) is among the yielded subsets. |
| Utils.SubsetsFromMember | utils.py:5 | Everything yielded from size r on is a combination of some size. |
| Utils.SubsetsFromContains | utils.py:5 | Every q-combination with r <= q <= n is yielded from size r on. |
| Utils.BinomialsRow | utils.py:5 | The binomials of a row sum to 2^n. |
| ConsistentSolution.Solution.Thinness | src/thinness/consistent_solution.py:5 | `thinness` is the number of classes, empty ones included, so every class index returned by `part_of` is below it. |
| ConsistentSolution.Solution.PartOf | src/thinness/consistent_solution.py:7-11 | `part_of(v)` is the first class holding v; it is `None` exactly when no class holds v. |
| ConsistentSolution.Solution.FirstPartFrom | src/thinness/consistent_solution.py:8-10 | The scan from class `start` on finds the first class holding v, and none exactly when no later class does. |
| ConsistentSolution.PartOfDisjoint | src/thinness/consistent_solution.py:8-11 | With pairwise disjoint classes, `part_of(v)` is the class holding v. |
| ConsistentSolution.OrderFromModel | src/thinness/consistent_solution.py:21 | `_order_from_model` is a rearrangement of the nodes, sorted by their order values. |
| ConsistentSolution.InsertByValue | src/thinness/consistent_solution.py:21 | Insertion into a list sorted by value keeps it sorted and adds exactly that node. |
| ConsistentSolution.InsertByValueStable | src/thinness/consistent_solution.py:21 | The inserted node lands ahead of every node with its value and the other nodes keep their order. |
| ConsistentSolution.OrderFromModelStable | src/thinness/consistent_solution.py:21 | `sorted` is stable: for every value, the nodes with that value appear in the result in their input order. |
| ConsistentSolution.Position | src/thinness/consistent_solution.py:28 | Python indexing `partition[c - 1]`: a negative index counts from the end; the position is in range. |
| ConsistentSolution.PartitionFromModel | src/thinness/consistent_solution.py:25-29 | `_partition_from_model` succeeds exactly when every class value indexes the list; it makes exactly k classes, and class p holds exactly the nodes whose value lands at p. |
| ConsistentSolution.NodeInItsPart | src/thinness/consistent_solution.py:27-28 | A node with class value c in 1..k lands in class c - 1. |
| ConsistentSolution.FromModel | src/thinness/consistent_solution.py:14-17 | `from_model` gives an order sorted by value and holding the same nodes, k classes, and each node in the class its value names; otherwise the `IndexError`. |
| Compatibility.AddIncompatibleEdges | src/compatibility.py:12-14 | The loop adds edge u–v exactly when some listed triple (u, v, w) is incompatible. |
| Compatibility.AddIncompatibleVertices | src/compatibility.py:11-14 | The loop's vertices are the start graph's plus the ends of added edges. |
| Compatibility.WitnessedByPositions | src/compatibility.py:12-13 | A triple among `combinations(order, 3)` witnesses u–v exactly when u, v, w stand in that order at increasing positions and the triple is incompatible. |
| Compatibility.IsIncompatibleTriple | src/compatibility.py:6-7 | (u, v, w) is incompatible when u–w is an edge and v–w is not. |
| Compatibility.CompatibilityGraph | src/compatibility.py:10-15 | `build_compatibility_graph`: the graph's vertices with no edges, then u–v added for each incompatible triple of `combinations(order, 3)`. CompatibilityEdges proves which edges that gives, and BuildCompatibilityGraph proves the in-place loop builds it. |
| Compatibility.CompatibilityEdges | src/compatibility.py:12-14 | u–v is an edge of the compatibility graph exactly when some w after u and v, with u before v, makes (u, v, w) incompatible (either orientation of the pair). |
| Compatibility.CompatibilityVertices | src/compatibility.py:11 | The compatibility graph's vertices are the graph's vertices (exactly them when the order lists only graph vertices), even with no edges. |
| Compatibility.JoinedInOrder | src/compatibility.py:12 | Both ends of a compatibility edge are in the order. |
| Compatibility.AbsentVertexIsolated | src/compatibility.py:11-14 | A vertex not in the order has no compatibility edge. |
| Compatibility.PrefixSubgraph | src/compatibility.py:12-14 | The graph built for a prefix of the order is a subgraph of the graph built for the whole order. |
| Compatibility.CompatibilityGraphValid | src/compatibility.py:10-15 | The compatibility graph of a simple graph is simple. |
| Compatibility.BuildCompatibilityGraph | src/compatibility.py:10-15 | The loop builds exactly the compatibility graph, and each edge's label w is a vertex after both ends making (u, v, w) incompatible. |
| Verify.VerifySolution | thinness/verify.py:7-11 | `verify_solution`: the order has one entry per vertex and `any` finds no violating triple among `combinations(order, 3)`. VerifySolutionByPositions restates it over positions, and ViolationIsFound and FoundViolationIsReal prove the `any` exact. |
| Verify.VerifySolutionByPositions | thinness/verify.py:7-11 | `verify_solution` holds exactly when the length matches and no u < v < w of the order (by position) has u and v in the same class, edge u–w and no edge v–w. |
| Verify.ViolationIsFound | thinness/verify.py:9-10 | A violating triple at positions i < j < k is found by the `any`. |
| Verify.FoundViolationIsReal | thinness/verify.py:9-10 | A triple the `any` finds is a real violation of consistency. |
| Verify.WrongLengthRejected | thinness/verify.py:8 | An order whose length is not the graph's order is rejected. |
| Verify.ShortOrderAccepted | thinness/verify.py:8-10 | An order of matching length at most 2 is accepted: there are no triples. |
| Verify.UnassignedShareAClass | thinness/verify.py:9 | Two vertices in no class both get `None` and count as one class, so they can make a violation. |
| Verify.SingleVertexAccepted | tests/test_verify.py:13-16 | The one-vertex graph with order [0] and class {0} is accepted. |
| Verify.EmptyPartitionAccepted | thinness/verify.py:7-10 | The one-vertex graph with order [0] and no classes is accepted as written. |
| VertexSeparation.LastNeighborBefore | src/thinness/vertex_separation.py:44-47 | After the first t layout positions, the entry for v is the last of them adjacent to v, or the initial marker when none is (0 in the source). |
| VertexSeparation.GetLastNeighbors | src/thinness/vertex_separation.py:42-49 | `_get_last_neighbors` gives, for every vertex, the largest layout index of a neighbour, or the initial marker (0 in the source) when it has none. |
| VertexSeparation.SortedValues | src/thinness/vertex_separation.py:54 | `sorted(...)`: a non-decreasing rearrangement of the input. |
| VertexSeparation.Mex | src/thinness/vertex_separation.py:52-59 | `_mex` is at most the input size and every smaller number occurs in the input; on distinct inputs it is itself absent, so it is the least excluded number. |
| VertexSeparation.DistinctPermutation | src/thinness/vertex_separation.py:54 | Sorting distinct values keeps them distinct. |
| VertexSeparation.FirstIndex | src/thinness/vertex_separation.py:63 | `deque.index(x)`: the first position of x, or the `ValueError` exactly when x is absent. |
| VertexSeparation.Deque.constructor | src/thinness/vertex_separation.py:11 | `deque()` is empty. |
| VertexSeparation.Deque.Append | src/thinness/vertex_separation.py:20 | `append` puts x at the right end. |
| VertexSeparation.Deque.AppendLeft | src/thinness/vertex_separation.py:28 | `appendleft` puts x at the left end. |
| VertexSeparation.Deque.Insert | src/thinness/vertex_separation.py:64 | `deque.insert(i, x)` puts x at position i, or at the end when i is past it. |
| VertexSeparation.InsertBefore | src/thinness/vertex_separation.py:62-64 | `_insert_before` succeeds exactly when `before` is present, and then puts the element at the first position of `before`; otherwise the deque is unchanged (the `ValueError`). |
| VertexSeparation.InsertedJustBefore | src/thinness/vertex_separation.py:62-64 | After `_insert_before` the element stands right before the first `before`, the deque has grown by one, and removing the element gives back the old deque. |
| VertexSeparation.InsertKeepsBefore | src/thinness/vertex_separation.py:20-32 | Inserting anywhere keeps every earlier "x before y" relation of the order. |
| VertexSeparation.ActiveClasses | src/thinness/vertex_separation.py:21-22 | The classes of the active vertices, listed; they are distinct when active vertices hold distinct classes. |
| VertexSeparation.Deactivate | src/thinness/vertex_separation.py:15-17 | A neighbour whose last neighbour is the current index stops being active, and nothing else changes. |
| VertexSeparation.DeactivationStep | src/thinness/vertex_separation.py:15-17 | After the deactivation loop, the active vertices are exactly the earlier vertices whose last neighbour lies beyond the current index. |
| VertexSeparation.ActiveClassesAt | src/thinness/vertex_separation.py:21-22 | The classes the source collects from `is_active` are the classes of the active vertices, and they are distinct. |
| VertexSeparation.ActiveDiffers | src/thinness/vertex_separation.py:18-23 | Two vertices active at the same time hold different classes. |
| VertexSeparation.ActiveStep | src/thinness/vertex_separation.py:18-23 | An active vertex goes to the right end of the order with the mex of the active classes, and becomes active. |
| VertexSeparation.InactiveStep | src/thinness/vertex_separation.py:24-33 | An inactive vertex gets class 0 at the left end when its entry is the marker (the source's test `== 0`); otherwise it gets its last neighbour's class and stands just before it. |
| VertexSeparation.InactiveRule | src/thinness/vertex_separation.py:24-33 | The inactive placement follows the class rule. |
| VertexSeparation.MexDownClosed | src/thinness/vertex_separation.py:22 | Taking the mex keeps the set of classes in use downward closed. |
| VertexSeparation.OldClassDownClosed | src/thinness/vertex_separation.py:29-33 | Reusing class 0 or a class in use keeps the classes in use downward closed. |
| VertexSeparation.DownClosedRange | src/thinness/vertex_separation.py:35 | A downward-closed set of classes is 0..k-1, so `len(set(part_of))` classes cover every class. |
| VertexSeparation.PartitionByClass | src/thinness/vertex_separation.py:35-37 | One class per distinct class value; every vertex's class indexes the list; class p holds exactly the vertices of class p; and every class is used. |
| VertexSeparation.Place | src/thinness/vertex_separation.py:14-33 | One pass of the main loop places the next layout vertex by the rule and keeps the state invariant. |
| VertexSeparation.PlaceActive | src/thinness/vertex_separation.py:18-23 | The active branch keeps the state invariant for one more vertex. |
| VertexSeparation.PlaceInactive | src/thinness/vertex_separation.py:24-33 | The inactive branch keeps the state invariant for one more vertex. |
| VertexSeparation.Start | src/thinness/vertex_separation.py:11-13 | The empty deque and the all-`None`, all-`False` arrays meet the invariant before the loop. |
| VertexSeparation.AllAssigned | src/thinness/vertex_separation.py:14-33 | After the loop every vertex has a class. |
| VertexSeparation.PartsByClass | src/thinness/vertex_separation.py:35-37 | In the built partition, `part_of(v)` is v's class, a class holds exactly the vertices of that class, and no class is empty. |
| VertexSeparation.SolutionFromVertexSeparation | src/thinness/vertex_separation.py:8-39 | The order is a rearrangement of the layout; each vertex is in exactly the class of its value; no class is empty, so the thinness is the number of distinct classes; and each vertex got its class by the mex rule (active) or the last-neighbour rule (inactive); the order is sorted by rank; and with a negative marker the solution is consistent. |
| VertexSeparation.Collect | src/thinness/vertex_separation.py:35-39 | Building the partition from the finished arrays gives such a solution. |
| VertexSeparation.RankedActive | src/thinness/vertex_separation.py:18-20 | An active vertex appended at the right end ranks above everything placed before it, so the order stays sorted by rank. |
| VertexSeparation.RankedHead | src/thinness/vertex_separation.py:27-28 | A vertex with no neighbour before it, put at the left end, ranks below everything placed before it. |
| VertexSeparation.RankedBefore | src/thinness/vertex_separation.py:30-32 | A vertex inserted just before its last neighbour ranks between what stands before that neighbour and the neighbour itself, so the order stays sorted by rank. |
| VertexSeparation.ReachBound | src/thinness/vertex_separation.py:18-33 | For two vertices of one class, the earlier one's neighbours all lie at or before the later one's anchor (the active vertex it shares its class with), because the mex never reuses a class that is still active. |
| VertexSeparation.NoViolation | src/thinness/vertex_separation.py:14-33 | With a negative marker, no triple x < y < z of the built order has x and y in one class, x–z an edge and y–z not. |
| VertexSeparation.SeparationSolutionConsistent | src/thinness/vertex_separation.py:8-39 | With a marker that is no layout position, the built solution is consistent: `verify_solution` holds, as tests/thinness/test_vertex_separation.py:21-57 asserts. |
| VertexSeparation.AsWrittenInconsistent | src/thinness/vertex_separation.py:26-29 | With the source's marker 0, a vertex whose only neighbour is at position 0 and an isolated vertex before it both go to the head in class 0, before the vertex at position 0, and the solution is inconsistent. |
| VertexSeparation.StarThinness | tests/thinness/test_vertex_separation.py:45-57 | When the first layout vertex is adjacent to all others and no other edge exists, the solution has thinness 1 (the single-vertex, K2 and star tests). |
| VertexSeparation.CompleteThinness | tests/thinness/test_vertex_separation.py:23-43 | On a complete graph with n >= 2 vertices the solution has thinness n - 1 (the K2 and K3 tests). |
| BranchAndBound.OrderList.constructor | thinness/branch_and_bound.py:12 | The search starts from the empty order `[]`. |
| BranchAndBound.OrderList.Append | thinness/branch_and_bound.py:38 | `order.append(vertex)` puts the vertex at the end. |
| BranchAndBound.OrderList.Pop | thinness/branch_and_bound.py:44 | `order.pop()` removes and returns the last vertex. |
| BranchAndBound.AddVertexToCompatibilityGraph | thinness/branch_and_bound.py:49-55 | The compatibility graph gains the new vertex and an edge to each ordered neighbour of every suffix vertex that is neither the new vertex nor adjacent to it; nothing else changes. |
| BranchAndBound.LinkedStep | thinness/branch_and_bound.py:52-55 | A suffix vertex that is not the new vertex and not adjacent to it links its ordered neighbours to the new vertex. |
| BranchAndBound.LinkedSkip | thinness/branch_and_bound.py:52 | The new vertex itself and its neighbours link nothing. |
| BranchAndBound.ExtendTracks | thinness/branch_and_bound.py:37-55 | Adding the new vertex's links to the graph built for an order gives the graph built for the order with that vertex appended. |
| BranchAndBound.DeleteRestores | thinness/branch_and_bound.py:44-45 | Deleting the appended vertex gives back the compatibility graph before the append. |
| BranchAndBound.IncrementalMatchesBatch | thinness/branch_and_bound.py:49-55 | For a complete order, the incrementally built graph is the batch compatibility graph of src/compatibility.py:10-15, vertices and edges. |
| BranchAndBound.EdgeIffTriple | thinness/branch_and_bound.py:51-55 | For a complete order, an incremental edge n–x is there exactly when some later vertex s makes (n, x, s) incompatible. |
| BranchAndBound.EdgeHasTriple | thinness/branch_and_bound.py:51-55 | The edge added from n to x has a witness s after x with n–s an edge and x–s not. |
| BranchAndBound.TripleHasEdge | thinness/branch_and_bound.py:51-55 | Every incompatible triple at increasing positions gives an incremental edge between its first two vertices. |
| BranchAndBound.LeafConsistent | thinness/branch_and_bound.py:18-23 | A proper colouring of the compatibility graph of a full order gives a consistent solution. |
| BranchAndBound.ColoredApart | thinness/branch_and_bound.py:22-23 | The two ends of a compatibility edge land in different classes of a proper colouring. |
| BranchAndBound.Search | thinness/branch_and_bound.py:16-33 | `_branch_and_bound` leaves `order` and the compatibility graph as it found them; a returned solution is consistent, uses at most `upper_bound` classes, and extends the current order. |
| BranchAndBound.GetBestSolutionWithVertex | thinness/branch_and_bound.py:36-46 | The append/colour/recurse/pop step restores `order` and the compatibility graph; a returned solution is consistent, within the bound, and continues the order with the chosen vertex. |
| BranchAndBound.Push | thinness/branch_and_bound.py:37-38 | Adding the vertex to the graph and to the order keeps the graph equal to the one built for the longer order. |
| BranchAndBound.Pop | thinness/branch_and_bound.py:44-45 | Popping the order and deleting the vertex gives back the graph built for the shorter order. |
| BranchAndBound.DefaultUpperBound | thinness/branch_and_bound.py:9 | `upper_bound or graph.order() - 1`: a given non-zero bound is kept, and `None` or 0 becomes order - 1. |
| BranchAndBound.CalculateThinnessWithBranchAndBound | thinness/branch_and_bound.py:8-13 | The result is consistent and has at most the seed's thinness; it is the vertex-separation seed, or a solution with fewer classes than the seed and within the upper bound. |
| CalculateThinness.DictSolution.NumberOfClasses | calculate_thinness.py:16-18 | `number_of_classes`: the number of distinct colours in the dictionary. Its bounds are proved in NumberOfClassesBounds. |
| CalculateThinness.NumberOfClassesBounds | calculate_thinness.py:16-18 | `number_of_classes` counts distinct colours: at most the number of coloured vertices, and 0 exactly when none is coloured. |
| CalculateThinness.EdgelessReportsZero | calculate_thinness.py:16-25 | A one-vertex ordering with an empty colouring reports 0 classes, while `complete_partition` puts the vertex in class 0. |
| CalculateThinness.DictSolution.CompletePartition | calculate_thinness.py:20-25 | `complete_partition`: each vertex of the ordering with its colour, or 0 when it has none. CompletePartitionCovers proves its keys and values. |
| CalculateThinness.CompletePartitionCovers | calculate_thinness.py:20-25 | `complete_partition` maps exactly the ordered vertices: to their colour, or to 0 when uncoloured. |
| CalculateThinness.VerifyDictSolution | calculate_thinness.py:140-145 | This `verify_solution` rejects when some triple of `combinations(ordering, 3)` has u and v in one complete class, u–w an edge and v–w not. VerifyDictByPositions, DictViolationIsFound and FoundDictViolationIsReal prove the loop exact. |
| CalculateThinness.VerifyDictByPositions | calculate_thinness.py:140-145 | `verify_solution` holds exactly when no u < v < w of the ordering (by position) has equal complete classes for u and v, edge u–w and no edge v–w. |
| CalculateThinness.DictViolationIsFound | calculate_thinness.py:142-144 | A violating triple at positions i < j < k makes the loop return `False`. |
| CalculateThinness.FoundDictViolationIsReal | calculate_thinness.py:142-144 | A triple that makes the loop return `False` is a real violation. |
| CalculateThinness.FindFirstAdjacent | calculate_thinness.py:36-40 | `_find_first_adjacent` is the least index whose element is adjacent to `node`; it is `None` exactly when none is. |
| CalculateThinness.NonAdjacent | calculate_thinness.py:52-54 | `nonadjacent_after` keeps exactly the listed vertices not adjacent to the new node. |
| CalculateThinness.FirstAdjacentOfNonAdjacent | calculate_thinness.py:56-65 | The first-adjacent search over the non-adjacent list succeeds exactly when some listed vertex is non-adjacent to the one and adjacent to the other. |
| CalculateThinness.LastPairsExactly | calculate_thinness.py:43-48 | The pairs `_add_last_constraints` adds are exactly u before v in `before` with (u, v, new) an incompatible triple. |
| CalculateThinness.AddLastConstraints | calculate_thinness.py:43-48 | `_add_last_constraints` adds exactly those pairs to the constraints graph, and nothing else. |
| CalculateThinness.AddLastRow | calculate_thinness.py:44-48 | The inner loop for one u adds exactly the pairs (u, v) with v after u. |
| CalculateThinness.MiddlePairsExactly | calculate_thinness.py:51-57 | The pairs `_add_middle_constraints` adds are exactly (u, new) for u in `before` with some w in `after` making (u, new, w) incompatible. |
| CalculateThinness.AddMiddleConstraint | calculate_thinness.py:56-57 | One pass adds (u, new) exactly when a non-adjacent later vertex is adjacent to u. |
| CalculateThinness.AddMiddleConstraints | calculate_thinness.py:51-57 | `_add_middle_constraints` adds exactly the middle pairs, and nothing else. |
| CalculateThinness.FirstPairsExactly | calculate_thinness.py:60-66 | The pairs `_add_first_constraints` adds are exactly (new, v) for v in `after` with some later w making (new, v, w) incompatible. |
| CalculateThinness.AddFirstConstraint | calculate_thinness.py:62-66 | One pass adds (new, v) exactly when a vertex after v, non-adjacent to v, is adjacent to the new node. |
| CalculateThinness.AddFirstConstraints | calculate_thinness.py:60-66 | `_add_first_constraints` adds exactly the first pairs, and nothing else. |
| CalculateThinness.AddConstraints | calculate_thinness.py:69-72 | `_add_constraints` adds exactly the union of the last, middle and first pairs. |
| CalculateThinness.ExtendConstraintsGraph | calculate_thinness.py:75-81 | `_extend_constraints_graph` returns a fresh copy (the input graph is untouched) with exactly the pairs through the new node added, split at its first position. |
| CalculateThinness.ExtendMatchesBatch | calculate_thinness.py:75-81 | The incompatible pairs of the ordering are those of the ordering without the new node plus exactly the pairs the three adders add. |
| CalculateThinness.PairHasTriple | calculate_thinness.py:69-72 | Every added pair is witnessed by an incompatible triple of the new ordering. |
| CalculateThinness.TripleThroughNode | calculate_thinness.py:69-72 | Every incompatible triple through the new node gives an added pair. |
| CalculateThinness.RestoredTriple | calculate_thinness.py:97 | An incompatible triple of the ordering without the new node is still one after inserting it. |
| CalculateThinness.ExtensionTracks | calculate_thinness.py:75-81 | If the constraints graph tracks the shorter ordering, the extended graph tracks the new ordering. |
| CalculateThinness.InducedTracks | calculate_thinness.py:113 | Building on `induced_subgraph(G, ordering)` gives the same constraints as building on G. |
| CalculateThinness.ColoringConsistent | calculate_thinness.py:84-117 | A proper colouring of a tracking constraints graph gives a solution that passes `verify_solution`. |
| CalculateThinness.ThinnessForOrdering | calculate_thinness.py:88-91 | `_calculate_thinness_for_ordering` returns the colouring of the extended constraints graph and that graph. |
| CalculateThinness.NodeSet.constructor | calculate_thinness.py:128 | `set(G.nodes())` holds exactly the vertices. |
| CalculateThinness.NodeSet.Pop | calculate_thinness.py:96 | `set.pop()` removes and returns some member. |
| CalculateThinness.NodeSet.Add | calculate_thinness.py:108 | `set.add(x)` puts x back. |
| CalculateThinness.InsertionDistinct | calculate_thinness.py:97 | Inserting a new vertex anywhere in an ordering without repeats gives an ordering without repeats, holding one more vertex. |
| CalculateThinness.ThinnessForInsertion | calculate_thinness.py:97-100 | The search for one insertion leaves `remaining_nodes` unchanged and returns only a complete, repeat-free ordering that passes `verify_solution` within the bound. |
| CalculateThinness.ThinnessForSuborder | calculate_thinness.py:112-124 | `_calculate_thinness_for_suborder` leaves `remaining_nodes` unchanged; it returns only solutions with fewer classes than `upper_bound` (`thinness >= upper_bound` is discarded) that order all vertices once and pass `verify_solution`. |
| CalculateThinness.ThinnessForStrictSuborder | calculate_thinness.py:94-109 | `_calculate_thinness_for_strict_suborder` pops a node and adds it back, so `remaining_nodes` is unchanged; the best solution kept has fewer classes than `upper_bound` and is complete and consistent. |
| CalculateThinness.BacktrackingUpperBound | calculate_thinness.py:132 | `upper_bound or max(1, n - 1)`: a given non-zero bound is kept, and `None` or 0 becomes max(1, n - 1). |
| CalculateThinness.CalculateThinnessBacktracking | calculate_thinness.py:127-133 | A returned solution orders every vertex exactly once, passes `verify_solution`, and uses fewer classes than the (exclusive) upper bound. |
| ProperThinness.NoEdgeConsistent | proper_thinness.py:61 | A triple with no edge u–w is always consistent. |
| ProperThinness.IsConsistentOrderedTriple | proper_thinness.py:60-65 | `is_consistent_ordered_triple`: without edge u–w the triple is consistent; with it, u, v in one class needs v–w and v, w in one class needs u–v. ConsistentTripleCases proves the case split. |
| ProperThinness.ConsistentTripleCases | proper_thinness.py:61-65 | With edge u–w, the triple is consistent exactly when neither u, v in one class with (u, v, w) incompatible, nor v, w in one class with (w, v, u) incompatible. |
| ProperThinness.VerifyProperSolution | proper_thinness.py:68-72 | This `verify_solution` holds when `all` triples of `combinations(order, 3)` are consistent ordered triples. VerifyProperByPositions, InconsistentIsFound and FoundInconsistencyIsReal prove the `all` exact. |
| ProperThinness.VerifyProperByPositions | proper_thinness.py:68-72 | `verify_solution` holds exactly when every triple at increasing positions of the order is consistent. |
| ProperThinness.InconsistentIsFound | proper_thinness.py:69-72 | An inconsistent triple at positions i < j < k makes `all` fail. |
| ProperThinness.FoundInconsistencyIsReal | proper_thinness.py:69-72 | A failing triple of `all` is a real inconsistency. |
| ProperThinness.Reverse | proper_thinness.py:64 | The reversed order holds position i at position n-1-i. |
| ProperThinness.ProperIffBothDirections | proper_thinness.py:60-72 | A solution is proper exactly when it passes the plain verifier of calculate_thinness.py:140-145 on the order and on the reversed order. |
| ProperThinness.ProperIsThin | proper_thinness.py:61-63 | A proper solution passes the plain thinness verifier, because the first conjunct is the plain condition. |
| ProperThinness.OneClassPathNotProper | proper_thinness.py:64-65 | The path 0–2–1 with order [0, 1, 2] in one class is thin but not proper: the converse fails. |
| SplitCrown.Up2 | thinness/split_crown.py:23 | `range(start, stop, 2)`: the right number of entries, the k-th being start + 2k. |
| SplitCrown.Enumerate | thinness/split_crown.py:36-39 | `enumerate(xs, start)`: the k-th pair is (start + k, xs[k]). |
| SplitCrown.EnumerateUp2 | thinness/split_crown.py:36-39 | A pair is in the enumerated step-2 range exactly when v is in the range and p is its index plus the start. |
| SplitCrown.BuildSplitCrownGraph | thinness/split_crown.py:8-14 | The result has vertices 0..2n-1; 0..n-1 form a clique, n..2n-1 are independent, and i is adjacent to j + n exactly when i != j. |
| SplitCrown.BuiltStep | thinness/split_crown.py:12-13 | One step of the `permutations` loop adds exactly the cross edge (i, j + n) when i != j. |
| SplitCrown.CrownAtPos | thinness/split_crown.py:21-29 | Every vertex appears in `_order(n)`, at the position `CrownPos` names. |
| SplitCrown.CrownPosAt | thinness/split_crown.py:21-29 | Every position of `_order(n)` holds a vertex below 2n, and `CrownPos` gives the position back. |
| SplitCrown.Order | thinness/split_crown.py:21-29 | `_order(n)` lists the leading vertices n+1, n+3, ... then the blocks [2p, 2p+1, n+2p]; it has length 2n and lists every vertex 0..2n-1 exactly once. |
| SplitCrown.AppendBlock | thinness/split_crown.py:24-28 | One pass of the loop appends the next block of the closed-form order. |
| SplitCrown.CrownClass | thinness/split_crown.py:32-46 | The class `_partition(n)` gives a vertex is below ceil(n/2). |
| SplitCrown.CrownClassCoverage | thinness/split_crown.py:35-46 | Every vertex 0..2n-1 has a class except 2n-1 when n is odd. |
| SplitCrown.ChainExactly | thinness/split_crown.py:35-40 | The chained enumerations hold (p, v) exactly when p is v's class, except the vertex 2n-2 that line 46 adds for even n. |
| SplitCrown.AddAll | thinness/split_crown.py:42-43 | Adding every (part, vertex) pair of the chain gives each part exactly its start plus its chained vertices. |
| SplitCrown.Partition | thinness/split_crown.py:32-47 | `_partition(n)` has exactly ceil(n/2) parts; a vertex is in part p exactly when p is its class; the parts are pairwise disjoint; they cover 0..2n-1, except 2n-1 when n is odd. |
| SplitCrown.PartitionCovers | thinness/split_crown.py:35-46 | Parts given by the class function are disjoint and cover exactly the vertices that have a class. |
| SplitCrown.PartOfIsCrownClass | thinness/split_crown.py:42-46 | In the built solution `part_of(v)` is v's class. |
| SplitCrown.CrownTriple | thinness/split_crown.py:21-46 | In the order, if u < v < w with u, v in one class and u–w an edge, then v–w is an edge. |
| SplitCrown.LayoutIsConsistent | thinness/split_crown.py:17-18 | The order with that partition passes `verify_solution` on the split crown. |
| SplitCrown.ThinnessOfSplitCrownGraph | thinness/split_crown.py:17-18 | The solution has thinness ceil(n/2), its order is a permutation of the vertices, and it passes `verify_solution` on the split crown for every n >= 1 (the tests check n in 1..9). |
| KnByKnc.Down2 | src/main.py:199 | `range(start, stop, -2)`: the right number of entries, the k-th being start - 2k. |
| KnByKnc.CreateKnByKnc | src/main.py:11-19 | `create_Kn_by_Knc(n)` gives a fresh graph on 0..2n-1 where 0..n-1 is a clique, n..2n-1 is independent, and i is adjacent to n + j exactly when i != j. |
| KnByKnc.HeuristicOrder4 | src/main.py:197-202 | The fourth heuristic order is 2n-1, 2n-3, ..., n+1 followed by the blocks [i, i+1, i+n]; for even n it lists every vertex exactly once, in a layout that the split-crown consistency argument covers. |
| KnByKnc.Knc4Block | src/main.py:200-201 | One pass of the loop appends the next block of the closed form. |
| KnByKnc.Knc4IsPermutation | src/main.py:197-202 | For even n the closed form is a permutation of 0..2n-1. |
| KnByKnc.Knc4MatchesCrown | src/main.py:200-201 | After the leading vertices, the fourth heuristic order agrees with the split-crown `_order` of thinness/split_crown.py:21-29. |
| KnByKnc.Knc4PosAt | src/main.py:197-202 | For even n every position holds a vertex, and the position function gives it back. |
| KnByKnc.Knc4AtPos | src/main.py:197-202 | For even n every vertex is at the position the position function names. |
| KnByKnc.HeuristicOrder3 | src/main.py:205-211 | For even n the third heuristic order is a permutation of 0..2n-1. |
| KnByKnc.Knc3Closed | src/main.py:207-210 | The four extended ranges give the closed form of the third order, of length 2n. |
| KnByKnc.Knc3IsPermutation | src/main.py:205-211 | For even n the closed form is a permutation of 0..2n-1. |
| KnByKnc.Knc3PosAt | src/main.py:205-211 | Every position of the third order holds a vertex, and the position function gives it back. |
| KnByKnc.Knc3AtPos | src/main.py:205-211 | Every vertex is at the position the position function names. |
| KnByKnc.HeuristicOrder2 | src/main.py:214-218 | The second order is the blocks [i+n+1, i, i+1, i+n]; for even n it is a permutation of 0..2n-1. |
| KnByKnc.Knc2Block | src/main.py:216-217 | One pass of the loop appends the next block. |
| KnByKnc.Knc2IsPermutation | src/main.py:214-218 | For even n the closed form is a permutation of 0..2n-1. |
| KnByKnc.Knc2PosAt | src/main.py:214-218 | Every position holds a vertex, and the position function gives it back. |
| KnByKnc.Knc2AtPos | src/main.py:214-218 | Every vertex is at the position the position function names. |
| KnByKnc.HeuristicOrder1 | src/main.py:221-232 | For even n >= 2 the first heuristic order is a permutation of 0..2n-1. |
| KnByKnc.AppendOddPairs | src/main.py:223-226 | The loop over odd i appends i - 1 + n and i in turn. |
| KnByKnc.AppendEvenPairs | src/main.py:227-230 | The loop over the even i in reverse appends i + n + 1 and i in turn. |
| KnByKnc.Knc1IsPermutation | src/main.py:221-232 | The two loops followed by [0, n+1] give a permutation of 0..2n-1. |
| KnByKnc.Knc1AtPos | src/main.py:221-232 | Every vertex is at the position the position function names, with 0 and n+1 at the end. |
| KnByKnc.PartitionForHeuristic4 | src/main.py:183-194 | `partition_for_heuristic_4(n)` has floor(n/2) parts for even n; a vertex is in part p exactly when p is its split-crown class; the parts are disjoint and cover 0..2n-1. |
| KnByKnc.AddCliquePairs | src/main.py:188-190 | The loop puts clique vertices v and v+1 into part v/2, and nothing else. |
| KnByKnc.Heuristic4Chain | src/main.py:186-193 | The four additions put (p, v) exactly when p is v's split-crown class. |
| KnByKnc.HeuristicSolution4 | src/main.py:172-180 | For even n the fourth heuristic order with that partition is a consistent solution with ceil(n/2) classes on the graph, so the minimum partition the driver asserts on has at most that many classes. |
| DynamicProgramming.SuffixVertices | thinness/dynamic_programming.py:57-62 | `_get_suffix_vertices`: the vertices whose prefix entry is -1 (not yet placed). SuffixSplitsVertices proves they and the placed vertices split 0..n-1. |
| DynamicProgramming.SuffixSplitsVertices | thinness/dynamic_programming.py:57-62 | The suffix vertices (entry -1) and the placed vertices split 0..n-1 into two disjoint sets whose sizes add up to n. |
| DynamicProgramming.VertexSuffixNeighbors | thinness/dynamic_programming.py:51-54 | `_get_vertex_suffix_neighbors`: the closed neighbourhood of the vertex intersected with the suffix vertices. VertexSuffixNeighborsMembers states its members. |
| DynamicProgramming.VertexSuffixNeighborsMembers | thinness/dynamic_programming.py:51-54 | `_get_vertex_suffix_neighbors` holds u exactly when u is unplaced and is v or adjacent to v (closed neighbourhood). |
| DynamicProgramming.NeighborsOfPartBelowMembers | thinness/dynamic_programming.py:41-44 | After scanning the vertices below i, part p's entry holds exactly the neighbours of the vertices below i placed in p. |
| DynamicProgramming.PartSuffixNeighbors | thinness/dynamic_programming.py:39-48 | One value of `_get_part_suffix_neighbors`: the neighbours of the vertices placed in the part, intersected with the suffix vertices. PartSuffixNeighborsMembers states its members, and GetPartSuffixNeighbors proves the loop builds it for every used part. |
| DynamicProgramming.PartSuffixNeighborsMembers | thinness/dynamic_programming.py:39-48 | A part's suffix neighbours are exactly the unplaced vertices adjacent to some vertex placed in that part. |
| DynamicProgramming.UnplacedIsNoPart | thinness/dynamic_programming.py:43 | -1 is never a key of the part map: unplaced vertices belong to no part. |
| DynamicProgramming.UnusedPartHasNoNeighbors | thinness/dynamic_programming.py:22 | A part no vertex is placed in has no suffix neighbours, so `.get(part, set())` gives the true (empty) set. |
| DynamicProgramming.AddVertexNeighbors | thinness/dynamic_programming.py:42-44 | One step of the `setdefault(...).update(...)` loop keeps the map equal to the parts used so far and their neighbours. |
| DynamicProgramming.GetPartSuffixNeighbors | thinness/dynamic_programming.py:39-48 | `_get_part_suffix_neighbors` returns a map keyed by exactly the used parts, each holding that part's suffix neighbours; every other part has none. |
| DynamicProgramming.IntersectEach | thinness/dynamic_programming.py:46-47 | Every set of the map is intersected with the suffix vertices; the keys stay the same. |
| DynamicProgramming.JoinsBelowMembers | thinness/dynamic_programming.py:21-26 | Scanning parts 0..j-1 for a vertex yields exactly the prefixes with the vertex put in a part below j it can join. |
| DynamicProgramming.SuccessorsBelowMembers | thinness/dynamic_programming.py:18-26 | Scanning vertices 0..i-1 yields exactly the prefixes that place one unplaced vertex below i in a part below `upper_bound - 1` it can join. |
| DynamicProgramming.VertexJoinsMembers | thinness/dynamic_programming.py:19-26 | A vertex contributes prefixes only when unplaced, one per joinable part below `upper_bound - 1`. |
| DynamicProgramming.SuccessorsBelowComplete | thinness/dynamic_programming.py:18 | The vertex scan over the whole range gives the prefix's successors. |
| DynamicProgramming.ExtendPrefix | thinness/dynamic_programming.py:17-26 | The loop over vertices and parts for one prefix adds exactly its successors. |
| DynamicProgramming.JoinParts | thinness/dynamic_programming.py:20-26 | The loop over parts for one unplaced vertex adds exactly that vertex's joins. |
| DynamicProgramming.LookupPart | thinness/dynamic_programming.py:22 | `part_suffix_neighbors.get(part, set())` is the part's suffix neighbours whether or not the part is a key. |
| DynamicProgramming.JoinsBelowStep | thinness/dynamic_programming.py:23-26 | A part is added for the vertex exactly when the part's suffix neighbours are a subset of the vertex's. |
| DynamicProgramming.RoundMembers | thinness/dynamic_programming.py:15-27 | One round's new prefixes are exactly the successors of some current prefix. |
| DynamicProgramming.SuccessorsOfAllMembers | thinness/dynamic_programming.py:16-26 | Collecting the successors of a list of prefixes gives exactly the successors of one of them. |
| DynamicProgramming.SuccessorsOfAllIsRound | thinness/dynamic_programming.py:16-27 | Iterating the prefixes in any order gives the same round. |
| DynamicProgramming.ExtendRound | thinness/dynamic_programming.py:15-28 | The body of the outer loop replaces the prefixes with exactly the next round. |
| DynamicProgramming.Initial | thinness/dynamic_programming.py:11 | The starting prefix has one entry per vertex and places none. |
| DynamicProgramming.PlaceOne | thinness/dynamic_programming.py:24-25 | Putting an unplaced vertex into a part places exactly one more vertex. |
| DynamicProgramming.SuccessorWellFormed | thinness/dynamic_programming.py:19-26 | A successor of a prefix with k placed vertices has k + 1, all in parts below `upper_bound - 1`. |
| DynamicProgramming.RoundWellFormed | thinness/dynamic_programming.py:15-27 | A round takes prefixes with k placed vertices to prefixes with k + 1. |
| DynamicProgramming.RoundsWellFormed | thinness/dynamic_programming.py:11-28 | After k rounds every prefix has n entries, exactly k placed vertices, each in a part below `upper_bound - 1`. |
| DynamicProgramming.RoundsLength | thinness/dynamic_programming.py:11-28 | Every prefix of every round has one entry per vertex. |
| DynamicProgramming.EmptyStaysEmpty | thinness/dynamic_programming.py:14 | Once no prefix survives none ever will, so leaving the loop early on `len(valid_prefixes) == 0` gives the same answer as running all n rounds. |
| DynamicProgramming.NoPartsNoSurvivors | thinness/dynamic_programming.py:21 | With `upper_bound <= 1` no part is available and no prefix survives a round of a non-empty graph. |
| DynamicProgramming.MaxOf | thinness/dynamic_programming.py:34 | `max(prefix)` is an entry of the prefix and at least every entry. |
| DynamicProgramming.Cap | thinness/dynamic_programming.py:6-9 | The exclusive bound is at most max(pathwidth, 1), at most the given bound, and at most the order when none is given. |
| DynamicProgramming.LeastClasses | thinness/dynamic_programming.py:33-36 | The result is max(prefix) + 1 for some surviving prefix and at most that for every one. |
| DynamicProgramming.NextRound | thinness/dynamic_programming.py:15-28 | One pass of the outer loop takes round k to round k + 1, including when no prefix is left. |
| DynamicProgramming.RunRounds | thinness/dynamic_programming.py:11-28 | The outer loop ends with the prefixes of round n. |
| DynamicProgramming.CalculateThinnessWithDynamicProgramming | thinness/dynamic_programming.py:4-36 | Fails (the `max` of an empty tuple) exactly on the empty graph; otherwise returns at most the capped bound, the bound itself when no full prefix survives, and else the least max(prefix) + 1 over the survivors. |
| DynamicProgramming.SurvivorsBelowBound | thinness/dynamic_programming.py:30-36 | Every surviving full prefix uses fewer than `upper_bound` parts, so the minimum never exceeds the bound. |
| DynamicProgramming.PathwidthAtMostOneGivesOne | tests/test_dynamic_programming.py:16-23 | On a non-empty graph of pathwidth at most 1 the bound is 1 and no prefix survives, so the answer is 1. |
| DynamicProgramming.CompleteFilledSurvives | thinness/dynamic_programming.py:14-28 | On a complete graph with part 0 available, putting the vertices one by one into part 0 survives every round. |
| DynamicProgramming.CompleteGivesOne | tests/test_dynamic_programming.py:25-26 | On a complete graph with at least two vertices and pathwidth at least two (K3), with no bound given, some full prefix survives and the least `max(prefix) + 1` over the survivors is 1, so the result is 1. |
| Reduce.CommonNeighbors | thinness/reduce.py:8 | One entry of `common_neighbors_matrix(nonedgesonly=False)`: the number of common neighbours of u and v. CommonMatrix proves the matrix symmetric. |
| Reduce.CommonMatrix | thinness/reduce.py:8 | The common-neighbour matrix is symmetric. |
| Reduce.RemoveSameClosedNeighborhoodVertices | thinness/reduce.py:15-20 | Given Sage's edge list (each edge once): the result is an induced subgraph; every deleted vertex has a neighbour that is its closed twin by the degree/common-neighbour test; of every listed edge whose ends pass the test, at least one end is gone; so no edge of the input joins two kept vertices that pass the test. |
| Reduce.ClosedStep | thinness/reduce.py:17-19 | One pass of the edge loop keeps the pass's progress: every deleted vertex still has an adjacent closed twin, and every twin edge handled so far has lost an end. |
| Reduce.NoKeptTwinEdge | thinness/reduce.py:17-19 | Once every listed twin edge has lost an end, no edge of the graph joins two kept closed twins, because each edge is listed once in some orientation. |
| Reduce.SettledShrinks | thinness/reduce.py:28-31 | Deleting more vertices keeps a settled pair settled. |
| Reduce.DeleteThirds | thinness/reduce.py:29-31 | The scan over w deletes exactly the kept vertices that are a third open twin of u and v, and keeps the subgraph induced. |
| Reduce.HandlePair | thinness/reduce.py:27-31 | Handling one pair only deletes vertices, each justified as a third open twin, and leaves the pair settled. |
| Reduce.RowsSettledShrink | thinness/reduce.py:27-31 | Deleting more vertices keeps the rows handled so far settled. |
| Reduce.HandleRow | thinness/reduce.py:25-31 | Handling the pairs (u, v) of one row of `combinations` settles all of them and only deletes justified vertices. |
| Reduce.NoSurvivingTriple | thinness/reduce.py:25-27 | Once every row is handled, every pair u < v of the graph is settled. |
| Reduce.RowsSettledNext | thinness/reduce.py:25-31 | A handled row extends the settled rows by one. |
| Reduce.NoSurvivingTriples | thinness/reduce.py:23-32 | No three kept vertices are pairwise open twins with u < v among them: the pass leaves no pair with a kept third twin. |
| Reduce.RemoveSameOpenNeighborhoodVertices | thinness/reduce.py:23-32 | The result is an induced subgraph, every deletion is a third open twin of a pair, and no kept open-twin pair u < v keeps a third kept twin. |
| Reduce.Relabel | thinness/reduce.py:11 | `relabel()` numbers the vertices 0..n-1. |
| Reduce.RelabelEdges | thinness/reduce.py:11 | i and j are adjacent after relabelling exactly when the i-th and j-th smallest vertices were adjacent before. |
| Reduce.RelabelValid | thinness/reduce.py:11 | Relabelling keeps the graph simple. |
| Reduce.ReduceGraph | thinness/reduce.py:6-12 | `reduce_graph` returns a simple graph on 0..m-1, m at most the order, that is the relabelling of the subgraph induced by the kept vertices; every vertex the first pass deleted has an adjacent closed twin and no kept edge joins closed twins; every vertex the second pass deleted is a third open twin of a pair, and no kept open-twin pair keeps a third twin. |
| Flow.AddArc | thinness/order.py:35-36 | `add_edge(u, v, label)` adds both ends and sets the arc's label, keeping every arc between nodes of the network. |
| Flow.TotalRemove | thinness/order.py:50-51 | A sum of labels over a set of arcs splits off any one arc. |
| Flow.TotalAdd | thinness/order.py:50-51 | Sums of labels are additive in the labels. |
| Flow.TotalMono | thinness/order.py:50-51 | Sums of labels are monotone in the labels. |
| Flow.SumIncident | thinness/order.py:50-51 | The generator sum over the arcs entering (or leaving) a node is the total the node carries that way. |
| Flow.KeepsFlow | thinness/order.py:47-53 | What `_keeps_flow` tests: every node other than the two terminals carries as much in as out. CheckKeepsFlow proves the loop decides it. |
| Flow.CheckKeepsFlow | thinness/order.py:47-53 | `_keeps_flow` is true exactly when every node other than the terminals carries as much in as out. |
| Flow.IsValidFlow | thinness/order.py:40-44 | What `_is_valid_flow` tests: every arc carries at least its label in the network, and the flow is kept. CheckValidFlow proves the loop decides it. |
| Flow.CheckValidFlow | thinness/order.py:40-44 | `_is_valid_flow` is true exactly when every arc carries at least its lower bound and the flow is kept. |
| Flow.ZeroKeepsFlow | thinness/order.py:97-99 | The all-zero flow is kept at every node. |
| Flow.Augment | thinness/order.py:102-103 | Adding one unit along each step of the walk raises each arc by the number of times the walk crosses it and changes nothing else. |
| Flow.CrossTotals | thinness/order.py:102-103 | The units a walk adds into (out of) a node equal the times the node occurs after the first (before the last) position. |
| Flow.CrossStep | thinness/order.py:102-103 | Extending a walk by one step adds one unit at the node that step enters or leaves. |
| Flow.AugmentKeepsFlow | thinness/order.py:101-104 | Adding a unit along a walk from the source terminal to the sink terminal keeps the flow kept at every inner node. |
| Flow.Shortfalls | thinness/order.py:128 | The missing units of each arc are never negative and positive exactly on the arcs still below their lower bound. |
| Flow.DeficitDrops | thinness/order.py:101-104 | Raising a short arc, and lowering none, lowers the total units missing: the augmenting loop terminates. |
| Flow.CrossingsOfStep | thinness/order.py:102 | Every step of a walk is crossed at least once. |
| Flow.Successors | thinness/order.py:127 | `neighbors_out(x)` is exactly the heads of the arcs leaving x. |
| Flow.SearchZeroEdgePathRec | thinness/order.py:125-135 | The depth-first search either returns a backwards walk ending at x whose first arc is short, or every node it visited is closed (no short arc leaves it and all its arcs lead to visited nodes). |
| Flow.SearchZeroEdgePath | thinness/order.py:118-122 | The search from the source either returns a walk from the source with a short step, or the source lies in a closed set. |
| Flow.Reverse | thinness/order.py:121 | `list.reverse()` puts entry i at position n-1-i. |
| Flow.SearchMagnifyingPath | thinness/order.py:108-115 | A found walk is carried on to the sink terminal; the result is a source–sink walk with a short step, or `None` when the source is stuck, or `StopIteration` from `next()` on a node with no arc out. |
| Flow.ExtendWalk | thinness/order.py:113-114 | Appending an arc's head to a walk keeps it a walk from the same start and keeps its short step. |
| Flow.ZeroFlow | thinness/order.py:97-99 | The copy with every label set to zero is a flow of the network carrying nothing. |
| Flow.BuildFeasibleFlow | thinness/order.py:96-105 | `_build_feasible_flow` returns a kept, non-negative flow from which no short arc is reachable from the source, or fails with `StopIteration`. |
| Flow.AugmentRound | thinness/order.py:101-104 | One augmentation keeps the flow kept and non-negative and strictly lowers the units missing. |
| Flow.RankedNoAntiparallel | thinness/order.py:34-36 | A ranked network has no pair of opposite arcs, so the two `add_edge` calls of the residual never overwrite each other. |
| Flow.MakeResidualNetwork | thinness/order.py:32-37 | Each arc u→v of the flow gives u→v labelled capacity minus its units and v→u labelled its units minus the lower bound; the residual has exactly these arcs. |
| Flow.ResidualArcsStep | thinness/order.py:34-36 | One arc of the loop adds the arc and its reverse to the residual. |
| Flow.ResidualLabelsStep | thinness/order.py:34-36 | One arc of the loop sets both residual labels and keeps the labels already set. |
| Order.Complement | thinness/order.py:15 | `complement()` has the same vertices and joins two distinct vertices exactly when the graph does not. |
| Order.Row | thinness/order.py:76 | The listed pairs starting at u are exactly the kept pairs (u, w) with w in the list. |
| Order.PairList | thinness/order.py:76 | The listed pairs are exactly the kept pairs of listed vertices. |
| Order.EdgeList | thinness/order.py:76 | `graph.edges(labels=False)` lists exactly the edges of the graph. |
| Order.OrientAllMembers | thinness/order.py:76-80 | The orientation holds (a, b) exactly when some listed edge is oriented as a→b. |
| Order.EndsMembers | thinness/order.py:78-80 | The ends added by `add_edge` are exactly the vertices of some listed edge. |
| Order.BuildTransitiveOrientation | thinness/order.py:74-81 | The orientation has the vertices 0..n-1 and every end of an edge, and an arc a→b exactly when a and b are adjacent and a comes first in the order. |
| Order.OrientEdges | thinness/order.py:75-80 | The loop builds the digraph on 0..n-1 plus the edge ends, with each listed edge oriented along the order. |
| Order.OrientStep | thinness/order.py:77-80 | One edge adds its two ends and its one oriented arc. |
| Order.EndsAreCovered | thinness/order.py:76-80 | The ends of the listed edges are exactly the vertices of the graph that lie on an edge. |
| Order.OrientAllOfEdges | thinness/order.py:76-80 | Orienting all edges gives a→b exactly for adjacent a, b with a first in the order. |
| Order.OrientedArc | thinness/order.py:77-80 | Each oriented edge points from its earlier end to its later one. |
| Order.FreshVertex | thinness/order.py:85 | `add_vertex()` returns the least integer not yet a vertex. |
| Order.FreshLeast | thinness/order.py:85 | The least missing integer has every smaller integer present. |
| Order.FreshExists | thinness/order.py:85 | Among 0..n some integer is not one of the n vertices. |
| Order.Digraph.Sources | thinness/order.py:86 | Sage's `sources()`: the vertices no arc enters. AddSource proves the new source is joined to exactly these. |
| Order.AddSource | thinness/order.py:84-87 | `_add_source` adds a fresh vertex with an arc to every vertex no arc entered, and keeps every old arc. |
| Order.Digraph.Sinks | thinness/order.py:92 | Sage's `sinks()`: the vertices no arc leaves. AddSink proves the new sink is joined from exactly these. |
| Order.AddSink | thinness/order.py:90-93 | `_add_sink` adds a fresh vertex with an arc from every vertex no arc left, and keeps every old arc. |
| Order.BuildMinEdgeFlowNetwork | thinness/order.py:56-71 | The network holds the terminals, the split in/out nodes with their lower-bound-1 arcs, and the image of each orientation arc with lower bound 0. |
| Order.PartialStep | thinness/order.py:64-70 | One orientation arc adds its image with label 0. |
| Order.ImagesStep | thinness/order.py:64-70 | The images of one more arc are the old images plus its image, and so are their ends. |
| Order.SplitVertices | thinness/order.py:57-63 | The first loop gives exactly the terminals and the in/out nodes of the inner vertices, joined in→out, each arc labelled with its lower bound. |
| Order.SplitStep | thinness/order.py:61-63 | Splitting one more vertex adds its two nodes and its one arc. |
| Order.NetworkRanked | thinness/order.py:56-71 | A ranking of the orientation carries over to a ranking of its network: every arc goes down in rank, so the network has no cycle. |
| Order.NetworkEmbeds | thinness/order.py:56-71 | The network has the in→out arc of every inner vertex and of no other vertex, and the image of every orientation arc; each arc is labelled with its lower bound. |
| Order.InNodeClosed | thinness/order.py:84-87 | In a rooted orientation a closed set holding the source holds the in-node of every inner vertex. |
| Order.StuckIsValid | thinness/order.py:25 | When the augmenting loop stops on a rooted orientation the flow meets every lower bound, so the `assert` of `min_flow` holds. |
| Order.MinFlow | thinness/order.py:21-29 | `min_flow` builds the network of the orientation and returns the feasible value minus Sage's maximum flow on the residual; it fails only with `StopIteration`, or `AssertionError` on an orientation that is not rooted. |
| Order.FlowOnNetwork | thinness/order.py:24-29 | Once the network is built the result is the feasible flow's value minus the maximum flow of its residual network, the flow being valid. |
| Order.ArcEndsAreVertices | thinness/order.py:74-81 | The orientation only joins vertices it has, both of them in the order. |
| Order.OrientedArcRanked | thinness/order.py:74-81 | Every arc of the orientation goes down in the order's rank. |
| Order.PreparedRanked | thinness/order.py:15-17 | After adding the source and the sink they differ and every arc goes down in rank. |
| Order.PreparedRooted | thinness/order.py:15-17 | After adding the source and the sink every inner vertex is reachable from the source, so the augmenting loop meets every lower bound. |
| Order.ThinnessFromCompatibilityGraph | thinness/order.py:14-18 | Fails with `ValueError` exactly when an edge of the complement has an end outside the order, otherwise only with `StopIteration`; a success is the minimum-flow value of the oriented complement with source and sink added. |
| Order.ThinnessOfOrder | thinness/order.py:8-11 | When the order holds every vertex only `StopIteration` can fail it; a success is the minimum-flow value on the complement of the compatibility graph. |
| K2Cycles.FindAVertex | thinness/k2_cycles.py:46-49 | Following first children down to a leaf fails only with `IndexError` (a node with no children). |
| K2Cycles.GetVertices | thinness/k2_cycles.py:59-62 | `get_vertices`: a leaf's own vertex list, or the children's lists chained left to right. FindAVertexIsFirst, CompleteVertices and ChainMembers state what it holds. |
| K2Cycles.FindAVertexIsFirst | thinness/k2_cycles.py:46-49 | The vertex found is the first vertex `get_vertices` lists for the node. |
| K2Cycles.IsComplete | thinness/k2_cycles.py:52-56 | `is_complete`: a leaf, or a series node whose children are all leaves. |
| K2Cycles.CompleteVertices | thinness/k2_cycles.py:52-62 | The vertices of a complete series node are exactly those of its leaf children. |
| K2Cycles.ChainMembers | thinness/k2_cycles.py:62 | `chain.from_iterable` of the children's vertex lists holds exactly the vertices of some child. |
| K2Cycles.Expand | thinness/k2_cycles.py:75-78 | Every partition yielded from the smaller ones is a variant of one of them. |
| K2Cycles.Variants | thinness/k2_cycles.py:76-78 | For a smaller partition, the first element joins each block in turn, then stands alone as a new first block. |
| K2Cycles.Partitions | thinness/k2_cycles.py:70-78 | `partitions`: one element gives one singleton block; otherwise the first element is added to every partition of the rest in each way Expand lists. PartitionsSound proves each result is a partition. |
| K2Cycles.PartitionsSound | thinness/k2_cycles.py:70-78 | Every list `partitions` yields for a list of distinct elements is a partition of them into non-empty disjoint blocks. |
| K2Cycles.VariantsSound | thinness/k2_cycles.py:76-78 | Adding a new element to a partition in either way gives a partition of the larger set. |
| K2Cycles.AloneSound | thinness/k2_cycles.py:78 | The new element as a block of its own gives a partition of the larger set. |
| K2Cycles.JoinedSound | thinness/k2_cycles.py:77 | The new element joined to block n gives a partition of the larger set. |
| K2Cycles.MaxOver | thinness/k2_cycles.py:106 | `max(thinnesses[vertex] for vertex in part)` is the thinness of some member and at least that of every member. |
| K2Cycles.MaxOverExists | thinness/k2_cycles.py:106 | A non-empty part has a largest thinness. |
| K2Cycles.SolutionValue | thinness/k2_cycles.py:104-108 | `modular_solution_value`: the sum over the parts of the largest child thinness in the part. ValueAtLeastMember and ValueAtLeastParts give its lower bounds. |
| K2Cycles.ValueAtLeastMember | thinness/k2_cycles.py:104-108 | A solution's value is at least the thinness of every vertex in any of its parts. |
| K2Cycles.ValueAtLeastParts | thinness/k2_cycles.py:104-108 | With every thinness at least 1 the value is at least the number of parts. |
| K2Cycles.ModularCompat.Undirected | thinness/k2_cycles.py:101 | `to_undirected()` joins u and v exactly when there is an arc either way. |
| K2Cycles.Representatives | thinness/k2_cycles.py:32 | The list of representatives succeeds exactly when every child has one, lists child i's at position i, and otherwise fails with `IndexError`. |
| K2Cycles.BuildModularCompatibilityGraph | thinness/k2_cycles.py:29-43 | Fails with `IndexError` exactly when some child has no vertex; otherwise arc i→j exactly when the representatives differ and are adjacent and child i is not complete or child j is, and a different-colour pair exactly when neither is complete. |
| K2Cycles.DifferentColorIsArc | thinness/k2_cycles.py:39-42 | A different-colour pair has arcs both ways and is symmetric. |
| K2Cycles.OneWayArcs | thinness/k2_cycles.py:35-40 | Adjacent children get an arc at least one way, and only one way exactly when the tail is not complete and the head is. |
| K2Cycles.VerifyModularSolution | thinness/k2_cycles.py:92-101 | `verify_modular_solution`: no two children of one class in order form a forbidden pair, and the solution is consistent for the undirected graph. VerifyModularByPositions restates it over positions. |
| K2Cycles.VerifyModularByPositions | thinness/k2_cycles.py:92-101 | `verify_modular_solution` accepts exactly when no two children in one class in order form a different-colour pair or a one-way arc against the order, and the solution is consistent on the undirected graph. |
| K2Cycles.PartitionsMeasurable | thinness/k2_cycles.py:84-86 | Every partition of the children's indices can be valued. |
| K2Cycles.FindBestSolution | thinness/k2_cycles.py:81-89 | Fails with `IndexError` exactly with no children or more children than thinnesses; otherwise the result is at most the sum of the thinnesses, at most the value of every accepted order and partition, and either the sum or the value of one of them. |
| K2Cycles.BestOverOrders | thinness/k2_cycles.py:83-88 | The loop over orders returns a bound no larger than its start and than every accepted candidate, and equal to the start or to an accepted candidate's value. |
| K2Cycles.BestWithOrder | thinness/k2_cycles.py:84-88 | The loop over partitions for one order keeps the least accepted value below the running best. |
| K2Cycles.WrapPair | thinness/k2_cycles.py:143-146 | `(i+2) % vertices` and `(i+3) % vertices` are the two vertices of the next pair round the cycle. |
| K2Cycles.WrapIsMod | thinness/k2_cycles.py:120 | Below twice the modulus, `%` subtracts it at most once. |
| K2Cycles.ModUnique | thinness/k2_cycles.py:120 | The remainder is the unique r in range with x = n*q + r. |
| K2Cycles.AddEdges | thinness/k2_cycles.py:142-147 | `add_edges` succeeds exactly when no listed edge is a loop (a simple Sage graph refuses loops), adds exactly the listed edges and keeps the vertices. |
| K2Cycles.K2Cycle | thinness/k2_cycles.py:138-148 | `K2_cycle(size)` fails with `ValueError` exactly for size 1 (a loop); otherwise it is the simple graph on 0..2·size-1 joining each pair to the pairs next to it round the cycle. |
| K2Cycles.JoinPair | thinness/k2_cycles.py:141-147 | One round joins pair i/2 to the next pair, failing only for size 1. |
| K2Cycles.PairEdgesStep | thinness/k2_cycles.py:142-147 | The four edges of one round extend the pairs joined so far by one. |
| K2Cycles.PairStep | thinness/k2_cycles.py:142-147 | Joining pair b adds exactly the edges between pair b and the next pair. |
| K2Cycles.PairsAreTwins | thinness/k2_cycles.py:138-148 | The two vertices of a pair are not adjacent and have the same neighbours. |
| K2Cycles.CycleNeighbours | thinness/k2_cycles.py:138-148 | Each vertex of a pair is adjacent to both vertices of the next pair. |
| K2Cycles.StartNext | thinness/k2_cycles.py:117 | The first vertex of copy c+1 is m past that of copy c. |
| K2Cycles.StartMono | thinness/k2_cycles.py:117 | Later copies start later. |
| K2Cycles.CopyUnique | thinness/k2_cycles.py:114-115 | Every vertex lies in at most one copy. |
| K2Cycles.UnionAdjacency | thinness/k2_cycles.py:115 | `disjoint_union(module, labels='integers')` keeps the old edges and adds the module's shifted past the old vertices. |
| K2Cycles.Copies | thinness/k2_cycles.py:112-115 | The first loop gives the graph on size·m vertices whose edges are exactly the module's edges inside each copy. |
| K2Cycles.CopyStep | thinness/k2_cycles.py:115 | One more disjoint union adds exactly one more copy. |
| K2Cycles.JoinCopies | thinness/k2_cycles.py:118-120 | The double loop joins every vertex of one copy to every vertex of the other, failing only when the copies coincide and are not empty. |
| K2Cycles.ModularPath | thinness/k2_cycles.py:125-135 | `modular_path(module, size)` is the graph on size·m vertices made of the copies, with each copy joined completely to the next. |
| K2Cycles.PathDone | thinness/k2_cycles.py:129 | After the last round the bridges joined are exactly those of the path. |
| K2Cycles.PathRound | thinness/k2_cycles.py:129-133 | Round i adds exactly the complete join of copy i and copy i+1. |
| K2Cycles.NextCopy | thinness/k2_cycles.py:120 | The next copy round the cycle lies within the graph, is the copy itself only for size 1, and otherwise does not overlap it. |
| K2Cycles.CycleEdgeTarget | thinness/k2_cycles.py:120 | `(right_index + first_vertex + m) % vertices` is vertex right_index of the next copy round the cycle. |
| K2Cycles.ModularCycle | thinness/k2_cycles.py:111-122 | `modular_cycle(module, size)` fails with `ValueError` exactly for size 1 and a non-empty module; otherwise it is the graph on size·m vertices made of the copies, with each copy joined completely to the next round the cycle. |
| K2Cycles.CycleRound | thinness/k2_cycles.py:116-120 | Round i adds exactly the complete join of copy i to the next copy, failing only for size 1 and a non-empty module. |
| ImplicationsDigraph.MutableDigraph.constructor | thinness/implications_digraph.py:14 | `DiGraph()` starts with no vertices and no arcs. |
| ImplicationsDigraph.MutableDigraph.AddVertices | thinness/implications_digraph.py:15 | `add_vertices` adds exactly the given vertices and no arc. |
| ImplicationsDigraph.MutableDigraph.AddArc | thinness/implications_digraph.py:26 | `add_edge(a, b)` adds both ends and exactly the arc a→b. |
| ImplicationsDigraph.ColorsOfMeaning | thinness/implications_digraph.py:104-109 | A vertex gets a colour exactly when some part holds it, and its colour is the last part holding it (later parts overwrite earlier ones). |
| ImplicationsDigraph.PartitionToColors | thinness/implications_digraph.py:104-109 | The double loop of `partition_to_colors` builds exactly that colour map. |
| ImplicationsDigraph.OverwriteStep | thinness/implications_digraph.py:108 | Writing one more vertex of part i extends the painted part by that vertex. |
| ImplicationsDigraph.ColorsOfPrefix | thinness/implications_digraph.py:106-108 | Handling part i overrides the colours so far with colour i on every vertex of the part. |
| ImplicationsDigraph.DisjointColors | thinness/implications_digraph.py:104-109 | For disjoint parts every vertex of part i gets colour i. |
| ImplicationsDigraph.DistinctPairs | thinness/implications_digraph.py:15 | `permutations(graph.vertices(), 2)` holds exactly the ordered pairs of distinct vertices. |
| ImplicationsDigraph.GrewStep | thinness/implications_digraph.py:26 | Adding an arc between two pairs only grows the digraph with pairs of vertices. |
| ImplicationsDigraph.GrewTransitive | thinness/implications_digraph.py:16-17 | Growth within the pairs composes across the two passes. |
| ImplicationsDigraph.OneArcsStep | thinness/implications_digraph.py:24-26 | Neighbour w of u adds (u,v)→(w,v) exactly when w is not v and not adjacent to v. |
| ImplicationsDigraph.OneArcsAll | thinness/implications_digraph.py:24 | Non-neighbours of u give no type-one arc, so the neighbour loop covers every w. |
| ImplicationsDigraph.OnePairsStep | thinness/implications_digraph.py:22-26 | Handling one pair extends the pairs whose type-one arcs are all present. |
| ImplicationsDigraph.TwoArcsStep | thinness/implications_digraph.py:32-34 | Neighbour w of v adds (u,v)→(u,w) exactly when u and w have the same colour. |
| ImplicationsDigraph.TwoArcsAll | thinness/implications_digraph.py:32 | Non-neighbours of v give no type-two arc, so the neighbour loop covers every w. |
| ImplicationsDigraph.TwoPairsStep | thinness/implications_digraph.py:30-34 | Handling one pair extends the pairs whose type-two arcs are all present. |
| ImplicationsDigraph.AddTypeOneFor | thinness/implications_digraph.py:24-26 | The inner loop for one same-coloured pair adds exactly its type-one arcs. |
| ImplicationsDigraph.TwoArcStep | thinness/implications_digraph.py:33-34 | The colour lookup succeeds exactly when u and w are coloured, and then the step adds exactly the type-two arc if any. |
| ImplicationsDigraph.TwoArcsLoop | thinness/implications_digraph.py:32-34 | The inner loop raises `KeyError` exactly when u or a neighbour of v is uncoloured; otherwise it covers every neighbour. |
| ImplicationsDigraph.TwoArcsSound | thinness/implications_digraph.py:32-34 | Every arc the inner loop adds is a type-two arc. |
| ImplicationsDigraph.TwoKeysOfPair | thinness/implications_digraph.py:31-33 | A pair needs colours only when it is not an edge, and then for u and every neighbour of v. |
| ImplicationsDigraph.TwoArcsNone | thinness/implications_digraph.py:31 | An adjacent pair adds no type-two arc. |
| ImplicationsDigraph.AddTypeTwoFor | thinness/implications_digraph.py:31-34 | Handling one pair succeeds exactly when its colour lookups do, and then adds exactly its type-two arcs. |
| ImplicationsDigraph.OneKeysMono | thinness/implications_digraph.py:23 | Colour lookups that succeed on all pairs succeed on fewer. |
| ImplicationsDigraph.OnePairsAll | thinness/implications_digraph.py:21-26 | After every pair, the arcs are exactly the old ones plus all type-one arcs. |
| ImplicationsDigraph.OnePairsSound | thinness/implications_digraph.py:21-26 | Every arc added is a type-one arc. |
| ImplicationsDigraph.OnePairStep | thinness/implications_digraph.py:23-26 | The colour lookup of a pair succeeds exactly when both ends are coloured, and then its type-one arcs are added. |
| ImplicationsDigraph.AddTypeOneImplications | thinness/implications_digraph.py:21-26 | Succeeds exactly when every vertex of a distinct pair is coloured, and then adds exactly the arcs (u,v)→(w,v) with colours[u] = colours[v], w adjacent to u, w ≠ v and w not adjacent to v; on `KeyError` every arc added is still one of them. |
| ImplicationsDigraph.TwoKeysMono | thinness/implications_digraph.py:33 | Colour lookups that succeed on all pairs succeed on fewer. |
| ImplicationsDigraph.TwoKeysUnion | thinness/implications_digraph.py:33 | Colour lookups that succeed on two sets of pairs succeed on their union. |
| ImplicationsDigraph.TwoPairsAll | thinness/implications_digraph.py:29-34 | After every pair, the arcs are exactly the old ones plus all type-two arcs. |
| ImplicationsDigraph.TwoPairsSound | thinness/implications_digraph.py:29-34 | Every arc added after a middle state is a type-two arc or was there before. |
| ImplicationsDigraph.TwoPairStep | thinness/implications_digraph.py:31-34 | Handling one pair succeeds exactly when its lookups do and keeps every added arc a type-two arc. |
| ImplicationsDigraph.AddTypeTwoImplications | thinness/implications_digraph.py:29-34 | Succeeds exactly when the needed colours exist, and then adds exactly the arcs (u,v)→(u,w) with u, v non-adjacent, w adjacent to v and colours[u] = colours[w]. |
| ImplicationsDigraph.GetImplicationsDigraph | thinness/implications_digraph.py:13-18 | Fails with `KeyError` exactly when a needed colour is missing; otherwise the vertices are exactly the ordered pairs of distinct vertices and the arcs exactly the type-one and type-two arcs. |
| ImplicationsDigraph.PartitionColorsAllVertices | thinness/implications_digraph.py:104-109 | When the parts cover every vertex the colour map of `partition_to_colors` makes every lookup succeed. |
| ImplicationsDigraph.HasSelfCoupledComponents | thinness/implications_digraph.py:42-47 | `has_self_coupled_components`: some strongly connected component holds a pair and its reverse. SelfCoupledIffMutualReach proves that this is mutual reachability of the two pairs. |
| ImplicationsDigraph.SelfCoupledIffMutualReach | thinness/implications_digraph.py:42-47 | `has_self_coupled_components` holds exactly when some pair (u,v) and its reverse reach each other in the digraph. |
| ImplicationsDigraph.HasConsistentOrdering | thinness/implications_digraph.py:112-117 | `has_consistent_ordering`: some permutation of the vertices passes `verify_solution` with the partition. HasConsistentOrderingIff proves the search over permutations exact. |
| ImplicationsDigraph.HasConsistentOrderingIff | thinness/implications_digraph.py:112-117 | `has_consistent_ordering` holds exactly when some rearrangement of the vertices is a consistent order for the partition. |
| ImplicationsDigraph.SameColorSameClass | thinness/implications_digraph.py:104-109 | For disjoint parts, equal colours mean the same class. |
| ImplicationsDigraph.NoViolationAt | thinness/verify.py:7-11 | A consistent order has no violating triple at any three increasing positions. |
| ImplicationsDigraph.TypeOnePreserves | thinness/implications_digraph.py:21-26 | If a consistent order puts u before v, every type-one arc out of (u,v) leads to a pair it also satisfies. |
| ImplicationsDigraph.TypeTwoPreserves | thinness/implications_digraph.py:29-34 | If a consistent order puts u before v, every type-two arc out of (u,v) leads to a pair it also satisfies. |
| ImplicationsDigraph.PathPreserves | thinness/implications_digraph.py:13-18 | A consistent order satisfying the first pair of a path satisfies the last. |
| ImplicationsDigraph.ReachPreserves | thinness/implications_digraph.py:13-18 | Reachability carries satisfaction by a consistent order. |
| ImplicationsDigraph.PermutationListsVertices | thinness/implications_digraph.py:113 | Every permutation of the vertices lists every vertex. |
| ImplicationsDigraph.ConsistentOrderingHasNoSelfCoupling | thinness/implications_digraph.py:37-39 | If `has_consistent_ordering` holds for a partition then its implication digraph has no self-coupled component, so `is_consistent_1` is true. |
| ImplicationsDigraph.NoMutualReach | thinness/implications_digraph.py:42-47 | Under a consistent order no pair and its reverse reach each other. |
| Z3Backtracking.ContainsAsWritten | thinness/z3_backtracking.py:29-30 | `contains` as written: the label string tested for membership in the bucket's set of records. ContainsAsWrittenNeverHits proves it is never true. |
| Z3Backtracking.ContainsAsWrittenNeverHits | thinness/z3_backtracking.py:29-30 | As written, `contains` compares a label string with `SolvedGraph` records, so it is false even right after `add` stored a record with that label. |
| Z3Backtracking.HasLabelAfterAdd | thinness/z3_backtracking.py:26-30 | Compared by label, a record just added is found, and adding never loses a label. |
| Z3Backtracking.SolvedGraphs.constructor | thinness/z3_backtracking.py:23-24 | `SolvedGraphs(n)` starts with n+1 empty buckets. |
| Z3Backtracking.SolvedGraphs.Add | thinness/z3_backtracking.py:26-27 | `add` puts the record into the bucket for its vertex count and changes no other bucket; an index past the list raises. |
| Z3Backtracking.SolvedGraphs.Contains | thinness/z3_backtracking.py:29-30 | `contains`, comparing by label: true exactly when the bucket for the vertex count holds a record with that label; an index past the list raises. |
| Z3Backtracking.AddEdgesFrom | thinness/z3_backtracking.py:40 | `add_edges` from the new vertex adds the listed vertices and exactly the edges from the new vertex to them. |
| Z3Backtracking.AddEdgesAdjacent | thinness/z3_backtracking.py:40 | The new vertex is adjacent to every listed vertex. |
| Z3Backtracking.AddEdgesValid | thinness/z3_backtracking.py:40 | Joining a vertex not in its own list keeps the graph simple. |
| Z3Backtracking.PushPopRestores | thinness/z3_backtracking.py:38-45 | Pushing a fresh vertex joined to existing vertices and then deleting it gives back the graph before the push. |
| Z3Backtracking.ExtendableGraph.constructor | thinness/z3_backtracking.py:34-36 | The extendable graph starts empty with an empty stack. |
| Z3Backtracking.ExtendableGraph.PushVertex | thinness/z3_backtracking.py:38-41 | `push_vertex` adds the vertex and the edges to every listed vertex, and pushes the vertex on the stack. |
| Z3Backtracking.ExtendableGraph.PopVertex | thinness/z3_backtracking.py:43-45 | `pop_vertex` pops the stack and deletes the vertex it held; it fails on an empty stack or a vertex no longer in the graph. |
| Z3Backtracking.SolveCounter.constructor | thinness/z3_backtracking.py:12 | The global counter starts at 0. |
| Z3Backtracking.SubsetOfRange | thinness/z3_backtracking.py:117 | Every adjacency list of `subsets(range(k))` holds only vertices below k. |
| Z3Backtracking.PushLayered | thinness/z3_backtracking.py:118-119 | The new vertex `current_vertices` is not yet in the graph, and pushing it keeps the vertices exactly 0..k. |
| Z3Backtracking.BacktrackGraphs | thinness/z3_backtracking.py:101-123 | On return the graph and its stack are as on entry (each push is matched by a pop), no bucket loses a record, and unless the counter was at 100 the current graph's label is recorded in the bucket of its size. |
| Z3Backtracking.ProcessGraph | thinness/z3_backtracking.py:126-131 | A connected graph is counted and solved; any other gives `None` and leaves the counter alone. |
| Z3Backtracking.SolveGraphs | thinness/z3_backtracking.py:93-98 | The empty graph's label is always recorded, and for n = 0 the bucket returned is that bucket. |
| SolutionsOf5x5.VertexByCoordinates | thinness/solutions_of_5x5.py:78-79 | Inside the grid, r·rows + c is a vertex of the grid. |
| SolutionsOf5x5.GridBound | thinness/solutions_of_5x5.py:78-79 | r·rows + c < rows² for r, c < rows. |
| SolutionsOf5x5.CoordinatesUnique | thinness/solutions_of_5x5.py:78-79 | Within the columns, the numbering is one-to-one: a vertex has one row and one column. |
| SolutionsOf5x5.RowSharesClass | thinness/solutions_of_5x5.py:48-60 | `row_shares_class` is true exactly when some row has every vertex in the class of its column-0 vertex. |
| SolutionsOf5x5.ColSharesClass | thinness/solutions_of_5x5.py:63-75 | `col_shares_class` is true exactly when some column has every vertex in the class of its row-0 vertex. |
| SolutionsOf5x5.FindSolutionWithoutSameClassRowOrColumn | thinness/solutions_of_5x5.py:41-45 | Returns `None` exactly when every solution has a row or a column in one class; otherwise the first solution with neither. |
| SolutionsOf5x5.ToLatexGridVertices | thinness/solutions_of_5x5.py:33-38 | For each vertex 0..|order|-1 in turn, its 1-based first position in the order and its class's colour; fails exactly when some vertex is not drawable, with the exception of the first such vertex. |

## Left out

- Sage and networkx algorithms: the colourings, `vertex_separation`, `pathwidth`, `flow`, `strongly_connected_components`, `modular_decomposition`, `canonical_label` and `is_connected` are foreign code. They are function parameters, each with the property the model relies on.
- The Z3 code (z3_thinness.py, the solver half of thinness/z3_backtracking.py, including `reduce_vertices`, and the `add_*_constraints` of src/main.py) is a wrapper over an SMT solver. The solver is the `solve` parameter of `Z3Backtracking.BacktrackGraphs`.
- Multiprocessing drivers, progress printing (including the `quantity_solved` message), CSV and file persistence, LaTeX file output, plotting, profiling scripts and research scripts that run at import are I/O or concurrency. They are not modelled.
- Python's set and dictionary iteration order is not modelled. Every loop over a Sage or Python set takes its elements in any order, and the proofs hold for every order.
- Vertices are natural numbers. `graph6_string` and the global `graph6_string` side effect of thinness/order.py are not modelled.
- The `calculate_thinness()` wrapper at calculate_thinness.py:136-137 passes `lower_bound=None`. The comparison `upper_bound <= lower_bound` at calculate_thinness.py:106 would then raise, so the wrapper is not modelled. `CalculateThinness.CalculateThinnessBacktracking` takes an integer lower bound.
- CalculateThinness.CalculateThinnessBacktracking: requires a non-empty graph. On an empty graph `nodes.pop()` at calculate_thinness.py:129 raises `KeyError`, and that path is not modelled.
- CalculateThinness.EdgelessReportsZero: `number_of_classes` counts only the colours that greedy colouring gives. The colouring never sees a vertex outside the constraints graph, so one vertex reports 0 classes. This is modelled as written and is not corrected.
- SplitCrown.Partition: requires n >= 1. For n = 0 the source raises `IndexError` at thinness/split_crown.py:46, and that path is not modelled. The same holds for SplitCrown.ThinnessOfSplitCrownGraph.
- KnByKnc.PartitionForHeuristic4: requires an even n >= 2, which is the only case the driver uses (src/main.py:172). For other n the source raises `IndexError` at src/main.py:187-191.
- KnByKnc.HeuristicSolution4: proves that the fourth heuristic order has a consistent solution with ceil(n/2) classes. It does not prove the driver's assertion that `minimum_partition_for_vertex_order` finds exactly that many. That function is Sage code outside the model.
- ProperThinness.VerifyProperByPositions: requires every vertex of the order to have a class (`Classified`). A missing class makes `partition[u]` raise `KeyError`, and that path is not modelled. The same holds for the other ProperThinness lemmas.
- K2Cycles.Partitions: requires a non-empty list. On an empty list the source's `collection[0]` raises `IndexError` on the first `next()`.
- K2Cycles.PartitionsSound: proves that every yielded list is a partition. Completeness (every partition is yielded) is not proved.
- K2Cycles.Copies: requires the module's vertices to be 0..m-1 (`Labelled`), as `disjoint_union(..., labels='integers')` produces them. The same holds for K2Cycles.ModularPath and K2Cycles.ModularCycle.
- K2Cycles.AddEdges: requires both ends of every listed edge to be vertices already. `K2_cycle` always satisfies this, while Sage's `add_edges` would add missing ends.
- `module_subgraph`, `K2_union_complement`, `modular_product`, `transform_modules_to_K2_complements`, `simplify_modules` and the `test_*`/`thinness_of_*` drivers of thinness/k2_cycles.py are not modelled. They are driver code over Sage calls.
- ImplicationsDigraph.MutableDigraph.AddArc: requires distinct ends. Every arc the source adds joins two different pairs.
- `is_consistent_1` (thinness/implications_digraph.py:37-39) is only proved in one direction (ImplicationsDigraph.ConsistentOrderingHasNoSelfCoupling). The converse is false in general: the source lists counterexamples at thinness/implications_digraph.py:50-86.
- Order.ThinnessOfOrder: with a full order it can fail only with `StopIteration` from Sage's `next()`. That failure is not proved impossible, because it needs every node but the sink to have an outgoing arc. Its value is stated only relative to the maximum-flow oracle (Sage's `flow`, a parameter): the model proves it is the feasible value of the min-edge-flow network minus the oracle's maximum flow, but not that this is the thinness of the order. The expectations of tests/test_order.py:13-31 (1 on K1, K2 and K3 with the identity order, 2 on C4) are therefore not proved.
- Order.BuildTransitiveOrientation: requires every edge end to be in the order. The `ValueError` of `order.index` is modelled one level up, in Order.ThinnessFromCompatibilityGraph.
- Z3Backtracking.ExtendableGraph.PushVertex: requires the new vertex not to be in its own adjacency list, since a simple Sage graph refuses the loop. `backtrack_graphs` always satisfies this.
- Z3Backtracking.BacktrackGraphs: uses the corrected label comparison of `contains` (see Findings).
- Z3Backtracking.SolveGraphs: states only that the empty graph is recorded and the n = 0 case. The contents of the full-size bucket depend on the canonical-label and solver parameters.
- SolutionsOf5x5.ToLatexGridVertices: returns the per-vertex cells (position and colour) instead of the text `position/colour, ` it concatenates. String formatting is not modelled.
- BranchAndBound.CalculateThinnessWithBranchAndBound: thinness/branch_and_bound.py:11 calls the vertex-separation seed with two arguments, but the seed takes three (src/thinness/vertex_separation.py:8). As written this call raises `TypeError`. The model passes the missing argument, which the seed's body does not use, and builds the seed with the corrected marker -1 (see Findings).
- VertexSeparation.SolutionFromVertexSeparation: consistency is proved only for a negative marker. With the source's marker 0 it does not hold (see Findings, VertexSeparation.AsWrittenInconsistent).
- Reduce.CommonNeighbors: indexes the matrix by vertex label. Sage's `common_neighbors_matrix` indexes it by position in `vertices()`, so the two agree only when the vertices are 0..n-1. On a graph numbered otherwise the model reads the counts of the right pair, while `common_neighbors[u, v]` at thinness/reduce.py:18, 26 and 30 reads the entry of the u-th and v-th vertices.
- Graphs.MutableGraph.AddEdge: requires distinct ends. Sage raises `ValueError` on a loop in a graph without loops, and no caller in the model adds one.
- Graphs.MutableGraph.DeleteVertex: requires the vertex to be present. Sage raises `ValueError` on an absent vertex, and every caller in the model deletes a present one.
- Reduce.ReduceGraph: the docstring's promise (thinness/reduce.py:7) that the reduced graph has the same thinness as the input is not proved; the model proves which vertices go and why. As in the source, the second pass takes degrees in the graph the first pass left but common-neighbour counts of the original graph (thinness/reduce.py:8-10, 26, 30), so its twin test is not a twin test of that graph once the first pass has deleted something.
- The 4-cycle expectation of tests/test_dynamic_programming.py:28-29 (thinness 2) is not proved. It needs every round of the search on that graph written out; only the complete-graph and pathwidth-at-most-1 expectations are proved (DynamicProgramming.CompleteGivesOne, DynamicProgramming.PathwidthAtMostOneGivesOne).
- Upper bounds are inclusive in thinness/branch_and_bound.py:21,42 and exclusive in calculate_thinness.py:119. Each module models its own source's comparison.
- Expectations in tests that the code does not meet are not encoded:
  - tests/test_branch_and_bound.py:14-16 passes a `certificate=` argument;
  - tests/test_verify.py:8-11 expects an empty partition to be rejected, while Verify.EmptyPartitionAccepted shows it is accepted;
  - tests/test_reduce.py:14 expects a tuple, while Reduce.ReduceGraph returns a graph.
- tests/test_lmimw_branch_and_bound.py, thinness/chordal_search.py (it does not parse), helpers.py and thinness/consistent_solution.py are not part of this model. The 5x5 grid code uses the `ConsistentSolution` of src/thinness/consistent_solution.py.

## Findings

| source | as written | input that shows it | evidently intended | confidence | as-written member | corrected member |
|---|---|---|---|---|---|---|
| src/thinness/vertex_separation.py:26-27 | `_get_last_neighbors` starts every entry at 0 and the inactive branch tests `== 0`, so a vertex whose last neighbour sits at layout position 0 is treated like a vertex with no earlier neighbour and goes to the head of the order in class 0 | one edge 0–1 with layout [0, 2, 1]: the order is [1, 2, 0], all in class 0; 1 < 2 < 0 with 1–0 an edge and 2–0 not | a marker that is no layout position (for example -1), which makes the solution consistent | not executed | VertexSeparation.AsWrittenInconsistent | VertexSeparation.SeparationSolutionConsistent |
| thinness/z3_backtracking.py:29-30 | `contains` tests whether the label string is in a set of `SolvedGraph` records, and a string never equals a record | any label, right after `add(SolvedGraph(label, t), k)`; `contains(label, k)` is still false, so the memo never prunes a graph | `contains` is true when some record in the bucket carries the label | not executed | Z3Backtracking.ContainsAsWrittenNeverHits | Z3Backtracking.SolvedGraphs.Contains |
