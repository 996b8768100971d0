# pmcenum — a verified model of PMC enumeration and treewidth

This project models the core of *pmcenum*, a program that computes exact
treewidth and generalized hypertreewidth. It does so by enumerating the
potential maximal cliques (PMCs) of a graph and running the
Bouchitté–Todinca dynamic program over them. PMCs are enumerated in two ways:

- combinatorially: grow a vertex prefix of an MCS order and close the
  minimal separators under the standard operation;
- with a SAT solver: a CNF encoding whose models select candidate vertex
  sets, each checked by the PMC test, plus blocking clauses for the bad
  separators of the candidates that fail it, and cardinality constraints (a
  totalizer or a sorting network) that fix the size of the PMC or the
  number of covering hyperedges.

Before that, preprocessing decomposes the graph:

- safe separators, found as clique minimal separators from an MCS-M order;
- degree-1 and degree-2 eliminations;
- an MCS upper bound.

For hypergraphs, minimum set covers give the cost of a bag.

The model is one Dafny module per source file:

| module | models |
|---|---|
| `Graphs`, `HyperGraphs` | the graph classes |
| `GraphTheory` | walks, components, separators and the PMC predicate, as values |
| `McsOrders` | MCS, MCS-M and the atom decomposition |
| `TreewidthPreprocessing`, `HypertreewidthPreprocessing` | the two preprocessors |
| `BtAlgorithm` | the Bouchitté–Todinca dynamic program |
| `CombEnum` | combinatorial PMC enumeration |
| `SetCover` | branch-and-bound set cover |
| `Cardinality` | the totalizer |
| `CardinalityNetwork`, `NetworkValues` | the sorting network |
| `PmcEncoding`, `Enumerators` | the SAT encoding and its enumerator |
| `FixedSizeEnumerators`, `FixedSizeHyperEnumerators` | fixed-size enumeration |
| `IoFormats` | reading graphs and hypergraphs |
| `SatInterface`, `Matrices`, `Utils`, `Wrappers` | support code |

Objects the source updates in place are classes. Examples are the graph, the
matrix, the solver interface, the preprocessors, the cardinality builders,
the enumerators, the set-cover solver and the reader. Their methods are
proved against ghost specification functions. The SAT solver is an oracle:
it logs the clauses it receives and hands out variables 1, 2, …. A call
to solve either returns a model of the logged clauses under the
assumptions, or reports failure with no promise attached.

Source assertions become `Outcome.Abort` results, characterised in the
contracts. Where verification showed the source can fail an assertion, both
the behaviour as written and the corrected one are modelled (see
"## Findings").

## Model

| member | source | states |
|---|---|---|
| SatInterface.NegShape | src/sat_interface.cpp:10-37 | negating keeps a literal defined or undefined (the default literal, value 0, stays undefined) and swaps TrueLit and FalseLit |
| SatInterface.NegFlipsTruth | src/sat_interface.cpp:32-34 | negation is an involution on defined literals and flips the literal's truth in every assignment |
| SatInterface.ProcessClause | src/sat_interface.cpp:45-59 | returns exactly Processed(clause): [TrueLit] when some literal is TrueLit or a literal and its complement both occur (in either order), otherwise the input in order without FalseLits, repeats kept; every literal must be defined (the assertion at line 49) |
| SatInterface.ProcessedMeaning | src/sat_interface.cpp:45-59 | the processed clause is satisfied by exactly the assignments that satisfy the input clause |
| SatInterface.ProcessedShape | src/sat_interface.cpp:50-58 | the processed clause is [TrueLit] or holds only non-constant literals of the input |
| SatInterface.WithoutFalseElements | src/sat_interface.cpp:52-53 | the literals kept are exactly the input literals that are not FalseLit |
| SatInterface.WithoutFalseMeaning | src/sat_interface.cpp:52-53 | dropping FalseLits does not change which assignments satisfy the clause |
| SatInterface.SatSolver.constructor | src/sat_interface.hpp:34-44 | a fresh solver has no variables, no clauses and nothing frozen |
| SatInterface.SatSolver.NewVar | src/sat_interface.hpp:36 | hands out the next variable number and changes nothing else |
| SatInterface.SatSolver.AddClause | src/sat_interface.hpp:37 | logs the clause as given and stores its processed form unless that is [TrueLit]; requires known literals |
| SatInterface.SatSolver.FreezeVar | src/sat_interface.hpp:40 | adds the variable to the frozen set and changes nothing else |
| SatInterface.SatSolver.Solve | src/sat_interface.hpp:39 | on a positive answer the model satisfies every stored clause and every assumption; the clause store is unchanged |
| SatInterface.SatSolver.SolutionValue | src/sat_interface.hpp:38 | the value of a known literal under the current model |
| Utils.IsSorted | src/utils.hpp:69-75 | true exactly when no element is smaller than its predecessor; empty and one-element vectors count as sorted |
| Utils.SortAndDedup | src/utils.hpp:77-81 | the result is strictly increasing under the order and holds exactly the values of the input |
| Utils.SortAndDedupLength | src/utils.hpp:77-81 | sorting with duplicates removed never lengthens the vector |
| Utils.StrictlySortedUnique | src/utils.hpp:77-81 | two strictly sorted vectors with the same values are equal, so the result of SortAndDedup is determined by the set of input values |
| Utils.SortAndDedupInts | src/utils.hpp:77-81 | the integer instance: strictly increasing, same values as the input |
| Utils.SortAndDedupIntsLength | src/utils.hpp:77-81 | on a vector without repeats the length is kept |
| Utils.InitZero | src/utils.hpp:83-87 | exactly size elements, all zero |
| Utils.CompleteEdges | src/utils.hpp:89-100 | n(n-1)/2 pairs; a pair is listed exactly when it is (v[i], v[j]) with i < j; for two or more vertices the list is in index order (PairsBefore), and for fewer it is empty |
| Utils.PairsBeforeMembers | src/utils.hpp:94-98 | the first rows of the double loop list exactly the pairs (v[i], v[j]) with i < j and i among those rows |
| Utils.PairsBeforeLength | src/utils.hpp:93-98 | the first r rows of the double loop hold r(2n-r-1)/2 pairs |
| Utils.PermInverse | src/utils.hpp:102-109 | for a permutation p the result q is a permutation with q[p[i]] = i and p[q[v]] = v |
| Utils.RankInts | src/graph.cpp:27 | the position of a member of a strictly increasing vector, the only position holding it |
| Matrices.OffsetValue | src/matrix.hpp:35-43 | row r starts r times the column count into the buffer: cell (r, c) sits at r·columns + c |
| Matrices.OffsetInRange | src/matrix.hpp:22-23 | an in-range cell lies inside the rows·columns buffer |
| Matrices.OffsetInjective | src/matrix.hpp:35-43 | two in-range cells share a buffer position exactly when they are the same cell |
| Matrices.RowBefore | src/matrix.hpp:35-43 | every cell of an earlier row comes before every cell of a later row |
| Matrices.Matrix.constructor | src/matrix.hpp:22-23 | rows·columns cells, all holding the value-initialised element |
| Matrices.Matrix.Empty | src/matrix.hpp:25-26 | the default matrix is 0×0 with an empty buffer |
| Matrices.Matrix.Get | src/matrix.hpp:40-43 | reads cell (r, c) through the row offset |
| Matrices.Matrix.Set | src/matrix.hpp:35-38 | writes exactly cell (r, c) and keeps the dimensions |
| Matrices.Matrix.Resize | src/matrix.hpp:28-33 | sets both dimensions; the buffer becomes rows·columns long, keeps its old prefix and pads with the zero element |
| Matrices.Matrix.Clone | src/matrix.hpp:16-18 | the implicit copy of a matrix: a fresh matrix with its own buffer, the same dimensions and the same cells |
| GraphTheory.CompSame | src/graph.cpp:137-149 | every vertex of a component of G − S has that same component (components are the classes of reachability outside S) |
| GraphTheory.CompDisjointOrEqual | src/graph.cpp:137-149 | two components of G − S are equal or disjoint |
| GraphTheory.NbhOfCompInSeparator | src/graph.cpp:152-186 | the neighbourhood of a component of G − S lies inside S |
| GraphTheory.ConnectedToNbh | src/graph.hpp:39 | for i outside S and j in S, i is connected to j with respect to S exactly when j is a neighbour of i's component |
| GraphTheory.ConnectedWrtMono | src/enumerator.cpp:157-167 | connectivity with respect to a separator survives removing vertices from the separator |
| GraphTheory.DroppedVertexSplits | src/enumerator.cpp:157-169 | if dropping a from S connects a to b though they were unconnected with respect to S, then G − S has two distinct components |
| GraphTheory.PmcTestIsPmc | src/graph.cpp:225-246 | for a list without repeats, the two conditions the test checks (every pair of PMC vertices is adjacent or joined through a component; no outside component sees the whole set) are exactly the characterisation of a potential maximal clique: no full component and every pair covered by an edge or a common component neighbourhood |
| GraphTheory.CliqueListDistinct | src/graph.cpp:248-255 | a list whose every ordered pair is adjacent in a simple graph has no repeats and all its distinct members are adjacent |
| Graphs.Endpoints | src/graph.cpp:21 | a value is listed exactly when it is an endpoint of some input edge |
| Graphs.Graph.constructor | src/graph.cpp:14-19 | an edgeless graph on n vertices whose vertex map is the identity |
| Graphs.Graph.FromEdges | src/graph.cpp:21-29 | the vertex map is the sorted distinct endpoints, and two vertices are adjacent exactly when their labels are joined by an input edge |
| Graphs.Graph.AddLabelledEdges | src/graph.cpp:26-28 | after adding the ranked input edges, two vertices are adjacent exactly when their labels are joined by an input edge |
| Graphs.Graph.Clone | src/graph.hpp:56 | a fresh graph with the same vertex count, edge count, adjacency lists and vertex map |
| Graphs.Graph.HasEdge | src/graph.cpp:39-41 | true exactly when the two vertices are adjacent |
| Graphs.Graph.AddEdge | src/graph.cpp:70-78 | an existing edge leaves the graph unchanged; otherwise each endpoint gains the other at the end of its list and m grows by one; the adjacency relation gains exactly the pair; the graph stays symmetric and simple with 2m equal to the degree sum |
| Graphs.Graph.AddEdges | src/graph.cpp:84-86 | the adjacency relation becomes the old one plus the listed pairs |
| Graphs.Graph.RemoveEdge | src/graph.cpp:88-111 | each endpoint loses the other by swap-with-last removal, m drops by one, and the adjacency relation loses exactly the pair |
| Graphs.Graph.RemoveFirst | src/graph.cpp:94-101 | the list with the first occurrence swapped with the last element and popped |
| Graphs.SwapRemoveElems | src/graph.cpp:94-101 | swap-removal from a list without repeats shortens it by one and removes exactly that value |
| Graphs.Graph.MinDegree | src/graph.cpp:113-119 | the minimum over n − 1 and all vertex degrees: a lower bound on every degree that is attained by n − 1 or some vertex |
| Graphs.Graph.Edges | src/graph.cpp:47-55 | lists each edge exactly once, as the pair (smaller, larger) |
| Graphs.Graph.Dfs | src/graph.cpp:121-129 | appends v and then only vertices that were unmarked and reachable from v through unmarked vertices, marks exactly those, and every neighbour of an added vertex ends up marked |
| Graphs.Graph.FindComponentAndMark | src/graph.cpp:131-135 | the returned list starts at v, holds each newly marked vertex once, and is closed under adjacency in the new marks |
| Graphs.Graph.MarkComponent | src/graph.cpp:143-146 | when the marks hold S and are closed outside S, the search from an unmarked v returns exactly v's component of G − S without repeats |
| Graphs.Graph.Components | src/graph.cpp:137-149 | returns the components of G − separator, each once, without repeats, ordered by their smallest vertex, which comes first in each; every vertex outside the separator lies in one |
| Graphs.BigComponents | src/graph.cpp:61-68 | the graph is connected-or-isolated exactly when at most one listed component has more than one vertex |
| Graphs.Graph.IsConnectedOrIsolated | src/graph.cpp:61-68 | true exactly when all vertices that lie in components of size above one lie in the same component |
| Graphs.Graph.Neighbors | src/graph.cpp:152-186 | the strictly increasing list of the neighbourhood N(vs), whichever of the two strategies the degree sum selects |
| Graphs.Graph.NeighborsByMarks | src/graph.cpp:158-170 | the dense strategy returns N(vs) in increasing order |
| Graphs.Graph.NeighborsBySet | src/graph.cpp:171-184 | the ordered-set strategy returns N(vs) in increasing order |
| Graphs.Graph.EdgesIn | src/graph.cpp:188-208 | lists exactly the edges (smaller, larger) with both endpoints in vs, by either strategy |
| Graphs.Graph.IsClique | src/graph.cpp:248-255 | true exactly when every pair of list positions is adjacent |
| Graphs.Graph.MapInto | src/graph.cpp:266-268 | the vertex whose label is the given value |
| Graphs.Graph.MapBackVertices | src/graph.cpp:260-265 | replaces every vertex by its label, preserving strict increase |
| Graphs.Graph.MapIntoVertices | src/graph.cpp:269-274 | replaces every label by its vertex |
| Graphs.Graph.MapBackEdges | src/graph.cpp:275-283 | replaces both endpoints of each edge by their labels, preserving the orientation smaller-first |
| Graphs.Graph.InheritMap | src/graph.cpp:284-286 | the labels become the parent's labels of the current labels; the edges are unchanged |
| Graphs.Graph.AdjacencyMatrix | src/graph.hpp:63 | an n-by-n matrix whose cell (v, u) is the adjacency of v and u |
| Graphs.ListedConnected | src/graph.cpp:210-223 | marking every component together with its neighbourhood on top of the adjacency matrix marks exactly the pairs connected with respect to the separator |
| Graphs.Graph.ConnectedMatrix | src/graph.cpp:210-223 | cell (v, u) is set exactly when v and u are adjacent or both lie in one component of G − separator or its neighbourhood |
| Graphs.MarkPairs | src/graph.cpp:216-220 | sets exactly the cells whose row and column both lie in the list, keeping the others |
| Graphs.NbhCount | src/graph.cpp:237-241 | for a vertex outside P, the count of P-vertices it is connected to is the size of its component's neighbourhood, at most the size of P (the assertion at line 241) |
| Graphs.PmcTestByRows | src/graph.cpp:231-245 | the test is the conjunction over all vertices of the per-vertex row check |
| Graphs.Graph.CheckRow | src/graph.cpp:232-243 | decides the row check of one vertex: a PMC vertex is connected or adjacent to every other PMC vertex; an outside vertex does not see all of P |
| Graphs.Graph.CheckRows | src/graph.cpp:231-245 | true exactly when every vertex passes its row check |
| Graphs.Graph.IsPmc | src/graph.cpp:225-246 | decides PmcTest; for a list without repeats this is exactly being a potential maximal clique |
| Graphs.Graph.MarkMembers | src/graph.cpp:227-230 | a fresh n-entry mark vector, true exactly at the listed vertices |
| Graphs.Graph.ConnectedToAll | src/graph.cpp:233-235 | true exactly when the vertex is adjacent to, or joined through a component to, every other PMC vertex |
| Graphs.Graph.CountConnected | src/graph.cpp:237-240 | the number of PMC vertices the vertex is joined to through a component |
| Graphs.Graph.DfsChild | src/graph.cpp:124-128 | one neighbour of the search: an unmarked neighbour's whole reachable part is appended and marked, a marked one is skipped, and the search invariant moves past it |
| GraphTheory.PmcLift | src/comb_enum.cpp:90-92 | a potential maximal clique of a graph stays one in any graph with more edges in which it has no full component |
| GraphTheory.FullWithNew | src/comb_enum.cpp:90-98 | when the grown graph adds only edges at x, a full component of P + x in the grown graph gives a full component of P in the old one |
| GraphTheory.SharedWithNew | src/comb_enum.cpp:93-97 | two vertices of P that share a component neighbourhood of the old graph minus P share one of the grown graph minus (P + x) |
| GraphTheory.SeedIsMinimal | src/comb_enum.cpp:146-157 | the neighbourhood of a component of G − N[v] is a minimal separator: that component and the component of v are both full |
| GraphTheory.CloseIsMinimal | src/comb_enum.cpp:162-176 | for a minimal separator S and x in S, the neighbourhood of a component of G − (S + N(x)) is a minimal separator |
| HyperGraphs.PrimalEdges | src/hypergraph.cpp:11-21 | lists exactly the pairs (e[i], e[j]) with i < j taken from one hyperedge |
| HyperGraphs.PairEndpoints | src/hypergraph.cpp:11-21 | for hyperedges without repeats no pair is a loop, and the endpoints are exactly the vertices lying in a hyperedge of size at least two |
| HyperGraphs.JoinedInSomeIff | src/hypergraph.cpp:26 | two labels are joined by a primal pair exactly when they lie together in some hyperedge |
| HyperGraphs.Keep | src/hypergraph.cpp:48-53 | keeps exactly the vertices of the edge that are in vs, never lengthening it |
| HyperGraphs.KeepIncreasing | src/hypergraph.cpp:48-53 | filtering keeps a strictly increasing edge strictly increasing |
| HyperGraphs.Restricted | src/hypergraph.cpp:46-56 | at most one restricted edge per hyperedge, each of size at least two and inside vs |
| HyperGraphs.RestrictedMembers | src/hypergraph.cpp:46-56 | an edge is listed exactly when it has at least two vertices and is the restriction of some hyperedge |
| HyperGraphs.KeepClique | src/hypergraph.cpp:48-53 | restricting a sorted clique of the primal graph gives a sorted clique |
| HyperGraphs.HyperGraph.constructor | src/hypergraph.cpp:24 | an edgeless primal graph on n vertices and no hyperedges |
| HyperGraphs.HyperGraph.FromEdges | src/hypergraph.cpp:26-33 | the primal graph's labels are exactly the covered values, two vertices are adjacent exactly when their labels share a hyperedge, and the k-th stored edge is the sorted set of vertices whose labels lie in the k-th input hyperedge |
| HyperGraphs.MappedClique | src/hypergraph.cpp:26-33 | every stored hyperedge is a clique of the primal graph |
| HyperGraphs.MapEdges | src/hypergraph.cpp:27-32 | each hyperedge becomes the strictly increasing list of the vertices carrying its labels |
| HyperGraphs.HyperGraph.PrimalGraph | src/hypergraph.cpp:34-36 | a fresh copy of the primal graph |
| HyperGraphs.HyperGraph.AddEdge | src/hypergraph.cpp:58-66 | appends the sorted, deduplicated edge and joins all its distinct pairs in the primal graph, nothing else |
| HyperGraphs.JoinClique | src/hypergraph.cpp:60-64 | adds exactly the edges between distinct members of a sorted list |
| HyperGraphs.JoinRow | src/hypergraph.cpp:61-63 | adds exactly the edges from x to every listed vertex |
| HyperGraphs.HyperGraph.EdgesIn | src/hypergraph.cpp:40-57 | returns exactly the restriction of the stored hyperedges to vs, dropping those with fewer than two vertices |
| HyperGraphs.KeepMarked | src/hypergraph.cpp:48-53 | filtering by the marks computes Keep |
| McsOrders.CountIn | src/mcs.cpp:36-42 | counts the entries of s that occur in the row: at most the size of s, and zero exactly when none occurs |
| McsOrders.Mcs | src/mcs.cpp:12-46 | the returned order is an MCS order: a permutation of the vertices filled from the back in which each vertex has at least as many neighbours at later positions as any vertex not yet placed |
| McsOrders.NumberVertex | src/mcs.cpp:29-43 | numbers the top vertex of the highest non-empty bucket at position it and keeps the loop invariant (labels count numbered neighbours, buckets cover every unnumbered vertex at its label) |
| McsOrders.McsStep | src/mcs.cpp:23-44 | one pass of the loop body (lower the maximum label, drop a stale bucket entry, or number a vertex) keeps the invariant and decreases the position, the bucket total or the maximum label |
| McsOrders.IncrementNeighbours | src/mcs.cpp:36-42 | every unnumbered neighbour of x gains one label and is pushed onto its new bucket, and the maximum label rises to cover them |
| McsOrders.NumberedChoice | src/mcs.cpp:29-35 | a vertex taken from the highest non-empty bucket that is not yet numbered satisfies the MCS choice rule |
| McsOrders.MaxLabelVertex | src/mcs.cpp:64-72 | returns an unnumbered vertex of largest label, the highest-indexed one among ties |
| McsOrders.RaiseNeighbourLabels | src/mcs.cpp:105-107 | adds one to the label of exactly the unnumbered neighbours of x |
| McsOrders.PushNeighbours | src/mcs.cpp:76-86 | marks x and its unnumbered neighbours as reached and files each neighbour under its label |
| McsOrders.ReachPhase | src/mcs.cpp:87-104 | the bucket search adds a fill edge (x, z) and one label exactly for the unnumbered non-neighbours z it reaches through vertices of smaller label, keeping earlier fill edges as a prefix |
| McsOrders.ReachVertex | src/mcs.cpp:91-102 | handles one neighbour z of the popped vertex: a fill edge and a raised label when label[z] exceeds the current bucket, otherwise z is filed in the current bucket |
| McsOrders.ScanNeighbours | src/mcs.cpp:91-102 | the scan over the neighbours of the popped vertex keeps the reach bookkeeping and only appends fill edges from x to unnumbered non-neighbours |
| McsOrders.McsMRound | src/mcs.cpp:76-107 | one numbering round raises by one exactly the labels of the unnumbered vertices that are neighbours of x or receive a fill edge from x, and the fill edges are new and start at x |
| McsOrders.FillSources | src/mcs.cpp:97 | lists exactly the vertices u with a fill edge (u, v) |
| McsOrders.McsMStep | src/mcs.cpp:63-108 | one loop iteration numbers a vertex of largest filled label (highest index on ties), sets its maximal-clique-point flag from the comparison with the previous label, and keeps every unnumbered label equal to the number of numbered neighbours in the filled graph |
| McsOrders.McsM | src/mcs.cpp:48-110 | the elimination order is a permutation; every fill edge joins a vertex to a non-neighbour eliminated before it; every position took an unnumbered vertex whose label (numbered neighbours in the graph plus fill edges) is largest, the highest-indexed among ties; the flag at a position is set exactly when that label is not above the label of the vertex numbered just before; the first eliminated vertex's flag is false |
| McsOrders.McsMOutputShape | src/mcs.cpp:109 | the order has one entry per vertex, the flags likewise, and every fill edge joins two vertices of the graph |
| McsOrders.Kept | src/mcs.cpp:158-163 | keeps exactly the row entries that are in keep, never lengthening the row |
| McsOrders.LaterNeighbours | src/mcs.cpp:157-163 | the neighbours of order[i] at later positions |
| McsOrders.WidthUpTo | src/mcs.cpp:153-166 | the largest later neighbourhood among the first k positions: an upper bound attained by some position, or 0 |
| McsOrders.LaterList | src/mcs.cpp:157-163 | collects exactly the later neighbours of order[i] using the inverse permutation |
| McsOrders.OrderWidth | src/mcs.cpp:152-167 | fails exactly when some later neighbourhood is not a clique (the assertion at line 164); otherwise returns the largest later neighbourhood |
| McsOrders.Treewidth | src/mcs.cpp:149-168 | 0 for a graph without edges; otherwise, for some MCS order, it succeeds exactly when the order is a perfect elimination order and then returns that order's width |
| McsOrders.InducedAtom | src/mcs.cpp:132 | the atom graph is induced on the vertex list: its labels are vertices of the list, adjacency is that of the graph, and every edge inside the list appears |
| McsOrders.UnremovedNeighbours | src/mcs.cpp:123-126 | exactly the neighbours of x in the filled graph not yet removed |
| McsOrders.ComponentFrom | src/mcs.cpp:128-130 | the search from x starts at x and accounts for every vertex it newly blocks |
| McsOrders.SeparatedComponent | src/mcs.cpp:127-131 | the vertex list is the search from x with the candidate clique appended at the end, and the marks of the clique are restored |
| McsOrders.SeparatorAtom | src/mcs.cpp:121-135 | one position of the first loop adds at most one atom, induced on its vertex list, which ends with a clique separator of the graph |
| McsOrders.SeparatorAtoms | src/mcs.cpp:120-136 | every atom of the first loop is induced on its vertex list, which ends with a clique separator of the graph, and every blocked vertex lies in one of these lists |
| McsOrders.RemainderAtom | src/mcs.cpp:139-143 | an unblocked vertex yields one more atom, induced on its component of the graph minus the blocked vertices |
| McsOrders.Remainder | src/mcs.cpp:137-144 | the remaining atoms are induced on the components of the graph minus the blocked vertices, one per component, and found counts them |
| McsOrders.AtomsCover | src/mcs.cpp:120-144 | every vertex lies in the vertex list of some atom |
| McsOrders.Atoms | src/mcs.cpp:112-147 | stops exactly when the unblocked vertices form other than one component (the assertion at line 145), in particular for a graph without vertices; otherwise every atom is induced on its vertex list, all but the last end with a clique separator, the last is the single remaining component, and together they cover every vertex |
| TreewidthPreprocessing.DetachDegree2 | src/treewidthpreprocessor.cpp:28-31 | removes both edges of x to its first two neighbours: x becomes isolated, m drops by two, only those three rows change |
| TreewidthPreprocessing.EliminateDegree2 | src/treewidthpreprocessor.cpp:27-35 | eliminates x: its two edges go, and the edge between its neighbours is added exactly when it was missing, which is reported |
| TreewidthPreprocessing.Degree2Round | src/treewidthpreprocessor.cpp:23-44 | one pop of the queue keeps the elimination invariant (every remaining edge is original or fill, every fill edge was new, every vanished edge touches an eliminated vertex) and either removes an edge or leaves the queue as it was |
| TreewidthPreprocessing.GreedyDegree2 | src/treewidthpreprocessor.cpp:13-47 | no degree grows, every returned fill edge was absent from the input graph, and every edge left is an input edge or a fill edge |
| TreewidthPreprocessing.ScanNeighbourhood | src/treewidthpreprocessor.cpp:52-68 | fails exactly when two pairs of neighbours of x are non-adjacent; otherwise returns (-1, -1) exactly when the neighbourhood is a clique, or else the only missing pair |
| TreewidthPreprocessing.ScanDone | src/treewidthpreprocessor.cpp:54-68 | a completed scan that did not fail found at most one missing pair, and reports it |
| TreewidthPreprocessing.AddMissingEdge | src/treewidthpreprocessor.cpp:69-73 | the found pair is a non-edge of two distinct vertices; it becomes the only new edge and m grows by one |
| TreewidthPreprocessing.NeighborClique | src/treewidthpreprocessor.cpp:49-77 | either adds the missing edge of the first vertex whose neighbourhood misses exactly one edge (and nothing else), or returns (-1, -1) with the graph unchanged when every vertex is passed over, or stops the program (the assertions at lines 51 and 70) when a vertex of degree at most 2 or with a clique neighbourhood comes first |
| TreewidthPreprocessing.Snapshot | src/treewidthpreprocessor.hpp:11-16 | the stored value of a graph keeps its adjacency lists and vertex map |
| TreewidthPreprocessing.MapBackLabels | src/graph.cpp:275-283 | maps edges through a vertex map, defined exactly when every endpoint is a vertex, edge by edge |
| TreewidthPreprocessing.MapBackLabelEdges | src/treewidthpreprocessor.cpp:95 | edges of an instance map to pairs of distinct input labels |
| TreewidthPreprocessing.Unsettled | src/treewidthpreprocessor.cpp:93-101 | keeps exactly the instances whose upper bound exceeds the lower bound |
| TreewidthPreprocessing.SettledFill | src/treewidthpreprocessor.cpp:93-100 | the mapped bound fill of exactly the instances whose upper bound is at most the lower bound; undefined exactly when one of those fills names a missing vertex |
| TreewidthPreprocessing.SettledFillLabels | src/treewidthpreprocessor.cpp:95-96 | every settled fill edge joins two distinct input labels |
| TreewidthPreprocessing.DropSettled | src/treewidthpreprocessor.cpp:92-101 | computes the settled fill and the unsettled instances |
| TreewidthPreprocessing.OneUnsettled | src/treewidthpreprocessor.cpp:89-101 | without preprocessing the single instance, with bound 1e9 above the lower bound 0, is kept and no fill is settled |
| TreewidthPreprocessing.TreewidthPreprocessor.constructor | src/treewidthpreprocessor.cpp:80 | keeps a copy of the input graph, with no instances, no fill and lower bound 0 |
| TreewidthPreprocessing.TreewidthPreprocessor.Preprocess | src/treewidthpreprocessor.cpp:82-103 | returns the stored instances, all with upper bound above the lower bound; without pp the single instance is the input graph with bound 1e9 and no fill, and the fill and lower bound stay empty and 0 |
| TreewidthPreprocessing.TreewidthPreprocessor.SettleInstances | src/treewidthpreprocessor.cpp:93-101 | the kept fill gains exactly the settled fill and the instances become the unsettled ones |
| TreewidthPreprocessing.TreewidthPreprocessor.Preprocess1 | src/treewidthpreprocessor.cpp:105-130 | never lowers the lower bound and only appends instances and fill |
| TreewidthPreprocessing.TreewidthPreprocessor.SettleBranch | src/treewidthpreprocessor.cpp:110-115 | with at most one fill edge the lower bound rises to the treewidth bound of the filled graph and the fill is kept in input labels |
| TreewidthPreprocessing.TreewidthPreprocessor.PreprocessAtoms | src/treewidthpreprocessor.cpp:124-128 | recursing on every atom never lowers the lower bound and only appends instances and fill |
| TreewidthPreprocessing.TreewidthPreprocessor.PreprocessAtom | src/treewidthpreprocessor.cpp:117-123 | a single atom raises the lower bound to at least its minimum degree (n - 1, or the smallest vertex degree if lower) and continues with the reductions; it finishes only on an atom whose minimum degree is at least 2, the case the source asserts, and aborts otherwise; the bound never falls and instances and fill are only appended |
| TreewidthPreprocessing.TreewidthPreprocessor.RaiseLowerBound | src/treewidthpreprocessor.cpp:111 | the lower bound becomes the maximum of itself and b, nothing else changes |
| TreewidthPreprocessing.TreewidthPreprocessor.KeepFill | src/treewidthpreprocessor.cpp:112-113 | appends the edges in input labels to the kept fill |
| TreewidthPreprocessing.TreewidthPreprocessor.Preprocess2 | src/treewidthpreprocessor.cpp:132-147 | when no fill results, the instance is stored unchanged with its bound and bound fill, and every vertex is passed over by the neighbour-clique rule |
| TreewidthPreprocessing.MaxWidth | src/treewidthpreprocessor.cpp:153-156 | the largest of the lower bound and the solution widths: an upper bound attained by one of them |
| TreewidthPreprocessing.CollectFill | src/treewidthpreprocessor.cpp:155-159 | the solutions' fills in input labels; undefined exactly when some fill names a missing vertex |
| TreewidthPreprocessing.CollectSolutions | src/treewidthpreprocessor.cpp:151-159 | computes the width and the collected fill |
| TreewidthPreprocessing.Normalized | src/treewidthpreprocessor.cpp:161 | the edge with its smaller end first |
| TreewidthPreprocessing.NormalizeEdges | src/treewidthpreprocessor.cpp:160-162 | every edge with its smaller end first, in order |
| TreewidthPreprocessing.EdgeLessOrder | src/treewidthpreprocessor.cpp:163 | the lexicographic order on edges is a strict total order |
| TreewidthPreprocessing.HasRepeat | src/treewidthpreprocessor.cpp:164-166 | true exactly when some edge repeats |
| TreewidthPreprocessing.AddFillChecked | src/treewidthpreprocessor.cpp:167-172 | succeeds exactly when every fill edge joins two distinct vertices not adjacent so far (the assertions at lines 169-170), and then the graph is the input plus the fill |
| TreewidthPreprocessing.TreewidthPreprocessor.MapBack | src/treewidthpreprocessor.cpp:149-175 | the width is the maximum of the lower bound and the solution widths; the fill is all kept and mapped edges, smaller end first, strictly sorted, each new to the input graph; it stops when a mapped edge is undefined, an edge repeats, an edge is not new, and when it stops otherwise the treewidth bound of some MCS order of the filled graph refutes the width (the assertion at line 173); on success the width is the bound of the filled graph |
| TreewidthPreprocessing.TreewidthPreprocessor.LabelledCopy | src/treewidthpreprocessor.cpp:121-122 | the atom with labels inherited from the parent graph |
| HypertreewidthPreprocessing.Snapshot | src/hypertreewidthpreprocessor.cpp:26 | the stored value of a hypergraph keeps its hyperedges, primal adjacency and vertex map |
| HypertreewidthPreprocessing.SnapshotKept | src/hypertreewidthpreprocessor.cpp:22-26 | a hypergraph with vertices and more than one hyperedge is stored with sorted hyperedges that are cliques of its primal graph |
| HypertreewidthPreprocessing.RestrictedHyperedges | src/hypertreewidthpreprocessor.cpp:33 | the hyperedges restricted to an atom have no repeats and every vertex in them is covered, so the atom hypergraph can be built |
| HypertreewidthPreprocessing.AtomLabels | src/hypertreewidthpreprocessor.cpp:29-32 | the labels of the atom's vertices, in order |
| HypertreewidthPreprocessing.AtomHyperGraph | src/hypertreewidthpreprocessor.cpp:29-33 | the hypergraph built from the hyperedges restricted to the atom (AtomPart): one hyperedge per restricted edge of at least two entries, over exactly the covered labels; read through its labels it is the part the input hyperedges induce on those labels |
| HypertreewidthPreprocessing.SnapshotInduced | src/hypertreewidthpreprocessor.cpp:26 | a hypergraph kept whole is, through the identity labels, the part its own hyperedges induce on all its vertices |
| HypertreewidthPreprocessing.RestrictedInduced | src/hypergraph.cpp:40-57 | the hypergraph built from the hyperedges restricted to a vertex list is, through its labels, induced: each hyperedge is the restriction of an input hyperedge, and each input hyperedge with two distinct labels among them appears restricted |
| HypertreewidthPreprocessing.ComposeInduced | src/hypertreewidthpreprocessor.cpp:33-34 | a part induced on a part that is itself induced is induced on the original hyperedges through the composed labels, so the property survives the recursion on atoms |
| HypertreewidthPreprocessing.ComposeAll | src/hypertreewidthpreprocessor.cpp:33-34 | composing the labels of every instance found in an atom hypergraph with the atom's labels makes each of them induced on the outer hyperedges |
| HypertreewidthPreprocessing.AppendInduced | src/hypertreewidthpreprocessor.cpp:28-35 | appending the instances of one more atom keeps every appended instance induced on the input |
| HypertreewidthPreprocessing.OneAtomConnected | src/mcs.cpp:120-145 | when the decomposition returns one atom there is no separator and nothing blocked, and the single remaining component holds every vertex, so the primal graph is connected |
| HypertreewidthPreprocessing.SplitTraced | src/hypertreewidthpreprocessor.cpp:27-36 | a hypergraph that splits into at least two atoms, each recursed on with its own trace over its restricted hypergraph, has a trace, and it emits its atoms' instances one after the other |
| HypertreewidthPreprocessing.TraceSnoc | src/hypertreewidthpreprocessor.cpp:28-35 | recursing on one more atom extends the list of atom traces, and the instances appended by that recursion follow those of the earlier atoms |
| HypertreewidthPreprocessing.EmittedSnoc | src/hypertreewidthpreprocessor.cpp:28-35 | the instances of one more trace come after the instances of the earlier traces |
| HypertreewidthPreprocessing.HypertreewidthPreprocessor.constructor | src/hypertreewidthpreprocessor.hpp:11-17 | starts with no instances |
| HypertreewidthPreprocessing.HypertreewidthPreprocessor.Preprocess | src/hypertreewidthpreprocessor.cpp:15-19 | clears earlier instances and returns exactly the instances its recursion trace emits (Emitted): none for an empty hypergraph; a single atom, which happens only on a connected primal graph, gives itself when it has more than one hyperedge and nothing otherwise; several atoms give the instances of every atom's restricted hypergraph in turn, one trace per atom labelled by that atom's vertices; each returned instance has more than one hyperedge and comes with labels through which it is the part the input hyperedges induce on those labels |
| HypertreewidthPreprocessing.HypertreewidthPreprocessor.Preprocess1 | src/hypertreewidthpreprocessor.cpp:21-37 | on success appends exactly Emitted of a trace of the recursion (Traced): nothing on an empty hypergraph; the hypergraph itself when it is a single atom with more than one hyperedge, and a single atom means a connected primal graph; the trace's atom count is the number of atoms found, and at every level of the trace a single atom has a connected primal graph; with several atoms, one child trace per atom, each on the hypergraph of the input hyperedges restricted to that atom's vertices, their instances appended in atom order; every appended instance has more than one hyperedge and is, through its labels, the part the input hyperedges induce on some of its vertices |
| HypertreewidthPreprocessing.HypertreewidthPreprocessor.PreprocessAtoms | src/hypertreewidthpreprocessor.cpp:28-35 | on success recurses on every atom in turn: one trace per atom, labelled by the atom's vertices, on the hypergraph of the hyperedges restricted to them, and the instances appended are exactly those traces' instances in atom order; every appended instance is, through labels composed with the atom's, induced on the input hyperedges, and earlier instances are kept |
| BtAlgorithm.MergeCost | src/bt_algorithm.cpp:13-15 | the larger of the two costs |
| BtAlgorithm.InOrder | src/bt_algorithm.cpp:44-45 | the strictly increasing list of a vertex set, which is how sorted separators and components are stored |
| BtAlgorithm.ListedInOrder | src/bt_algorithm.cpp:44-45 | a strictly increasing list of a set is its sorted list |
| BtAlgorithm.AllVertices | src/bt_algorithm.cpp:24-25 | the list 0, 1, …, n − 1 |
| BtAlgorithm.ChildStep | src/bt_algorithm.cpp:67-81 | one vertex of the component keeps the child scan invariant: the marks hold the PMC and are closed outside it, and every marked vertex outside the PMC has its child state listed |
| BtAlgorithm.ChildScanStep | src/bt_algorithm.cpp:68-72 | searching from an unmarked vertex lists its child state and extends the marks by its component |
| BtAlgorithm.ChildState | src/bt_algorithm.cpp:69-73 | the child state of v: the sorted neighbourhood of its component of G − PMC, and the sorted component |
| BtAlgorithm.ChildStates | src/bt_algorithm.cpp:65-81 | lists child states of component vertices outside the PMC, and every such vertex has its child state listed |
| BtAlgorithm.BagCostUnique | src/bt_algorithm.cpp:63-81 | a bag cost (the maximum of the PMC size − 1 and the children's stored costs) is unique |
| BtAlgorithm.BagCostOf | src/bt_algorithm.cpp:63-82 | undefined exactly when a child state is missing from the table; otherwise the maximum of the PMC size − 1 and the stored costs of all children |
| BtAlgorithm.FoldCost | src/bt_algorithm.cpp:67-81 | folding the children into an accumulator gives an upper bound of the accumulator and every child cost, attained by one of them, or nothing when a child is missing |
| BtAlgorithm.BagCost | src/bt_algorithm.cpp:63-82 | computes BagCostOf: none exactly when a child is missing, otherwise the bag cost |
| BtAlgorithm.MaxStored | src/bt_algorithm.cpp:74-79 | the maximum of base and the stored costs of the states, none exactly when one is not stored |
| BtAlgorithm.BagCostOfChildren | src/bt_algorithm.cpp:63-81 | the maximum over a complete list of child states is the bag cost |
| BtAlgorithm.DpStep | src/bt_algorithm.cpp:59-88 | a triplet never raises a stored cost, stores its state at no more than its bag cost when that is defined, and adds no other state |
| BtAlgorithm.DpTable | src/bt_algorithm.cpp:58-88 | every stored state is the state of some triplet |
| BtAlgorithm.ProcessTriplet | src/bt_algorithm.cpp:60-87 | skips the triplet exactly when a child is missing; otherwise stores its bag cost and PMC when the state is new or the cost is strictly lower, else leaves the table; stored costs never rise and every entry stays achieved by its recorded PMC |
| BtAlgorithm.TableUpdate | src/bt_algorithm.cpp:84-87 | storing a strictly better bag cost keeps every entry achieved by its recorded PMC |
| BtAlgorithm.SideComponent | src/bt_algorithm.cpp:33-43 | defined exactly when the PMC vertices outside the separator lie in one component of G − separator (the assertion at line 43), and then returns that component |
| BtAlgorithm.SideScanEnd | src/bt_algorithm.cpp:37-43 | after the scan, exactly one search happened precisely when the PMC lies on one side of the separator, and the last search found that side's component |
| BtAlgorithm.ComponentTriplet | src/bt_algorithm.cpp:30-48 | stops exactly when the component's neighbourhood is not smaller than the PMC or the PMC does not lie on one side of it (the assertions at lines 32 and 43); otherwise returns the PMC's triplet with the sorted separator and the sorted side component |
| BtAlgorithm.PmcTriplets | src/bt_algorithm.cpp:28-51 | stops exactly when some outside component splits badly; otherwise lists the root triplet and, for every vertex outside the PMC, the triplet of its component, and nothing else |
| BtAlgorithm.TripletsCover | src/bt_algorithm.cpp:30-49 | the triplets made from the listed components cover every vertex outside the PMC |
| BtAlgorithm.SideNotBad | src/bt_algorithm.cpp:32-43 | a component with a triplet does not split badly |
| BtAlgorithm.BuildTriplets | src/bt_algorithm.cpp:22-51 | stops exactly when some PMC has a bad split; otherwise every triplet is realised by its PMC, every PMC has its root triplet, and every component outside every PMC has its triplet |
| BtAlgorithm.NoBadSplit | src/bt_algorithm.cpp:28-51 | a complete triplet list means no PMC splits badly |
| BtAlgorithm.InsertBySize | src/bt_algorithm.cpp:52-57 | inserts into a list ordered by separator-plus-component size, keeping the order and the multiset |
| BtAlgorithm.SortBySize | src/bt_algorithm.cpp:52-57 | a permutation of the triplets ordered by separator-plus-component size |
| BtAlgorithm.TripletsOfReordered | src/bt_algorithm.cpp:57 | a reordering of a complete triplet list is still complete |
| BtAlgorithm.RunDp | src/bt_algorithm.cpp:58-88 | the table is DpTable of the triplets in order; every entry is achieved by its recorded PMC; each triplet's bag cost is evaluated against the table before it; every stored cost is at most the bag cost of each triplet of that state and equal to one of them |
| BtAlgorithm.EvaluatedStep | src/bt_algorithm.cpp:59-88 | evaluating the next triplet against the table so far extends the evaluated costs |
| BtAlgorithm.AttainedStep | src/bt_algorithm.cpp:84-87 | every stored cost stays equal to some evaluated bag cost |
| BtAlgorithm.BoundedStep | src/bt_algorithm.cpp:84-87 | every evaluated bag cost stays an upper bound of its state's stored cost |
| BtAlgorithm.Select | src/bt_algorithm.cpp:107-110 | keeps exactly the pairs that are non-edges and not both inside the separator |
| BtAlgorithm.BagFill | src/bt_algorithm.cpp:103-113 | the PMC pairs, in order, that are non-edges and not both in the separator |
| BtAlgorithm.ChildrenStored | src/bt_algorithm.cpp:115-127 | the children of an achieved state are stored with costs at most its own (the assertion at line 124) |
| BtAlgorithm.ExpandState | src/bt_algorithm.cpp:95-127 | one reconstruction step emits exactly the fill pairs of the state's recorded PMC (the empty list when the PMC has fewer than two vertices) and queues exactly the child states of that PMC within the state's component, all stored at cost at most the bound |
| BtAlgorithm.Reconstruct | src/bt_algorithm.cpp:91-128 | the emitted edges are exactly the fill pairs of the recorded PMCs of the states reachable from the root through child states, each a fill pair of a stored state of cost at most the root's |
| BtAlgorithm.Solve | src/bt_algorithm.cpp:21-131 | stops exactly on a bad split; otherwise builds the complete triplet list sorted by size, runs the table over it, returns (-1, no fill) when the root state is not stored, and otherwise returns the root's cost as the width with exactly the fill pairs of the recorded PMCs of the states reachable from the root |
| BtAlgorithm.SideStep | src/bt_algorithm.cpp:37-42 | one more PMC vertex keeps the side scan's invariant: the search count and the component found so far |
| BtAlgorithm.DpNext | src/bt_algorithm.cpp:59-88 | one more triplet keeps the table invariant: every stored state holds the least defined bag cost over the triplets seen so far, with its choice |
| BtAlgorithm.DpTableSnoc | src/bt_algorithm.cpp:59-88 | the table after one more triplet is exactly one step of the loop body past the table before it |
| BtAlgorithm.TripletsDone | src/bt_algorithm.cpp:28-51 | when every listed component has its triplet, no vertex outside the PMC splits badly, and the list with the root triplet appended holds exactly the root triplet and side triplets, one for every outside vertex |
| BtAlgorithm.ListedNotBad | src/bt_algorithm.cpp:30-49 | a vertex outside the PMC lies in a listed component, and that component's triplet shows it does not split badly |
| BtAlgorithm.CoveredSide | src/bt_algorithm.cpp:30-48 | the triplet made from a listed component is the side triplet of every vertex of that component, not only of its first vertex |
| BtAlgorithm.ReachedRoot | src/bt_algorithm.cpp:92-94 | the root state is reached |
| BtAlgorithm.ReachedChild | src/bt_algorithm.cpp:115-126 | a child state of a reached state is reached |
| BtAlgorithm.ReachedInClosed | src/bt_algorithm.cpp:96-127 | a set of states that holds the root and every child state of its members holds every reached state |
| BtAlgorithm.ReconstructStep | src/bt_algorithm.cpp:96-127 | one pop keeps the queue invariant: done and queued states are reached, the root is done or queued, every child of a done state is done or queued, and the fill is exactly the union of the done states' fill pairs |
| BtAlgorithm.ReconstructEnd | src/bt_algorithm.cpp:128 | with the queue empty, the fill is exactly the union of the fill pairs of the reached states |
| BtAlgorithm.QueueStored | src/bt_algorithm.cpp:124-126 | popping a state and queueing its children keeps every queued state stored at cost at most the bound |
| BtAlgorithm.ReconstructStart | src/bt_algorithm.cpp:92-94 | with only the root queued, nothing done and no fill, the queue invariant holds |
| CombEnum.Rule | src/comb_enum.cpp:15-24 | the marker rule of both searches: a marked vertex stays marked, one already at the current pass keeps it, and an unmarked vertex becomes 1 exactly when visited |
| CombEnum.Dfs2 | src/comb_enum.cpp:15-24 | visits exactly the unmarked vertices reachable from x through unmarked vertices, marks them 1, and raises every separator marker 2 next to them to 3 |
| CombEnum.Dfs1 | src/comb_enum.cpp:36-48 | visits exactly the component of x outside the marked vertices and returns how many markers strictly between 1 and it were raised to it |
| CombEnum.SearchFindsComponent | src/comb_enum.cpp:15-24 | when the marks outside the search are exactly S, the visited vertices are the component of x in G − S |
| CombEnum.Dfs2Meaning | src/comb_enum.cpp:28-33 | after the search from x, every other separator vertex carries 3 exactly when it is a neighbour of x's component |
| CombEnum.AllRaised | src/comb_enum.cpp:30-32 | true exactly when every listed vertex other than x carries 3 |
| CombEnum.MarkSeparator | src/comb_enum.cpp:27-28 | a fresh marker array with 2 on the separator and 0 elsewhere |
| CombEnum.Extend2 | src/comb_enum.cpp:26-34 | true exactly when every PMC vertex is a neighbour of x's component of G − PMC |
| CombEnum.FullSearch | src/comb_enum.cpp:57-62 | the raised count is the size of the component's neighbourhood, at most the size of sep (the assertion at line 60), and equal to it exactly when a full component is found |
| CombEnum.FullComponentExists | src/comb_enum.cpp:50-65 | true exactly when the separator has no repeats and G − sep has a component whose neighbourhood is the whole separator |
| CombEnum.MarkOthers | src/comb_enum.cpp:71-76 | clears the markers and puts 2 on the PMC vertices other than x |
| CombEnum.LinkFrom | src/comb_enum.cpp:71-82 | true exactly when every other PMC vertex is a neighbour of x's component of G − (PMC − {x}) |
| CombEnum.IsPmc | src/comb_enum.cpp:67-85 | true exactly when there is no full component and every PMC vertex is linked to every other |
| CombEnum.IsPmcCharacterised | src/comb_enum.cpp:67-85 | that test is exactly the characterisation of a potential maximal clique: no full component and every pair adjacent or sharing a component neighbourhood |
| CombEnum.KeptMembers | src/comb_enum.cpp:90-99 | the kept cliques are exactly the old ones without a full component and the old ones with a full component extended by x when x extends them |
| CombEnum.KeepOld | src/comb_enum.cpp:89-99 | computes the kept cliques in order |
| CombEnum.Advance | src/comb_enum.cpp:111 | moves the pointer over exactly the old separators lexicographically below the current one |
| CombEnum.Picked | src/comb_enum.cpp:119-125 | the entries of the second separator that lie in the component and not in the first |
| CombEnum.Pick | src/comb_enum.cpp:118-125 | the separator followed by the picked entries |
| CombEnum.TryComponent | src/comb_enum.cpp:116-134 | a component that contributes a new vertex has its sorted candidate tried, and the candidate is checked once and kept exactly when it passes the test |
| CombEnum.TryComponents | src/comb_enum.cpp:116-134 | every component of the separator has been tried against the second separator |
| CombEnum.TryCandidates | src/comb_enum.cpp:115-135 | every pair of second separator and component has been tried |
| CombEnum.GrowStep | src/comb_enum.cpp:104-110 | appends the separator plus x exactly when x extends it and the result has no full component |
| CombEnum.ExpandSeparator | src/comb_enum.cpp:102-135 | handles one new separator: grows it when allowed, skips old separators, and otherwise tries all candidates; stops exactly when a separator not holding x leaves at most one component (the assertion at line 114) |
| CombEnum.OneMoreVertex | src/comb_enum.cpp:87-138 | the kept old cliques come first; after them come only grown separators and checked candidates that pass the PMC test; every separator x can grow by is grown; every candidate from a new separator, a second separator and a component is checked exactly once and kept when it passes; stops only when some separator leaves at most one component |
| CombEnum.AddSeparators | src/comb_enum.cpp:150-158 | appends the sorted neighbourhood of every component of G − block that is not yet listed, keeping the list duplicate-free, in step with the seen set, and made of minimal separators when every component of G − block has a minimal separator as neighbourhood |
| CombEnum.CloseSeparator | src/comb_enum.cpp:162-177 | for every x of the separator, the neighbourhoods of the components of G − (separator + N(x)) become listed, and every listed entry stays a minimal separator |
| CombEnum.SeedSeparators | src/comb_enum.cpp:146-159 | for every non-isolated vertex, the neighbourhoods of the components of G − N[v] are listed, each a sorted component neighbourhood and a minimal separator, without duplicates |
| CombEnum.FindMinSeps | src/comb_enum.cpp:142-181 | a strictly sorted list of sorted minimal separators of G that holds all seeds, and, when no bound cut the loop short, is closed under the x-step for every listed separator |
| CombEnum.FoundSeparators | src/comb_enum.cpp:160-180 | the separators found are minimal separators and component neighbourhoods, hold the seeds, and are closed when the bound did not stop the loop |
| CombEnum.AddPrefixEdges | src/comb_enum.cpp:197-201 | the prefix graph gains exactly the edges from order[i] to earlier vertices |
| CombEnum.SortEach | src/comb_enum.cpp:206-208 | each clique sorted, with the same length and members |
| CombEnum.Reversed | src/comb_enum.cpp:187 | the reverse of a sequence, keeping a permutation a permutation |
| CombEnum.AddVertex | src/comb_enum.cpp:196-209 | one round keeps the loop invariant: the prefix graph holds exactly the edges among the first i + 1 vertices, and the cliques are strictly sorted, each sorted, inside the prefix and a potential maximal clique of the prefix graph; it stops only where the source asserts (line 202), when the grown prefix graph is not connected apart from isolated vertices, since the round over minimal separators never stops early |
| CombEnum.Pmcs | src/comb_enum.cpp:183-212 | none for an empty graph; stops for a graph that is neither connected nor isolated (the assertion at line 185); a single vertex gives [[0]]; otherwise a strictly sorted list of sorted vertex lists, each a potential maximal clique of G; it finishes on every graph that is connected apart from isolated vertices, so it stops exactly on the others |
| CombEnum.MinimalNotFew | src/comb_enum.cpp:113-114 | a minimal separator leaves at least two components, the count the source asserts |
| CombEnum.SeparatorsSplit | src/comb_enum.cpp:101-114 | no separator in a list of minimal separators leaves fewer than two components, so the round never stops at the assertion |
| CombEnum.NeighbourComp | src/graph.cpp:61-68 | a vertex with a neighbour lies in a component with more than one vertex |
| CombEnum.CompNeighbour | src/graph.cpp:61-68 | a vertex in a component with more than one vertex has a neighbour |
| CombEnum.ClosedHoldsNeighbours | src/comb_enum.cpp:185 | in a graph connected apart from isolated vertices, a set closed under adjacency that holds one vertex with a neighbour holds them all |
| CombEnum.ReversedPositions | src/comb_enum.cpp:186-191 | the reversed MCS order puts the vertex at MCS position t at position n - 1 - t |
| CombEnum.LaterUnattached | src/mcs.cpp:12-46 | when the vertex at a position of the reversed MCS order has no earlier neighbour, no later vertex has one either, since MCS picks a vertex with the most numbered neighbours |
| CombEnum.McsRestart | src/mcs.cpp:12-46 | such a vertex comes right after a set of vertices closed under adjacency |
| CombEnum.YoungerJoined | src/comb_enum.cpp:196-201 | a vertex with an earlier neighbour is joined, through the prefix, to each earlier vertex that has a neighbour |
| CombEnum.JoinedStart | src/comb_enum.cpp:193 | the one-vertex prefix is joined |
| CombEnum.JoinedThrough | src/comb_enum.cpp:196-201 | adding a vertex with an earlier neighbour keeps the prefix's vertices with neighbours joined |
| CombEnum.JoinedRestart | src/comb_enum.cpp:196-201 | adding a vertex with no earlier neighbour after a closed prefix leaves it the only vertex with a neighbour, joined to itself |
| CombEnum.JoinedIsolated | src/comb_enum.cpp:196-201 | adding a vertex without neighbours keeps the prefix joined |
| CombEnum.JoinedUnattached | src/comb_enum.cpp:196-201 | adding a vertex with no earlier neighbour to the reversed MCS order keeps the vertices with neighbours among the first i + 1 joined |
| CombEnum.PrefixReach | src/comb_enum.cpp:186-201 | in the reversed MCS order of a graph connected apart from isolated vertices, the vertices with neighbours among the first i + 1 are joined by paths through them |
| CombEnum.PrefixPath | src/comb_enum.cpp:197-201 | a path of G through the first i + 1 vertices is a path of the prefix graph |
| CombEnum.PrefixPair | src/comb_enum.cpp:202 | two vertices in non-trivial components of the prefix graph share one |
| CombEnum.PrefixConnected | src/comb_enum.cpp:202 | every prefix graph is connected apart from isolated vertices, the property the source asserts before each round |
| CombEnum.Dfs2Neighbour | src/comb_enum.cpp:17-22 | handling one more neighbour keeps the search invariant of dfs2: reachable unmarked vertices get 1 and touched separator vertices 3 |
| CombEnum.Dfs1Neighbour | src/comb_enum.cpp:38-45 | handling one more neighbour keeps the search invariant of dfs1, and the count equals the markers raised to the iteration so far |
| CombEnum.SeedBlock | src/comb_enum.cpp:147-157 | every component of G − N[v] has a minimal separator as its neighbourhood |
| CombEnum.CloseBlock | src/comb_enum.cpp:162-176 | for a minimal separator S and x in S, every component of G − (S + N(x)) has a minimal separator as its neighbourhood |
| CombEnum.CoveredIsPmc | src/comb_enum.cpp:67-85 | a set with no full component whose every pair is adjacent or shares a component neighbourhood is a potential maximal clique |
| CombEnum.NewVertexPairs | src/comb_enum.cpp:94-97 | when x extends P, every pair of P + x that involves x is adjacent or shares a component neighbourhood of G − (P + x) |
| CombEnum.OldPairs | src/comb_enum.cpp:93-97 | when the grown graph adds only edges at the new vertex x, every pair of an old potential maximal clique P stays covered in P + x |
| CombEnum.ExtendedPmc | src/comb_enum.cpp:93-97 | an old potential maximal clique P that x extends in the grown graph gives the potential maximal clique P + x |
| CombEnum.GrownPmc | src/comb_enum.cpp:104-109 | a minimal separator S that x extends, when S + x has no full component, gives the potential maximal clique S + x |
| CombEnum.SeparatorPairs | src/comb_enum.cpp:104-109 | every pair of a minimal separator S shares the neighbourhood of a full component of G − (S + x) that avoids x |
| CombEnum.KeptPmc | src/comb_enum.cpp:90-98 | an old clique kept unchanged (no full component in the grown graph) or kept with x (extended by x) is a potential maximal clique of the grown graph |
| CombEnum.StepSound | src/comb_enum.cpp:87-138 | every clique one step puts out is a potential maximal clique of the grown graph: kept cliques, grown separators and candidates that pass the test |
| CombEnum.PrefixAddsEdges | src/comb_enum.cpp:196-201 | going from the prefix graph before order[i] to the one with it adds only edges at order[i], which had none before |
| CombEnum.RoundSound | src/comb_enum.cpp:196-204 | when the cliques of the previous round are potential maximal cliques of the previous prefix graph, those of this round are potential maximal cliques of the grown prefix graph |
| CombEnum.KeptIsPmc | src/comb_enum.cpp:90-98 | every clique kept from the previous round is a potential maximal clique of the grown graph |
| CombEnum.NewIsPmc | src/comb_enum.cpp:104-133 | a grown separator or a candidate that passes the PMC test is a potential maximal clique of the grown graph |
| SetCover.IndexIn | src/setcover.cpp:96-107 | the position a universe element is renamed to is an index of the universe holding that element |
| SetCover.IndexOfEntry | src/setcover.cpp:96-99 | in a strictly increasing universe the position of its k-th element is k, so renaming is injective |
| SetCover.RestrictMembers | src/setcover.cpp:100-107 | a set restricted to the universe holds exactly the positions p whose universe element lies in the original set |
| SetCover.RestrictAll | src/setcover.cpp:100-115 | restricting every set keeps their number and restricts each one in place |
| SetCover.NonEmptyMembers | src/setcover.cpp:108-114 | dropping the empty restrictions keeps exactly the non-empty ones |
| SetCover.RestrictedSets | src/setcover.cpp:116-122 | the restricted sets after sort-and-unique are strictly increasing in lexicographic order and are exactly the non-empty restrictions |
| SetCover.RestrictionsFrom | src/setcover.cpp:100-115 | a set is a kept restriction exactly when it is the non-empty restriction of some input set |
| SetCover.CoveredSomewhere | src/setcover.cpp:100-122 | a universe position occurs in some restricted set exactly when its element occurs in some input set |
| SetCover.OccPositive | src/setcover.cpp:123-130 | an element's occurrence count is positive exactly when some set holds it |
| SetCover.OccSnoc | src/setcover.cpp:123-130 | counting over one more set adds that set's multiplicity of the element |
| SetCover.FewDistinct | src/setcover.cpp:93-99 | a repetition-free list of elements below m has at most m entries |
| SetCover.ElementBound | src/setcover.cpp:13-19 | the marker array size is at least 1, exceeds every element of every set, and is exactly one more than the largest element when there is one |
| SetCover.MarkUniverse | src/setcover.cpp:96-99 | the fresh generation mark is set exactly on the universe's elements, other marks are unchanged, and each universe element records its position |
| SetCover.IsIncreasing | src/setcover.cpp:109-112 | the check succeeds exactly when the restricted set is strictly increasing |
| SetCover.RestrictOne | src/setcover.cpp:102-107 | the positions collected for one set are exactly its restriction to the universe |
| SetCover.RestrictStep | src/setcover.cpp:100-115 | keeping or skipping one restriction extends the kept prefix to the next input set |
| SetCover.RestrictSets | src/setcover.cpp:100-115 | fails exactly when some restriction is not strictly increasing, and otherwise its first m slots are the non-empty restrictions in input order |
| SetCover.RestrictedBelow | src/setcover.cpp:116-122 | every kept restricted set is non-empty and its positions are below the universe size |
| SetCover.CountSets | src/setcover.cpp:123-130 | each position's counter equals the number of kept sets that contain it |
| SetCover.AllCounted | src/setcover.cpp:131-132 | the check succeeds exactly when every universe position occurs in some set |
| SetCover.PairLessOrder | src/setcover.cpp:133-135 | the (count, position) comparison used to sort is a strict total order |
| SetCover.RankByCount | src/setcover.cpp:131-139 | the (count, position) pairs are sorted, each rank's pair carries its position's count, the renaming is a bijection on the positions, and every where-list is emptied |
| SetCover.SortedPairs | src/setcover.cpp:133-139 | a strictly sorted copy of the (count, position) pairs has one entry per position, each with its own count |
| SetCover.RenameSets | src/setcover.cpp:140-146 | every set is renamed through the rank map and re-sorted, the where-lists list exactly the sets containing each element, and each where-list is as long as its element's count |
| SetCover.WhereAt | src/setcover.cpp:140-146 | a set index occurs in an element's where-list exactly when that set (among the first i) contains the element |
| SetCover.WhereListsIntro | src/setcover.cpp:140-146 | the where-list property holds when it holds row by row |
| SetCover.WhereStep | src/setcover.cpp:140-146 | appending one renamed set to the where-lists keeps them exact and their lengths equal to the counts |
| SetCover.RenamedStep | src/setcover.cpp:140-146 | renaming one more set keeps the prefix of renamed sets consistent with the rank map |
| SetCover.RenameOne | src/setcover.cpp:141-144 | a set is renamed element-wise through the rank map and its index is appended to exactly the where-lists of its renamed elements |
| SetCover.SuffixFrom | src/setcover.cpp:149-155 | the distance from the end of a set to an element is positive exactly when the set holds it, and then points at the element's first occurrence |
| SetCover.InsertByKey | src/setcover.cpp:160-163 | inserting a set index into a where-list adds exactly that index to its multiset |
| SetCover.InsertByKeySorted | src/setcover.cpp:160-163 | inserting into a list ordered by descending priority keeps it ordered |
| SetCover.InsertFront | src/setcover.cpp:160-163 | an index of higher priority than the head may be placed first |
| SetCover.InsertBehind | src/setcover.cpp:160-163 | an index not above the head goes behind it without breaking the order |
| SetCover.SortByKey | src/setcover.cpp:160-163 | sorting a where-list by priority keeps it a permutation and orders it by descending priority |
| SetCover.PrioritiesAt | src/setcover.cpp:147-158 | each set in an element's where-list gets as priority the number of its elements from that element onward |
| SetCover.SortedByPriority | src/setcover.cpp:147-163 | sorting by the stored priorities orders the where-list by the element's priority in each set |
| SetCover.WhereListsSame | src/setcover.cpp:160-163 | a where-list can be replaced by any permutation of itself without losing exactness |
| SetCover.OrderChoices | src/setcover.cpp:147-164 | every where-list becomes a permutation of itself ordered by descending priority, so the where-lists stay exact |
| SetCover.ImprovedTrans | src/setcover.cpp:41-85 | two successive improvements of the incumbent compose to one |
| SetCover.CoveredExtend | src/setcover.cpp:62-76 | choosing a set holding element i extends coverage of the first i elements to the first i+1 |
| SetCover.SubListShorter | src/setcover.cpp:41-85 | a repetition-free sublist is no longer than its superlist and strictly shorter if it misses one entry |
| SetCover.SettlesKept | src/setcover.cpp:42-54 | once a cover is settled by the incumbent, later improvements keep it settled |
| SetCover.SettledAtEnd | src/setcover.cpp:42-54 | a complete non-empty selection settles every candidate cover extending it |
| SetCover.CandidateLonger | src/setcover.cpp:62-76 | any cover extending the current selection that misses no where-list of the first uncovered element contains one of its sets and is longer than the selection |
| SetCover.SettledOnAll | src/setcover.cpp:62-81 | settling every choice in the where-list of the first uncovered element settles every candidate cover |
| SetCover.StopSettles | src/setcover.cpp:65-67 | each break condition of the try loop already settles every remaining candidate |
| SetCover.TriedSettles | src/setcover.cpp:62-81 | trying one more choice extends the settled part of the where-list by that choice |
| SetCover.BlockedSettles | src/setcover.cpp:68 | a choice already blocked needs no search: the settled part still grows by it |
| SetCover.AllCoveredIff | src/setcover.cpp:123-133 | every universe position occurs in some restricted set exactly when every universe element lies in some input set |
| SetCover.RestrictedIncreasing | src/setcover.cpp:109-122 | when every restriction is increasing, so is every kept restricted set |
| SetCover.UniverseShape | src/setcover.cpp:94 | the sorted, deduplicated non-empty universe is strictly increasing, below the bound and of size between 1 and the bound |
| SetCover.LoadedShape | src/setcover.cpp:100-122 | every loaded set is strictly increasing and below the universe size |
| SetCover.CoverBack | src/setcover.cpp:136-146 | a cover of the renamed sets is a cover of the restricted sets |
| SetCover.CoverForward | src/setcover.cpp:136-146 | a cover of the restricted sets is a cover of the renamed sets |
| SetCover.BuildIndex | src/setcover.cpp:123-164 | fails exactly when some universe position occurs in no set, and otherwise builds a bijective renaming and exact where-lists |
| SetCover.Setcover.constructor | src/setcover.cpp:11-39 | keeps the sets and sizes the marker array to one more than the largest element |
| SetCover.Setcover.AnySelected | src/setcover.cpp:55-61 | reports exactly whether some set of the where-list is already selected |
| SetCover.Setcover.Go | src/setcover.cpp:41-85 | restores the selection and blocking state, only improves the incumbent, and afterwards every cover extending the selection within the bound is settled by the incumbent |
| SetCover.Setcover.Branch | src/setcover.cpp:55-85 | the same promise as Go for an element not yet covered |
| SetCover.Setcover.TryNext | src/setcover.cpp:62-81 | one pass of the try loop keeps the loop invariant for one more where-list entry |
| SetCover.Setcover.TryChoice | src/setcover.cpp:69-80 | selecting one set, recursing and unselecting leaves it blocked and settles every candidate cover containing it |
| SetCover.Setcover.Choose | src/setcover.cpp:69-70 | appends the set to the current cover and marks it selected |
| SetCover.Setcover.Unchoose | src/setcover.cpp:72-73 | removes the last set from the current cover and unmarks it |
| SetCover.Setcover.Block | src/setcover.cpp:74-75 | forbids the set and pushes it on the blocked stack |
| SetCover.Setcover.Unblock | src/setcover.cpp:77-80 | pops the blocked stack back to its saved size, so exactly the sets left on it stay forbidden |
| SetCover.Setcover.Solve | src/setcover.cpp:88-173 | returns the empty cover for an empty universe, aborts exactly when a source assertion would fail, and otherwise returns either -1 (no cover within the upper bound) or a cover within the bound no longer than any cover, or not longer than the acceptable size |
| SetCover.Setcover.SolveSorted | src/setcover.cpp:96-173 | on the sorted universe, aborts exactly when a restriction is not increasing or a position is uncovered, and otherwise finds the best cover as Solve |
| SetCover.Setcover.SearchRestricted | src/setcover.cpp:123-171 | on the loaded sets, aborts exactly when a position is uncovered and otherwise finds the best cover |
| SetCover.Setcover.LoadSets | src/setcover.cpp:96-122 | succeeds exactly when every restriction is increasing and then loads exactly the restricted sets |
| SetCover.Setcover.Load | src/setcover.cpp:96-122 | installs the marks, positions and loaded sets |
| SetCover.Setcover.Start | src/setcover.cpp:90-93 | starts a new generation and records the acceptable size and upper bound |
| SetCover.Setcover.IndexSets | src/setcover.cpp:123-164 | fails exactly when a position is uncovered and otherwise installs an exact index of the loaded sets |
| SetCover.Setcover.Install | src/setcover.cpp:123-164 | installs the counters, ranking, renamed sets, where-lists and priorities |
| SetCover.Setcover.ClearCover | src/setcover.cpp:166-167 | empties the incumbent and the current selection |
| SetCover.Setcover.SearchAll | src/setcover.cpp:165-171 | the incumbent is -1 or a cover within the bound, and any cover within the bound is settled by it |
| SetCover.Setcover.ClearSelection | src/setcover.cpp:165 | unselects exactly the first m sets and leaves the others |
| SetCover.Setcover.SearchFromStart | src/setcover.cpp:166-171 | runs the search from element 0 and turns an empty incumbent into -1, with the same promise as SearchAll |
| SetCover.Setcover.SetOpt | src/setcover.cpp:169-171 | records the given incumbent |
| Cardinality.Count | src/cardinality_constraint_builder.cpp:207-238 | the number of true literals of a list under an assignment is at most its length |
| Cardinality.CountAppend | src/cardinality_constraint_builder.cpp:230-237 | counting true literals is additive over concatenation, as the tree's split of the input range is |
| Cardinality.CountSplit | src/cardinality_constraint_builder.cpp:231-233 | the count over a node's range is the sum of the counts over its two halves |
| Cardinality.CountOne | src/cardinality_constraint_builder.cpp:222-229 | a one-input range with count at least one has that input true |
| Cardinality.LoggedHolds | src/cardinality_constraint_builder.cpp:259 | every clause handed to the solver holds in every model of the solver's clauses |
| Cardinality.LoggedGrows | src/cardinality_constraint_builder.cpp:259 | clauses once handed to the solver stay handed to it as more are added |
| Cardinality.ClauseFires | src/cardinality_constraint_builder.cpp:259 | the clause "not left[a] or not right[b] or node[a+b]" forces node[a+b] in any model where left[a] and right[b] hold |
| Cardinality.Combine | src/cardinality_constraint_builder.cpp:253-260 | count a of the left child and count b of the right child force count a+b of the parent |
| Cardinality.Upward | src/cardinality_constraint_builder.cpp:217-260 | in every model of the clauses, when at least x inputs of a built node's range are true (x within the built size), the node's count literal x is true |
| Cardinality.TotalizerBound | src/cardinality_constraint_builder.cpp:192-260 | once built up to the current size, output k being false in a model of the clauses means at most k inputs are true |
| Cardinality.UnderParent | src/cardinality_constraint_builder.cpp:232-233 | a node below a child of i is below i |
| Cardinality.UnderSiblings | src/cardinality_constraint_builder.cpp:232-233 | the subtrees of the two children of a node are disjoint |
| Cardinality.AgreeChild | src/cardinality_constraint_builder.cpp:232-233 | agreement on a node's subtree implies agreement on each child's subtree |
| Cardinality.LinkedGrows | src/cardinality_constraint_builder.cpp:253-260 | the upward links of a node stay logged as more clauses are added |
| Cardinality.BuiltFrame | src/cardinality_constraint_builder.cpp:217-238 | a built subtree stays built when other nodes, the clause log or the variable count grow |
| Cardinality.FreshFrame | src/cardinality_constraint_builder.cpp:221 | a subtree whose nodes are still empty stays so when other nodes change |
| Cardinality.FreshRoot | src/cardinality_constraint_builder.cpp:198-204 | right after initialisation every node below the root is empty |
| Cardinality.ReadyFrame | src/cardinality_constraint_builder.cpp:217-238 | a subtree ready to be built to a larger size stays ready when other nodes change |
| Cardinality.ReadyChildren | src/cardinality_constraint_builder.cpp:231-233 | a ready node has both children ready over their halves |
| Cardinality.ReadyLeaf | src/cardinality_constraint_builder.cpp:222-229 | a ready leaf is either empty or already holds [true, its input] |
| Cardinality.KeptSibling | src/cardinality_constraint_builder.cpp:232-233 | building one child leaves the sibling's subtree untouched |
| Cardinality.LeftStaysBuilt | src/cardinality_constraint_builder.cpp:232-233 | the left child stays built while the right child is built |
| Cardinality.ChildrenGrow | src/cardinality_constraint_builder.cpp:232-233 | building the children only extends their count lists |
| Cardinality.FrameCompose | src/cardinality_constraint_builder.cpp:232-233 | the nodes outside both children's subtrees are unchanged by building both |
| Cardinality.NodeReady | src/cardinality_constraint_builder.cpp:234-236 | after the children are built and the node extended, the node holds count literals 0..min(size, range) with count 0 true, all linked upward |
| Cardinality.LinkedExtend | src/cardinality_constraint_builder.cpp:234-236 | links up to the old size plus the links of the new counts give links up to the new size |
| Cardinality.LinkedStep | src/cardinality_constraint_builder.cpp:253-260 | logging the clauses of count x extends the links from x-1 to x |
| Cardinality.ResizeTwo | src/cardinality_constraint_builder.cpp:198 | resizing the node lists to 2 keeps the first two lists and pads with empty ones |
| Cardinality.TotalizerBuilder.constructor | src/cardinality_constraint_builder.cpp:191 | a fresh builder has current size -1, no nodes and no input |
| Cardinality.TotalizerBuilder.ValidGrows | src/cardinality_constraint_builder.cpp:207-238 | the builder stays valid while the solver only gains clauses and variables |
| Cardinality.TotalizerBuilder.Init | src/cardinality_constraint_builder.cpp:192-206 | an input of length at most 1 is returned as it is and sets the current size; otherwise one fresh variable per input becomes the output and the root's list is true followed by the outputs |
| Cardinality.TotalizerBuilder.BuildToSize | src/cardinality_constraint_builder.cpp:207-216 | aborts exactly when the size is outside 1..(size of input) or below the current size; otherwise keeps the outputs, keeps the tree built, and raises the current size to the requested one unless the input is trivial or already large enough |
| Cardinality.TotalizerBuilder.Extend | src/cardinality_constraint_builder.cpp:221 | adds empty node lists until node i exists and keeps the others |
| Cardinality.TotalizerBuilder.Build | src/cardinality_constraint_builder.cpp:217-238 | builds the subtree of node i over its input range up to the size, changing only nodes in that subtree and only extending their lists |
| Cardinality.TotalizerBuilder.BuildInner | src/cardinality_constraint_builder.cpp:230-237 | an inner node is built by building both children and then its counts up to the size |
| Cardinality.TotalizerBuilder.BuildChildren | src/cardinality_constraint_builder.cpp:231-233 | both children are built over their halves and nothing outside their subtrees changes |
| Cardinality.TotalizerBuilder.ChildrenKeep | src/cardinality_constraint_builder.cpp:231-233 | the node and everything outside its subtree keep their lists while the children are built |
| Cardinality.TotalizerBuilder.BuildNodes | src/cardinality_constraint_builder.cpp:234-236 | adds the count literals from the current size up to min(size, range) to node i, linked upward, and changes no other node |
| Cardinality.TotalizerBuilder.GrowNode | src/cardinality_constraint_builder.cpp:234-236 | the loop of BuildNode calls leaves node i with counts 0..top, count 0 true, all linked to its children |
| Cardinality.TotalizerBuilder.BuildNode | src/cardinality_constraint_builder.cpp:239-261 | the root keeps its list; another node gains true for count 0 or a fresh frozen variable; and for every split a+b = x within both children's lists the clause linking them to count x is logged |
| Cardinality.TotalizerBuilder.BuildLeaf | src/cardinality_constraint_builder.cpp:222-229 | a leaf's list becomes [true, its input] |
| NetworkValues.Rev | src/cardinality_constraint_builder.cpp:154-159 | the bit-reversed index of i is a block index below n |
| NetworkValues.RevTopBit | src/cardinality_constraint_builder.cpp:154-159 | reversing one more bit puts the old top bit at the bottom: indices below n double, the others double plus one |
| NetworkValues.RevRev | src/cardinality_constraint_builder.cpp:160-163 | bit reversal is its own inverse, so the swap loop is a permutation |
| NetworkValues.RevHalves | src/cardinality_constraint_builder.cpp:154-159 | even and odd indices reverse into the lower and upper half respectively |
| NetworkValues.PairBlocks | src/cardinality_constraint_builder.cpp:140-153 | the first comparators send a[i] and b[i] to their "or" and their "and" |
| NetworkValues.Permuted | src/cardinality_constraint_builder.cpp:154-164 | the swap loop leaves at block p the pair of block Rev(p) |
| NetworkValues.MergeStep | src/cardinality_constraint_builder.cpp:167-179 | the comparators of one block send v[j+1] and v[j+h] to "or" and "and" at positions 2j+1 and 2j+2 and keep the first and last entries |
| NetworkValues.StepPair | src/cardinality_constraint_builder.cpp:167-179 | the values at positions 2j+1 and 2j+2 after a merge step are the "or" and "and" of v[j+1] and v[j+h] |
| NetworkValues.Steps | src/cardinality_constraint_builder.cpp:166-180 | every block of a level gets its own merge step |
| NetworkValues.Level | src/cardinality_constraint_builder.cpp:166-180 | one merge level keeps the length |
| NetworkValues.LevelSnoc | src/cardinality_constraint_builder.cpp:166 | a level on an appended block is the level on the prefix followed by that block's merge step |
| NetworkValues.LevelFlat | src/cardinality_constraint_builder.cpp:166-180 | a level on the concatenated blocks is the concatenation of the blocks' merge steps |
| NetworkValues.Layers | src/cardinality_constraint_builder.cpp:165-181 | the merge levels of doubling width keep the length |
| NetworkValues.LayersFromAll | src/cardinality_constraint_builder.cpp:165-181 | running the levels bottom-up equals the recursive definition of the layered merger |
| NetworkValues.Merged | src/cardinality_constraint_builder.cpp:135-183 | the merger of two inputs of length n has 2n outputs |
| NetworkValues.MergedIs | src/cardinality_constraint_builder.cpp:135-183 | the merger is the levels of width 4 and up applied to the permuted comparator pairs |
| NetworkValues.MergedSorts | src/cardinality_constraint_builder.cpp:135-183 | merging two sorted inputs with ca and cb leading trues gives the sorted output with ca+cb leading trues |
| NetworkValues.MergedMany | src/cardinality_constraint_builder.cpp:165-181 | the levels turn the staged pairs of two sorted inputs into a sorted output with ca+cb trues |
| NetworkValues.PairsStaged | src/cardinality_constraint_builder.cpp:140-164 | the permuted comparator pairs of two sorted inputs are the blocks of two of the first stage, each sorted with its own count |
| NetworkValues.BlockStaged | src/cardinality_constraint_builder.cpp:167-179 | a merge step on two adjacent sorted blocks whose counts differ by at most two gives one sorted block with the summed count |
| NetworkValues.CountsNear | src/cardinality_constraint_builder.cpp:154-164 | adjacent blocks after the bit-reversal hold counts that differ by at most two, the first at least the second |
| NetworkValues.StepSorts | src/cardinality_constraint_builder.cpp:167-179 | a merge step on two sorted halves whose counts d and e satisfy e ≤ d ≤ e+2 sorts the block with d+e trues |
| NetworkValues.LevelStaged | src/cardinality_constraint_builder.cpp:166-180 | one level turns the staged blocks of width 2h into staged blocks of width 4h |
| NetworkValues.JoinStaged | src/cardinality_constraint_builder.cpp:166-180 | joining adjacent staged blocks and stepping them gives the next stage |
| NetworkValues.LayersStaged | src/cardinality_constraint_builder.cpp:165-181 | all remaining levels on a stage give one sorted output whose count is the two inputs' counts |
| NetworkValues.LastLevel | src/cardinality_constraint_builder.cpp:165-181 | the last level leaves one sorted block with the summed count |
| NetworkValues.CntSplit | src/cardinality_constraint_builder.cpp:154-159 | the count of trues in a residue class splits into the counts of its two refining classes |
| NetworkValues.CntNear | src/cardinality_constraint_builder.cpp:154-159 | of the two refining residue classes of a sorted input, the lower one has at most one more true |
| NetworkValues.CntAll | src/cardinality_constraint_builder.cpp:154-159 | the count over the class modulo 1 is the total count |
| NetworkValues.Ones | src/cardinality_constraint_builder.cpp:135-183 | the sorted truth vector of length n with c trues has entry k true exactly when k < c |
| NetworkValues.JoinPairs | src/cardinality_constraint_builder.cpp:166 | joining pairs of blocks halves their number and concatenates each pair |
| NetworkValues.FlatJoinPairs | src/cardinality_constraint_builder.cpp:166 | joining pairs of blocks does not change the flattened sequence |
| NetworkValues.FlatTwo | src/cardinality_constraint_builder.cpp:139-142 | flattening blocks of two puts block k/2's entry k%2 at position k, as c[2i] and c[2i+1] |
| CardinalityNetwork.ComparatorSorts | src/cardinality_constraint_builder.cpp:143-152 | in every model of a logged comparator, the upper output is the "or" and the lower output the "and" of its two inputs |
| CardinalityNetwork.ComparatorHolds | src/cardinality_constraint_builder.cpp:143-152 | each of the six comparator clauses holds in every model of the logged clauses |
| CardinalityNetwork.ComparatorClauses | src/cardinality_constraint_builder.cpp:143-152 | a comparator with both directions is six clauses |
| CardinalityNetwork.CompClausesLits | src/cardinality_constraint_builder.cpp:89-98 | the clauses of one comparator mention only its inputs and outputs and their negations |
| CardinalityNetwork.CompLitsKnown | src/cardinality_constraint_builder.cpp:89-98 | a comparator's clauses are over known literals or the undefined one, and are fully defined when all four literals are |
| CardinalityNetwork.ComparatorAppended | src/cardinality_constraint_builder.cpp:143-152 | appending a full comparator's clauses to the log logs the comparator |
| CardinalityNetwork.PowAbove | src/cardinality_constraint_builder.cpp:17-18 | the doubling loop yields the least power of two above k (or 1) |
| CardinalityNetwork.RoundUp | src/cardinality_constraint_builder.cpp:43-47 | padding by (m - x mod m) mod m makes the length a multiple of m |
| CardinalityNetwork.Complemented | src/cardinality_constraint_builder.cpp:37-39 | every input literal is negated in place |
| CardinalityNetwork.Reversal | src/cardinality_constraint_builder.cpp:155-159 | the bit loop computes the bit reversal of i |
| CardinalityNetwork.RevDouble | src/cardinality_constraint_builder.cpp:156-158 | one more step of the bit loop doubles the partial reversal and adds the next bit |
| CardinalityNetwork.SwapPairs | src/cardinality_constraint_builder.cpp:154-164 | the swap loop permutes the pairs so that pair p holds the original pair Rev(p), and leaves one pair unchanged |
| CardinalityNetwork.SwapStage | src/cardinality_constraint_builder.cpp:155-163 | one swap step permutes the sequence and extends the reversed prefix by one index |
| CardinalityNetwork.SwapStep | src/cardinality_constraint_builder.cpp:160-163 | swapping pair i with pair Rev(i) when i < Rev(i) extends the bit-reversal invariant to i+1 |
| CardinalityNetwork.PairValAt | src/cardinality_constraint_builder.cpp:140-164 | after the swap loop, in every model, pair p is the "or" and "and" of the inputs at Rev(p) |
| CardinalityNetwork.PairsVals | src/cardinality_constraint_builder.cpp:140-164 | the truth values after the pair stage are the bit-reversed comparator pairs of the inputs' values |
| CardinalityNetwork.StepLoggedSorts | src/cardinality_constraint_builder.cpp:167-179 | the logged comparators of a block make its values the merge step of the block's old values |
| CardinalityNetwork.LevelDoneStep | src/cardinality_constraint_builder.cpp:166-180 | finishing one more block extends the finished prefix of a level |
| CardinalityNetwork.BlockLogged | src/cardinality_constraint_builder.cpp:167-179 | the comparators of one block are logged and nothing outside the block changes |
| CardinalityNetwork.LayerLoggedAt | src/cardinality_constraint_builder.cpp:167-178 | comparator k of a layer links c[i+k+1] and c[i+k+h] to the k-th pair of fresh variables |
| CardinalityNetwork.BlockStep | src/cardinality_constraint_builder.cpp:166-180 | renaming a block's fresh outputs in place finishes the level up to the block's end |
| CardinalityNetwork.UptoAdvance | src/cardinality_constraint_builder.cpp:165 | one more level advances the prefix of levels by one width |
| CardinalityNetwork.UptoFinal | src/cardinality_constraint_builder.cpp:165-181 | after the last level the values are all the levels of width 4 and up on the start values |
| CardinalityNetwork.MergeDone | src/cardinality_constraint_builder.cpp:135-183 | in every model of the log, HMerge's output values are the merger of the inputs' values |
| CardinalityNetwork.SortDone | src/cardinality_constraint_builder.cpp:74-79 | merging two sorted halves gives, in every model, the sorted vector of the whole range's true count |
| CardinalityNetwork.OneSorted | src/cardinality_constraint_builder.cpp:70-71 | a single literal is sorted with its own count |
| CardinalityNetwork.MergedOnes | src/cardinality_constraint_builder.cpp:74-79 | merging the sorted vectors of counts ca and cb gives the sorted vector of ca+cb |
| CardinalityNetwork.SortedTail | src/cardinality_constraint_builder.cpp:19-31 | the padding literals are forced false and, in every model, the first (size of input) sorted outputs are the sorted vector of the input's count |
| CardinalityNetwork.NetworkDone | src/cardinality_constraint_builder.cpp:19-31 | the kept outputs of the padded network are sorted with the input's true count |
| CardinalityNetwork.PadsFalse | src/cardinality_constraint_builder.cpp:20-22 | padding literals forced false contribute nothing to the count |
| CardinalityNetwork.SortedOutputs | src/cardinality_constraint_builder.cpp:14-32 | EqualNetwork's output i is true exactly when more than i inputs are true, and the outputs are monotone |
| CardinalityNetwork.CardinalityNetworkBuilder.constructor | src/cardinality_constraint_builder.cpp:13 | a new builder has no allocated variables and free-variable index 0 |
| CardinalityNetwork.CardinalityNetworkBuilder.Var | src/cardinality_constraint_builder.cpp:184-189 | returns the id-th extra variable, allocating fresh solver variables for every missing id up to it and keeping the old ones |
| CardinalityNetwork.CardinalityNetworkBuilder.EmitChecked | src/cardinality_constraint_builder.cpp:90-97 | hands a clause to the solver exactly when every literal in it is defined |
| CardinalityNetwork.CardinalityNetworkBuilder.EmitAll | src/cardinality_constraint_builder.cpp:89-98 | hands all clauses to the solver exactly when all are defined |
| CardinalityNetwork.CardinalityNetworkBuilder.HMergePairs | src/cardinality_constraint_builder.cpp:140-153 | creates two fresh outputs per input pair and, with both directions, logs a comparator from a[i], b[i] to them |
| CardinalityNetwork.CardinalityNetworkBuilder.Compare | src/cardinality_constraint_builder.cpp:141-152 | two fresh variables become a comparator's outputs for p and q |
| CardinalityNetwork.CardinalityNetworkBuilder.HMergeLayers | src/cardinality_constraint_builder.cpp:165-181 | in every model the output values are all merge levels of width 4 and up applied to the input values; with two entries nothing is added |
| CardinalityNetwork.CardinalityNetworkBuilder.HMergeLevel | src/cardinality_constraint_builder.cpp:166-180 | in every model the output values are one merge level of the given width on the input values |
| CardinalityNetwork.CardinalityNetworkBuilder.HMergeFrom | src/cardinality_constraint_builder.cpp:166-180 | finishes the level from block i to the end |
| CardinalityNetwork.CardinalityNetworkBuilder.HMergeBlock | src/cardinality_constraint_builder.cpp:167-179 | finishes one block of a level and leaves the later entries untouched |
| CardinalityNetwork.CardinalityNetworkBuilder.HMergeLayer | src/cardinality_constraint_builder.cpp:167-178 | logs the comparators of one block on the next fresh variables |
| CardinalityNetwork.CardinalityNetworkBuilder.LayerComparator | src/cardinality_constraint_builder.cpp:168-177 | logs comparator j of a block |
| CardinalityNetwork.CardinalityNetworkBuilder.FreshBlock | src/cardinality_constraint_builder.cpp:179 | the inner entries of a block become the next fresh variables in order and the free-variable index advances past them |
| CardinalityNetwork.CardinalityNetworkBuilder.HMerge | src/cardinality_constraint_builder.cpp:135-183 | returns 2n fresh outputs and, with both directions, in every model of the log their values are the merger of the inputs' values; one pair gives one comparator |
| CardinalityNetwork.CardinalityNetworkBuilder.HSort | src/cardinality_constraint_builder.cpp:65-80 | fails exactly when the range is not a power of two of at least 2, and otherwise, with both directions, in every model the outputs are sorted with the range's true count |
| CardinalityNetwork.CardinalityNetworkBuilder.HSortMerge | src/cardinality_constraint_builder.cpp:75-79 | merging the sorted halves sorts the whole range |
| CardinalityNetwork.CardinalityNetworkBuilder.HSortPair | src/cardinality_constraint_builder.cpp:69-73 | two literals go through one comparator and come out sorted |
| CardinalityNetwork.CardinalityNetworkBuilder.SMergePairs | src/cardinality_constraint_builder.cpp:85-99 | the first stage of the simplified merger returns 2n outputs over known or undefined literals |
| CardinalityNetwork.CardinalityNetworkBuilder.SMerge | src/cardinality_constraint_builder.cpp:81-134 | on success returns n outputs over known or undefined literals |
| CardinalityNetwork.CardinalityNetworkBuilder.SMergeLayers | src/cardinality_constraint_builder.cpp:111-131 | on success the levels keep the length |
| CardinalityNetwork.CardinalityNetworkBuilder.SMergeLevel | src/cardinality_constraint_builder.cpp:113-130 | on success one level keeps the length |
| CardinalityNetwork.CardinalityNetworkBuilder.SMergeBlock | src/cardinality_constraint_builder.cpp:114-129 | on success one block keeps the length |
| CardinalityNetwork.CardinalityNetworkBuilder.EmitCompChecked | src/cardinality_constraint_builder.cpp:116-125 | emits one comparator's clauses, succeeding whenever all four literals are defined |
| CardinalityNetwork.CardinalityNetworkBuilder.EmitComparator | src/cardinality_constraint_builder.cpp:116-125 | on success the full comparator is logged |
| CardinalityNetwork.CardinalityNetworkBuilder.Card | src/cardinality_constraint_builder.cpp:52-64 | on success returns k outputs with k a power of two dividing the range; a range of exactly k succeeds exactly when k ≥ 2 is a power of two and then sorts, in every model, with the range's true count |
| CardinalityNetwork.CardinalityNetworkBuilder.EqualNetworkAsWritten | src/cardinality_constraint_builder.cpp:14-32 | aborts exactly when the input has at most one literal (the assertion at line 16 and HSort's at line 67); otherwise the outputs are sorted with the input's true count in every model |
| CardinalityNetwork.CardinalityNetworkBuilder.SortPadded | src/cardinality_constraint_builder.cpp:19-31 | pads to k, sorts, and keeps the first (size of input) outputs, forcing the rest false |
| CardinalityNetwork.CardinalityNetworkBuilder.PadFalse | src/cardinality_constraint_builder.cpp:19-23 | appends fresh literals, each forced false, until the length is k |
| CardinalityNetwork.CardinalityNetworkBuilder.DropFalse | src/cardinality_constraint_builder.cpp:27-30 | keeps the first n outputs and forces every dropped one false |
| CardinalityNetwork.CardinalityNetworkBuilder.EqualNetwork | src/cardinality_constraint_builder.cpp:14-32 | returns one output per input, the input itself when it has at most one literal, and in every model output i is true exactly when more than i inputs are true |
| CardinalityNetwork.CardinalityNetworkBuilder.EmitBounds | src/cardinality_constraint_builder.cpp:49-50 | on success output k-1 is asserted true and output k false |
| CardinalityNetwork.CardinalityNetworkBuilder.AddEqual | src/cardinality_constraint_builder.cpp:33-51 | aborts whenever k is outside 1..(size of input)-1; on success the bound is min(k, (size of input)-k), with the input complemented when that is smaller, and output k-1 is asserted true and output k false |
| PmcEncoding.Emit | src/enumerator.cpp:42 | hands one clause over known literals to the solver, appending exactly it to the log and changing nothing else |
| PmcEncoding.OthersSpec | src/enumerator.cpp:53-66 | the auxiliary literals of a vertex's row come from the other vertices only |
| PmcEncoding.UnselectedSeesSeparated | src/enumerator.cpp:53-66 | in every model of the full-component clauses, an unselected vertex i has a selected vertex j with c[i][j] false |
| PmcEncoding.PropagationHolds | src/enumerator.cpp:38-45 | in every model, c[i][w] true with w unselected makes c[i][ii] true for every other neighbour ii of w |
| PmcEncoding.PathConnects | src/enumerator.cpp:38-45 | in every model, a path from i through unselected vertices to a neighbour ii of its end forces c[i][ii] |
| PmcEncoding.SeparatedNotNeighbour | src/enumerator.cpp:38-45 | when c[r][j] is false for a selected j, j is not a neighbour of r's component outside the selection |
| PmcEncoding.ConnRowDefined | src/enumerator.cpp:24-36 | every off-diagonal connectivity literal is defined |
| PmcEncoding.ModelSelectionHasNoFullComponent | src/enumerator.cpp:37-67 | in every model of the basic encoding, the selected vertex set has no full component |
| PmcEncoding.NoFullComponentAt | src/enumerator.cpp:53-66 | the component of any unselected vertex misses some selected vertex among its neighbours |
| PmcEncoding.PairConnected | src/enumerator.cpp:47-51 | in every model, two selected vertices v < u have c[v][u] true |
| PmcEncoding.ModelSelectionPairsConnected | src/enumerator.cpp:47-51 | in every model, every two distinct selected vertices have their connectivity literal true |
| PmcEncoding.RowInstalled | src/enumerator.cpp:24-36 | installing row i (true on edges, fresh variables above the diagonal, mirrored below) extends the filled prefix of the connectivity matrix |
| PmcEncoding.ConnFilledShape | src/enumerator.cpp:24-36 | a fully filled connectivity matrix is symmetric, true on edges and known everywhere off the diagonal |
| PmcEncoding.NegatedSelection | src/enumerator.cpp:188-191 | the separator's clause part negates the selection literal of each separator vertex |
| PmcEncoding.CacheGrows | src/enumerator.cpp:174-199 | every cached separator variable keeps its logged clause as the log grows |
| PmcEncoding.BadSepMono | src/enumerator.cpp:136-144 | a superset of a bad separator is bad |
| PmcEncoding.MinimalBadSepSplits | src/enumerator.cpp:157-169 | an inclusion-minimal bad separator leaves two vertices in different components, so G − S has at least two components |
| PmcEncoding.CutFromsAll | src/enumerator.cpp:205-214 | the clauses for every pair between two components give the full cut |
| PmcEncoding.TrueCutFromsAll | src/enumerator.cpp:219-230 | the clauses for every broken pair between two components give the cut of the broken pairs |
| PmcEncoding.MinsepForced | src/enumerator.cpp:188-192 | in every model selecting all separator vertices, the separator variable is true |
| PmcEncoding.CutSeparatesSelection | src/enumerator.cpp:188-214 | in every model selecting the whole separator, no two vertices of different cut components are both selected |
| PmcEncoding.CutForbidsSplit | src/enumerator.cpp:188-214 | with all pairs between the components cut, no model selects the separator together with vertices of two components |
| PmcEncoding.NotPmcIsBadSep | src/enumerator.cpp:146-156 | in every model of the basic encoding, a selection that fails the PMC test is a bad separator for the model's connectivity values |
| PmcEncoding.RowsBlocked | src/enumerator.cpp:200-280 | blocking every row of component pairs blocks all of them |
| PmcEncoding.ComponentsBelow | src/enumerator.cpp:168 | the components of G − S are lists of vertices of the graph |
| PmcEncoding.WithoutAt | src/enumerator.cpp:158-161 | the candidate separator is the current one without its i-th vertex |
| PmcEncoding.BlockClause | src/enumerator.cpp:294-306 | the blocking clause has one literal per vertex: negated when selected in the model, positive otherwise |
| PmcEncoding.BlockClauseExcludes | src/enumerator.cpp:294-310 | an assignment satisfies the blocking clause exactly when it selects a different vertex set |
| PmcEncoding.LayerRowInstalled | src/enumerator.cpp:73-95 | installing one row of path-length layer j extends the filled prefix of that layer |
| PmcEncoding.FeedersSnoc | src/enumerator.cpp:113-116 | scanning one more neighbour adds its f literal unless it is i |
| PmcEncoding.BuildStepClause | src/enumerator.cpp:112-117 | the loop builds exactly the step clause: not cl[j][i][ii] or one of f[j-1][i][w] for the neighbours w ≠ i of ii |
| PmcEncoding.FeedersSpec | src/enumerator.cpp:113-116 | the step clause's feeders are exactly the f literals of the neighbours of ii other than i |
| PmcEncoding.StepClauseKnown | src/enumerator.cpp:112-117 | the step clause is over known literals |
| PmcEncoding.PathLiteralsKnown | src/enumerator.cpp:70-95 | every path-length literal is known to the solver |
| PmcEncoding.LinkedConnected | src/enumerator.cpp:107-120 | a link path through unselected vertices makes its ends connected with respect to the selection |
| PmcEncoding.LinkExtend | src/enumerator.cpp:107-120 | a link to w, unselected, extends to any neighbour of w |
| PmcEncoding.FirstLayerSound | src/enumerator.cpp:78-81 | a true layer-1 literal means the two vertices are adjacent |
| PmcEncoding.FirstLayerAdjacent | src/enumerator.cpp:78-81 | in the path encoding, layer 1 holds only edges |
| PmcEncoding.FreeSound | src/enumerator.cpp:90-92 | a true f literal forces its cl literal true and its vertex unselected |
| PmcEncoding.StepWitness | src/enumerator.cpp:107-120 | a true layer-j literal for a non-edge has a neighbour w of ii whose f literal of layer j-1 is true |
| PmcEncoding.StepBack | src/enumerator.cpp:90-120 | a true layer-j literal for a non-edge has an unselected neighbour w of ii with cl[j-1][i][w] true |
| PmcEncoding.LayerSound | src/enumerator.cpp:70-120 | in every model, a true layer-j literal links its two vertices through unselected vertices |
| PmcEncoding.FinalSound | src/enumerator.cpp:121-125 | in every model of the path encoding, c[a][b] true means a and b are connected with respect to the selection |
| PmcEncoding.PathPairsConnected | src/enumerator.cpp:47-51 | in every model of the path encoding, every two selected vertices are connected with respect to the selection |
| PmcEncoding.SelectedPairsTrue | src/enumerator.cpp:47-51 | in every model, the connectivity literal between two selected vertices is true |
| PmcEncoding.PathModelsPassTest | src/enumerator.cpp:17-126 | with the path-length encoding, every model's selection passes the PMC test |
| Enumerators.Enumerator.constructor | src/enumerator.cpp:128-134 | copies the graph, builds the basic encoding with one fresh frozen selection variable per vertex, adds the path-length encoding for encoding 4, and starts with no separator variables and zero counters |
| Enumerators.Enumerator.ValidGrows | src/enumerator.cpp:128-134 | the encoding stays valid while the solver only gains clauses, variables and frozen variables |
| Enumerators.Enumerator.BuildBasicEncoding | src/enumerator.cpp:17-68 | creates the selection variables first and logs the propagation, clique and full-component clauses |
| Enumerators.Enumerator.MakeSelectionVars | src/enumerator.cpp:19-22 | variable k+1 past the old count becomes vertex k's selection variable and is frozen; no clause is added |
| Enumerators.Enumerator.MakeConnectivityVars | src/enumerator.cpp:24-36 | the connectivity matrix is true on edges, a fresh variable on other pairs above the diagonal and mirrored below |
| Enumerators.Enumerator.ConnectivityRow | src/enumerator.cpp:25-35 | fills row i and extends the filled prefix of the matrix |
| Enumerators.Enumerator.AddPropagationClauses | src/enumerator.cpp:38-45 | logs "not c[i][ii] or x[ii] or c[i][iii]" for every ordered pair and every neighbour iii ≠ i of ii |
| Enumerators.Enumerator.PropagationFrom | src/enumerator.cpp:39-44 | logs the propagation clauses of row i |
| Enumerators.Enumerator.PropagationAt | src/enumerator.cpp:41-43 | logs the propagation clauses of the pair (i, ii) |
| Enumerators.Enumerator.AddCliqueClauses | src/enumerator.cpp:47-51 | logs "not x[i] or not x[ii] or c[i][ii]" for every pair i < ii |
| Enumerators.Enumerator.AddFullComponentClauses | src/enumerator.cpp:53-67 | logs, for every vertex, the full-component clause and its auxiliary clauses (with the third one under encoding 5) |
| Enumerators.Enumerator.FullComponentRow | src/enumerator.cpp:54-66 | logs vertex i's clause "x[i] or some auxiliary" and each auxiliary's definition |
| Enumerators.Enumerator.FullComponentCell | src/enumerator.cpp:57-64 | a fresh auxiliary implies x[ii] and not c[i][ii], and under encoding 5 is implied by them |
| Enumerators.Enumerator.BuildPathLengthEncoding | src/enumerator.cpp:70-126 | logs the layered path-length clauses so that c[i][ii] true requires a path of free vertices |
| Enumerators.Enumerator.PathLayers | src/enumerator.cpp:71-95 | creates the cl and f literals of all layers with their defining clauses |
| Enumerators.Enumerator.PathLayer | src/enumerator.cpp:74-94 | creates layer j: true on edges, false at layer 1, fresh above it, mirrored below the diagonal, each f literal defined |
| Enumerators.Enumerator.PathRow | src/enumerator.cpp:75-93 | fills row i of layer j and its f literals |
| Enumerators.Enumerator.FreeLiteral | src/enumerator.cpp:90-92 | a fresh f literal implies its cl literal and that its vertex is unselected |
| Enumerators.Enumerator.MonotoneClauses | src/enumerator.cpp:96-106 | every layer's cl and f literals imply those of the next layer |
| Enumerators.Enumerator.MonoLayerClauses | src/enumerator.cpp:97-105 | logs the monotonicity clauses of layer j |
| Enumerators.Enumerator.MonoRow | src/enumerator.cpp:98-104 | logs the monotonicity clauses of row i of layer j |
| Enumerators.Enumerator.StepClauses | src/enumerator.cpp:107-120 | logs the step clause of every non-edge in every layer from 2 |
| Enumerators.Enumerator.StepLayerClauses | src/enumerator.cpp:108-119 | logs the step clauses of layer j |
| Enumerators.Enumerator.StepRowClauses | src/enumerator.cpp:109-118 | logs the step clauses of row i of layer j |
| Enumerators.Enumerator.FinalClauses | src/enumerator.cpp:121-125 | logs that c[i][ii] implies the last layer's cl[i][ii] |
| Enumerators.Enumerator.IsBadSep | src/enumerator.cpp:136-144 | true exactly when some pair connected in the model is not connected in G − separator |
| Enumerators.Enumerator.ModelConnValues | src/enumerator.cpp:150-155 | reads the model's value of every off-diagonal connectivity literal |
| Enumerators.Enumerator.ShrinkSeparator | src/enumerator.cpp:157-166 | returns a sorted subset of the bad separator that is still bad and from which no vertex can be dropped |
| Enumerators.Enumerator.MinsepLiteral | src/enumerator.cpp:174-199 | returns the cached variable of a known separator without adding clauses; otherwise a fresh one, counted, frozen unless the encoding is 0 or 5, and linked back to the selection under encoding 5 |
| Enumerators.Enumerator.NewMinsepLiteral | src/enumerator.cpp:181-198 | the fresh separator variable is implied by selecting the whole separator |
| Enumerators.Enumerator.LinkMinsep | src/enumerator.cpp:194-198 | logs that the separator variable implies every separator vertex is selected |
| Enumerators.Enumerator.CutAll | src/enumerator.cpp:205-214 | logs "not m or not c[v][u]" for every v in A and u in B |
| Enumerators.Enumerator.CutAllFrom | src/enumerator.cpp:207-212 | logs the cut clauses from v to every vertex of B |
| Enumerators.Enumerator.CutTrue | src/enumerator.cpp:219-230 | logs the cut clause exactly for the pairs connected in the model |
| Enumerators.Enumerator.CutTrueFrom | src/enumerator.cpp:221-228 | logs the cut clauses from v for the pairs connected in the model |
| Enumerators.Enumerator.CutFirst | src/enumerator.cpp:235-252 | logs at most one cut clause, for a pair connected in the model, and none when the components are not broken |
| Enumerators.Enumerator.IsBroken | src/enumerator.cpp:259-268 | true exactly when some pair between the two components is connected in the model |
| Enumerators.Enumerator.CutPair | src/enumerator.cpp:200-284 | blocks one pair of components as the encoding demands |
| Enumerators.Enumerator.CutComponents | src/enumerator.cpp:200-284 | aborts exactly for an encoding outside 0, 1, 2, 3, 5 (the default branch's assertion), otherwise blocks every pair of components |
| Enumerators.Enumerator.MinimalSeparator | src/enumerator.cpp:146-169 | the separator is bad exactly when the check succeeds, which every non-PMC selection of a model makes it; then the shrunken separator is minimal and splits G into at least two components |
| Enumerators.Enumerator.ShrinkAndSplit | src/enumerator.cpp:157-169 | returns a minimal bad subset of the separator and at least two components of G minus it |
| Enumerators.Enumerator.ModelSelectionBad | src/enumerator.cpp:146-156 | the selection of a model that fails the PMC test is a bad separator for the model's connectivity values |
| Enumerators.Enumerator.SeparatorSplits | src/enumerator.cpp:168-169 | a minimal bad separator has at least two components |
| Enumerators.Enumerator.BlockBadSolution | src/enumerator.cpp:146-287 | succeeds exactly when the selection is a bad separator and the encoding is 0, 1, 2, 3 or 5; for a model's non-PMC selection that is exactly the encoding condition; then the separator is minimal, at least two components are blocked, and under encodings 0 and 5 no later model selects the separator with vertices of two components |
| Enumerators.Enumerator.BlockSeparator | src/enumerator.cpp:168-287 | aborts exactly for an unknown encoding, and otherwise caches the separator variable and blocks its components |
| Enumerators.Enumerator.SelectionOf | src/enumerator.cpp:294-306 | returns the model's blocking clause and its sorted set of selected vertices |
| Enumerators.Enumerator.GetPmc | src/enumerator.cpp:289-317 | a found result is a sorted PMC selected by a model of all earlier clauses and the assumptions, counted once and blocked so that no later model selects it again; otherwise it is empty; under encoding 4 it aborts only when out of fuel |
| Enumerators.Enumerator.CheckSelection | src/enumerator.cpp:307-315 | accepts exactly a PMC and then counts and blocks it; aborts exactly when a non-PMC meets an unknown encoding; under encoding 4 every selection is accepted |
| Enumerators.Enumerator.PathSelectionPasses | src/enumerator.cpp:70-126 | under encoding 4 every model's selection passes the PMC test |
| Enumerators.Enumerator.AcceptPmc | src/enumerator.cpp:307-311 | adds exactly the blocking clause for a selection that passes the PMC test, which is then a potential maximal clique |
| Enumerators.Enumerator.XVars | src/enumerator.cpp:319-321 | returns one frozen variable literal per vertex |
| Enumerators.Enumerator.DroppedStillMinimal | src/enumerator.cpp:157-166 | after a vertex is dropped from a bad separator, each earlier vertex whose removal gave no bad separator still gives none from the smaller set |
| Enumerators.Enumerator.DroppedShape | src/enumerator.cpp:159-160 | dropping one entry of an increasing vertex list keeps it increasing and in range and removes exactly that vertex |
| FixedSizeEnumerators.SizeFor | src/fixed_size_enumerator.cpp:33-40 | the number of network outputs assumed true: k clamped to 0..n |
| FixedSizeEnumerators.SizeAssumptions | src/fixed_size_enumerator.cpp:33-40 | output i is assumed positive below k and negated from k on |
| FixedSizeEnumerators.AssumptionsMean | src/fixed_size_enumerator.cpp:33-40 | an assignment satisfies all assumptions exactly when the first k outputs are true and the rest false |
| FixedSizeEnumerators.CountedIffAssumed | src/fixed_size_enumerator.cpp:33-40 | for sorted outputs with c trues, the assumptions hold exactly when c is k clamped to 0..n |
| FixedSizeEnumerators.CountSelected | src/fixed_size_enumerator.cpp:33-40 | the number of true selection literals is the number of selected vertices |
| FixedSizeEnumerators.NetworkBounds | src/fixed_size_enumerator.cpp:15-17 | with the sorting network, every model under the assumptions selects exactly k clamped to 0..n vertices |
| FixedSizeEnumerators.TotalizerBounds | src/fixed_size_enumerator.cpp:18-19 | with the totalizer built past k, every model under the assumptions selects at most k vertices |
| FixedSizeEnumerators.BuildForSizeAsWritten | src/fixed_size_enumerator.cpp:30-32 | the call BuildToSize(k+1) aborts exactly outside 0 ≤ k < n with k+1 at least the current size, so in particular whenever k ≥ n |
| FixedSizeEnumerators.BuildForSize | src/fixed_size_enumerator.cpp:30-32 | skips the build when k ≥ n; otherwise aborts exactly as BuildToSize(k+1) would and afterwards output k is built |
| FixedSizeEnumerators.CollectPmcs | src/fixed_size_enumerator.cpp:41-51 | on success returns distinct PMCs, each sorted, non-empty and selected by a model of the clauses before the call that satisfies the assumptions |
| FixedSizeEnumerators.NextPmc | src/fixed_size_enumerator.cpp:44 | a non-empty result is a fresh PMC selected by a model of the earlier clauses and blocked by the last added clause |
| FixedSizeEnumerators.ListedSnoc | src/fixed_size_enumerator.cpp:49 | appending a PMC not yet listed adds exactly it to the listed set |
| FixedSizeEnumerators.CollectedStep | src/fixed_size_enumerator.cpp:43-51 | one more fresh PMC keeps the collected list distinct and shrinks the set of possible vertex lists not yet found |
| FixedSizeEnumerators.PmcsDiffer | src/enumerator.cpp:294-311 | a model of a logged blocking clause selects a different set than the blocked model |
| FixedSizeEnumerators.FoundSize | src/fixed_size_enumerator.cpp:41-51 | a found PMC's size is the number of true selection literals in its model |
| FixedSizeEnumerators.SizesFound | src/fixed_size_enumerator.cpp:29-53 | every PMC found under the size assumptions has at most k vertices, and exactly k clamped to 0..n with the sorting network |
| FixedSizeEnumerators.FixedSizeEnumerator.constructor | src/fixed_size_enumerator.cpp:13-27 | builds the PMC encoding, a sorting network (encoding 0) or totalizer (encoding 1) over the selection variables, and freezes its outputs |
| FixedSizeEnumerators.FixedSizeEnumerator.ValidGrows | src/fixed_size_enumerator.cpp:13-27 | the enumerator stays valid while the solver only gains clauses and variables |
| FixedSizeEnumerators.FixedSizeEnumerator.Prepare | src/fixed_size_enumerator.cpp:30-32 | with the totalizer, aborts exactly when k < n and BuildToSize(k+1) would fail, and otherwise has output k built; for k ≥ n it uses the corrected BuildForSize and returns Done where the program aborts (Findings row 2) |
| FixedSizeEnumerators.FixedSizeEnumerator.SizeBound | src/fixed_size_enumerator.cpp:29-40 | every model under the size assumptions selects at most k vertices, and exactly k clamped to 0..n with the sorting network |
| FixedSizeEnumerators.FixedSizeEnumerator.AllPmcs | src/fixed_size_enumerator.cpp:29-53 | on success returns distinct sorted PMCs, each of at most k vertices, and exactly k clamped to 0..n with the sorting network |
| FixedSizeEnumerators.NewFixedSizeEnumerator | src/fixed_size_enumerator.cpp:13-27 | aborts exactly for a cardinality encoding other than 0 or 1 (the assertion at line 21) and otherwise builds the enumerator |
| FixedSizeEnumerators.BuildConstraint | src/fixed_size_enumerator.cpp:15-22 | the network's outputs are one variable per vertex, counting the selection in every model (encoding 0) or forming the totalizer's outputs (encoding 1) |
| FixedSizeEnumerators.FreezeAll | src/fixed_size_enumerator.cpp:24-26 | every output variable is frozen |
| FixedSizeEnumerators.BoundedGrows | src/fixed_size_enumerator.cpp:41-51 | the size bound of the assumptions survives the blocking clauses the loop adds |
| FixedSizeEnumerators.CountingGrows | src/fixed_size_enumerator.cpp:41-51 | the sorting network keeps counting the selection after more clauses are added |
| FixedSizeHyperEnumerators.EdgeVars | src/fixed_size_hyper_enumerator.cpp:16-24 | allocates one fresh variable per hyperedge, in order, and lists for each vertex exactly the hyperedges containing it |
| FixedSizeHyperEnumerators.EdgeLits | src/fixed_size_hyper_enumerator.cpp:28-30 | the literals of the hyperedges containing a vertex, in the incidence order |
| FixedSizeHyperEnumerators.CoverClause | src/fixed_size_hyper_enumerator.cpp:26-30 | the clause has the negated vertex literal plus one literal per incident hyperedge |
| FixedSizeHyperEnumerators.CoverClauseMeans | src/fixed_size_hyper_enumerator.cpp:26-31 | the clause holds trivially for an unselected vertex, and for a selected one exactly when some incident hyperedge is chosen |
| FixedSizeHyperEnumerators.AddCoverClauses | src/fixed_size_hyper_enumerator.cpp:25-32 | the solver only gains clauses, and the cover clause of every vertex is among them |
| FixedSizeHyperEnumerators.CoverClausesCover | src/fixed_size_hyper_enumerator.cpp:25-32 | once every cover clause is logged, each model covers every selected vertex by a chosen hyperedge containing it |
| FixedSizeHyperEnumerators.CoveringGrows | src/fixed_size_hyper_enumerator.cpp:61-69 | the covering promise survives the blocking clauses the loop adds |
| FixedSizeHyperEnumerators.AddCoverage | src/fixed_size_hyper_enumerator.cpp:16-32 | after the hyperedge variables and cover clauses are added, every model covers each selected vertex by a chosen hyperedge |
| FixedSizeHyperEnumerators.CoversFound | src/fixed_size_hyper_enumerator.cpp:47-71 | every PMC found under the size assumptions is covered by at most k hyperedges, and by exactly k clamped to 0..m with the sorting network |
| FixedSizeHyperEnumerators.EncodeCover | src/fixed_size_hyper_enumerator.cpp:16-44 | adds the cover clauses and a sorting network (encoding 0) or totalizer (encoding 1) over the hyperedge variables, and freezes the outputs |
| FixedSizeHyperEnumerators.FixedSizeHyperEnumerator.ValidGrows | src/fixed_size_hyper_enumerator.cpp:14-45 | the enumerator stays valid while the solver only gains clauses and variables |
| FixedSizeHyperEnumerators.FixedSizeHyperEnumerator.constructor | src/fixed_size_hyper_enumerator.cpp:14-45 | builds the PMC encoding of the primal graph, the hyperedge cover clauses and the cardinality constraint over the hyperedges, with frozen outputs |
| FixedSizeHyperEnumerators.FixedSizeHyperEnumerator.Prepare | src/fixed_size_hyper_enumerator.cpp:48-50 | with the totalizer, aborts exactly when k < m and BuildToSize(k+1) would fail, and otherwise has output k built; for k ≥ m it uses the corrected BuildForSize and returns Done where the program's unconditional BuildToSize(k+1) aborts (Findings row 3) |
| FixedSizeHyperEnumerators.FixedSizeHyperEnumerator.SizeBound | src/fixed_size_hyper_enumerator.cpp:47-58 | every model under the size assumptions chooses at most k hyperedges, and exactly k clamped to 0..m with the sorting network |
| FixedSizeHyperEnumerators.FixedSizeHyperEnumerator.AllPmcs | src/fixed_size_hyper_enumerator.cpp:47-71 | on success returns distinct sorted PMCs of the primal graph, each coverable by at most k hyperedges (exactly k clamped to 0..m with the sorting network); under the totalizer it goes on for k ≥ m, where the program aborts (Findings row 3) |
| FixedSizeHyperEnumerators.NewFixedSizeHyperEnumerator | src/fixed_size_hyper_enumerator.cpp:14-45 | aborts exactly for a cardinality encoding other than 0 or 1 (the assertion at line 39) and otherwise builds the enumerator |
| FixedSizeHyperEnumerators.BuildCoverClause | src/fixed_size_hyper_enumerator.cpp:26-30 | builds exactly the cover clause of the vertex: its negated literal and then one literal per incident hyperedge, all known to the solver |
| IoFormats.WordLen | src/io.cpp:19 | the length of the leading run of non-whitespace characters, ended by whitespace or the end of the string |
| IoFormats.Tokens | src/io.cpp:25-33 | the whitespace-separated words of a string, as stream extraction reads them; every token is a non-empty word |
| IoFormats.WordLenIs | src/io.cpp:19 | WordLen is the unique prefix length with no whitespace before it and whitespace or the end at it |
| IoFormats.TokensOfWord | src/io.cpp:25-33 | a word followed by a space and a rest tokenizes to that word before the rest's tokens |
| IoFormats.TokensJoined | src/io.cpp:25-33 | tokenizing words joined by single spaces gives back exactly those words |
| IoFormats.FirstToken | src/io.cpp:54 | a line starting with one character and a space has that character as its first token |
| IoFormats.GetTokens | src/io.cpp:25-33 | returns exactly the tokens of the string |
| IoFormats.NumTokens | src/io.cpp:15-23 | returns exactly the number of tokens of the string |
| IoFormats.TokenEnd | src/io.cpp:19 | the extraction of one token from a non-space position returns that word and leaves the tokens of the rest |
| IoFormats.NoHeaderNoEdges | src/io.cpp:44-56 | without a header line no edge line is taken and the format is not detected |
| IoFormats.HeaderRestarts | src/io.cpp:44-51 | a later header discards every edge read before it |
| IoFormats.FormatGraph | src/io.cpp:44-56 | a header line followed by one edge line per edge |
| IoFormats.HeaderLineRead | src/io.cpp:44 | a "p tw n m" line is recognised as a header |
| IoFormats.EdgeLineRead | src/io.cpp:52-55 | an "e a b" line is an edge line, not a header, and its tokens are e, a and b |
| IoFormats.FormatThenParse | src/io.cpp:35-57 | reading a formatted graph gives back exactly its edge list, with the format detected |
| IoFormats.NameEndpoints | src/io.cpp:58 | the names listed are exactly the endpoints of the edges |
| IoFormats.SpaceCommas | src/io.cpp:70-72 | replaces every comma by a space and keeps every other character |
| IoFormats.AllNames | src/io.cpp:69-84 | the names listed are exactly the tokens of the lines after commas become spaces |
| IoFormats.Io.constructor | src/io.hpp:16-23 | a reader with no format detected and an empty vertex map |
| IoFormats.Io.ReadGraph | src/io.cpp:35-64 | aborts exactly on an empty line or an edge from a vertex to itself; otherwise maps the sorted distinct endpoint names to 0..n-1 and joins two vertices exactly when an edge line after the last header names them |
| IoFormats.Io.ReadHyperGraph | src/io.cpp:65-94 | maps the sorted distinct names to 0..n-1, gives one hyperedge per line holding exactly the names on it, and joins two distinct vertices exactly when some line names both |
| IoFormats.ScanLines | src/io.cpp:41-57 | aborts exactly on an empty line and otherwise returns the edges after the last header and whether a header was seen |
| IoFormats.BuildGraph | src/io.cpp:58-63 | aborts exactly on a self-loop and otherwise joins two vertices exactly when some edge names them |
| IoFormats.AddNamedEdge | src/io.cpp:61 | adds the ranked edge when its endpoints differ and refuses a self-loop |
| IoFormats.NamesJoinedStep | src/io.cpp:60-62 | one more edge joins two names exactly when the earlier edges or the new one do |
| IoFormats.BuildHyperGraph | src/io.cpp:84-93 | one hyperedge per name list holding exactly the ranks of its names, with the primal graph joining two distinct vertices exactly when some list holds both |
| IoFormats.AddRankedEdge | src/io.cpp:86-91 | the next hyperedge holds exactly the ranks of its names |
| IoFormats.Ranks | src/io.cpp:87-90 | maps each name to its position in the vertex map, and a position is listed exactly when its name is |
| IoFormats.SortedDistinct | src/io.cpp:58 | a strictly sorted vertex map has no duplicate names |

## Left out

Not modelled at all:

- The SAT solver wrappers (MiniSat, Glucose, MapleGlucose, IPASIR and CryptoMiniSat) are not modelled. `SatInterface.SatSolver` is an abstract oracle: `Solve` havocs its model, and a satisfiable answer promises only a model of the logged clauses under the assumptions. An unsatisfiable answer carries no promise, so no enumeration result claims completeness.
- The command-line driver in `solver.cpp` is not part of this model. This covers option parsing, the loop over sizes k that calls the fixed-size enumerators, timing and output.
- `staticset.hpp`, `mcs.hpp` and `id_set.hpp` are not part of this model.
  - The vertex map is a strictly sorted sequence (`Utils.MakeStaticSet`). `Utils.Rank` is its index.
  - The BT algorithm's id sets are the sorted vectors themselves.
  - In the reader, the rank of a name comes from `Utils.IndexOf` on the sorted, duplicate-free vertex map, in place of a binary search.
- `Log`, `Warning`, timers and `EnumeratorStats` bookkeeping beyond the counters in the enumerator are left out. They are output only.
- Reading input is modelled over a sequence of lines. `std::getline` splitting of the stream is not modelled.
- In `ReadGraph`, the local flag that tracks a detected format always equals the `dimacs` field, so it is not a separate variable.
- Machine integer widths are not modelled. All counters are unbounded integers.

Fuel bounds where the source loops or recurses without a bound. A run that exhausts its fuel returns `Abort`.

- Fuel bounds the recursion of these treewidth preprocessing members, where the source recurses on atoms and on the graph left after eliminations:
  - `TreewidthPreprocessing.TreewidthPreprocessor.Preprocess`
  - `TreewidthPreprocessing.TreewidthPreprocessor.Preprocess1`
  - `TreewidthPreprocessing.TreewidthPreprocessor.PreprocessAtoms`
  - `TreewidthPreprocessing.TreewidthPreprocessor.PreprocessAtom`
  - `TreewidthPreprocessing.TreewidthPreprocessor.Preprocess2`
- `HypertreewidthPreprocessing.HypertreewidthPreprocessor.Preprocess`, `HypertreewidthPreprocessing.HypertreewidthPreprocessor.Preprocess1` and `HypertreewidthPreprocessing.HypertreewidthPreprocessor.PreprocessAtoms` are bounded by fuel in the same way.
- `HypertreewidthPreprocessing.HypertreewidthPreprocessor.Preprocess1` and `HypertreewidthPreprocessing.HypertreewidthPreprocessor.Preprocess` tie a single atom to a connected primal graph, but whether a connected primal graph is split is only as determined as `McsOrders.Atoms`' contract, which does not say at which maximal clique points an atom is cut off.
- `HypertreewidthPreprocessing.HypertreewidthPreprocessor.Preprocess1` and `HypertreewidthPreprocessing.HypertreewidthPreprocessor.PreprocessAtoms` give their recursion trace only on success. After an abort, which comes from running out of fuel or from `McsOrders.Atoms`, they promise only that every instance appended so far is an induced part of the input, not which atoms were reached.
- `BtAlgorithm.Reconstruct` bounds its queue of states by fuel, and so does `BtAlgorithm.Solve`, which calls it. Termination would need the fact that each child separator lies inside its PMC.
- `Enumerators.Enumerator.GetPmc` bounds the `while(true)` loop at `enumerator.cpp:290` by fuel.
- `FixedSizeEnumerators.CollectPmcs`, `FixedSizeEnumerators.FixedSizeEnumerator.AllPmcs` and `FixedSizeHyperEnumerators.FixedSizeHyperEnumerator.AllPmcs` bound the `while(true)` loops at `fixed_size_enumerator.cpp:41` and `fixed_size_hyper_enumerator.cpp:61` by fuel.

Source assertions turned into preconditions:

- `Graphs.Graph.AddEdge` requires v ≠ u. The source asserts it.
- `Graphs.Graph.RemoveEdge` requires the edge to be present. The source asserts it.
- `SatInterface.ProcessClause` requires every literal to be defined. The source asserts this after its early returns.
- `TreewidthPreprocessing.GreedyDegree2` requires every degree to be at least 2. The source asserts it.
- `TreewidthPreprocessing.TreewidthPreprocessor.MapBack` requires as many solutions as instances. The source asserts it at `src/treewidthpreprocessor.cpp:150`.
- `HyperGraphs.HyperGraph.FromEdges` requires every vertex of a hyperedge to lie in some hyperedge with at least two vertices. The source's vertex map would otherwise miss it.
- `HyperGraphs.HyperGraph.FromEdges` also requires every hyperedge to be free of repeated labels. In the source a repeated label makes the primal edge list contain a pair (v, v), and `Graph::AddEdge` asserts v ≠ u at `src/graph.cpp:72`.
- `FixedSizeEnumerators.FixedSizeEnumerator.constructor` and `FixedSizeHyperEnumerators.FixedSizeHyperEnumerator.constructor` require cardinality encoding 0 or 1. For any other value, the wrappers `FixedSizeEnumerators.NewFixedSizeEnumerator` and `FixedSizeHyperEnumerators.NewFixedSizeHyperEnumerator` return `Abort`. This is where the source reaches `assert(0)`.
- `TreewidthPreprocessing.TreewidthPreprocessor.PreprocessAtom` returns `Abort` when the atom's minimum degree is below 2. The source asserts that this cannot happen, at `src/treewidthpreprocessor.cpp:119`.

Stand-ins for library code:

- `BtAlgorithm.SortBySize` is a stable insertion sort standing in for `std::sort`, which is not stable. Only the order by size and the permutation are promised, so the relative order of equal-sized triplets may differ from the program's.
- `SetCover.SortByKey` and `SetCover.InsertByKey` are insertion sorts standing in for `std::sort` by heuristic value. Ties may be ordered differently.
- `CardinalityNetwork.CardinalityNetworkBuilder.HMergeFrom` is written as recursion where the source loops over the merge levels.

Contracts weaker than the source's promise:

- `CardinalityNetwork.CardinalityNetworkBuilder.EqualNetwork` returns an input of length 0 or 1 unchanged, where the program aborts. See "## Findings".
- `FixedSizeEnumerators.FixedSizeEnumerator.Prepare` and `FixedSizeEnumerators.FixedSizeEnumerator.AllPmcs` return `Done` under the totalizer for k ≥ n, where the program aborts. See "## Findings", row 2.
- `FixedSizeHyperEnumerators.FixedSizeHyperEnumerator.Prepare` and `FixedSizeHyperEnumerators.FixedSizeHyperEnumerator.AllPmcs` return `Done` under the totalizer for k ≥ m, where the program aborts. See "## Findings", row 3.
- `CardinalityNetwork.CardinalityNetworkBuilder.SMerge` promises lengths, variables and the growth of the clause log, but not that its outputs count the true inputs.
- `CardinalityNetwork.CardinalityNetworkBuilder.SMergeLayers`, `CardinalityNetwork.CardinalityNetworkBuilder.SMergeLevel`, `CardinalityNetwork.CardinalityNetworkBuilder.SMergeBlock` and `CardinalityNetwork.CardinalityNetworkBuilder.SMergePairs` are the simplified merge's layers. Their contracts are likewise about shape only, with no counting.
- `CardinalityNetwork.CardinalityNetworkBuilder.AddEqual` is characterised one way. It aborts whenever k is outside 1..n-1, and on success the asserted bound and unit clauses are stated. Its further aborts come from `SMerge` emitting undefined literals, and their absence is not proved. Nothing else in the repository calls it.
- `McsOrders.McsM` states the choice rule, the flags and the fill edges produced by each step. It does not prove that the fill is a minimal triangulation, that is, the characterisation of MCS-M fill by paths through lower-labelled vertices.
- `McsOrders.Atoms` states that the components cover the vertices and that each atom is a separator plus a component found by search. It does not prove that the component part of a separator atom is a connected component of G minus S (the MCS-M atom theorem).
- `McsOrders.Atoms` characterises `Abort` exactly (the number of remainder components differs from one) but does not prove it unreachable for n ≥ 1. It is reachable for the empty graph.
- `TreewidthPreprocessing.TreewidthPreprocessor.MapBack` promises that an abort on well-formed fill means some MCS order of the filled graph refutes the claimed width. The converse needs the fact that every MCS order of a chordal graph gives the same width, which is not proved.
- `TreewidthPreprocessing.TreewidthPreprocessor.Preprocess1` and `TreewidthPreprocessing.TreewidthPreprocessor.PreprocessAtoms` promise only that instances and fill are extended and the lower bound grows. That the instances' treewidth equals the input's is not proved.
- `BtAlgorithm.Reconstruct` and `BtAlgorithm.Solve` state which edges the fill holds, as a set. They do not state the breadth-first order of the fill or how often a pair shared by several states is repeated.
- `CombEnum.Pmcs` promises that every result is a PMC, with sorted, distinct vertices. It does not prove that every PMC of the graph is listed. It does prove that `Pmcs` finishes on every graph that is connected apart from isolated vertices.
- `Enumerators.Enumerator.GetPmc`, `FixedSizeEnumerators.CollectPmcs` and the fixed-size `AllPmcs` methods do not promise that every PMC is found, because the oracle's unsatisfiable answer carries no promise.

## Findings

| source | as written | input that shows it | evidently intended | confidence | as-written member | corrected member |
|---|---|---|---|---|---|---|
| src/cardinality_constraint_builder.cpp:14-32 | `EqualNetwork` on a single input takes k = 1 and, through `Card`, calls `HSort` with length 1, which asserts a length of at least 2 (line 67). An empty input fails the assertion at line 16. | a one-vertex graph given to the fixed-size enumerator with cardinality encoding 0, which builds the network over its single selection variable | an input of length 0 or 1 is already sorted and is returned as it is | not executed | CardinalityNetwork.CardinalityNetworkBuilder.EqualNetworkAsWritten | CardinalityNetwork.CardinalityNetworkBuilder.EqualNetwork |
| src/fixed_size_enumerator.cpp:30-32 | under the totalizer, `AllPmcs(k)` calls `BuildToSize(k+1)`, which asserts that the size is at most the number of inputs (cardinality_constraint_builder.cpp:208), so the call for k = n aborts | a triangle (n = 3) with cardinality encoding 1 and a call for size k = 3 | for k ≥ n every selection already has at most k vertices, so nothing needs building | not executed | FixedSizeEnumerators.BuildForSizeAsWritten | FixedSizeEnumerators.BuildForSize |
| src/fixed_size_hyper_enumerator.cpp:48-50 | under the totalizer, the hypergraph `AllPmcs(k)` calls `tb_.BuildToSize(k+1)` with no test on k, and `BuildToSize` asserts that the size is at most the number of inputs, here the number m of hyperedges (cardinality_constraint_builder.cpp:208), so the call for k ≥ m aborts | a hypergraph with the single hyperedge {0, 1, 2}, cardinality encoding 1 and a call for size k = 1 | for k ≥ m every choice of hyperedges already has at most k of them, so nothing needs building | not executed | FixedSizeEnumerators.BuildForSizeAsWritten | FixedSizeEnumerators.BuildForSize |
