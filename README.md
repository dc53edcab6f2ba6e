# Adjacency-list graph store, depth-first search and cycle detection

A Dafny model of three C++ components of UnderstandAlgo and proofs about them.

- **Graph store** (`DerivedGraph`, `Structures/ADT/Graph.hpp`). A graph of kind `DAG` or `UDG`. Its state is a map from each vertex to the ordered list of its `(neighbour, weight)` entries.
  - Mutators: vertex insertion and removal, and edge insertion (with an optional cycle check and rollback in a DAG). Also one- or two-way edge insertion, edge removal, and construction from a list of triples.
  - Queries: vertex and edge counts, edge lookup, vertex listing and the adjacency cursors.
- **Depth-first search** (`DFSUtil` and `DFS`, `Algorithms/Searching/DFS/DFS.cpp`). A recursive walk that shares one `visited` map and explores neighbours in adjacency-list order.
- **Cycle detection** (`isCyclic` and `isCyclicUtil`, `Algorithms/GraphAlgorithms/IsCyclic.hpp`). A depth-first search that carries `visited` and `recursionStack` and reports a cycle on a back edge, that is, an edge into a vertex still on the recursion path.

Files:

- `adjacency.dfy` (module `Adjacency`) holds the vocabulary and the lemmas about it:
  - the adjacency map and the store's invariants (unique keys, no dangling entry, no two entries of one list to the same destination);
  - edges, walks, reachability and cycles;
  - the edge count (the sum of list lengths);
  - the adjacency each mutation produces: `AppendEdge`, `DropEdge`, `DropVertex`.
- `is_cyclic.dfy` (module `GraphAlgorithms`) holds the back-edge search. It is proved to return true exactly when some vertex reaches itself by a non-empty walk. The proof carries a ghost finishing order: every successor of a finished vertex finished before it.
- `graph.dfy` (module `Graph`) holds the class `DerivedGraph`. Its field `adj` is the adjacency map and its `const kind` is the graph kind. Each mutator returns a `Status`: `Ok`, or `Fail` with an error kind. The store itself throws a plain `std::runtime_error` on every failure path, and the tests check only that type; the five error kinds, and the order in which they are tested (`UnknownVertex` before `DuplicateEdge`, for instance), are this model's own names for those paths. On failure the adjacency is left exactly as it was, except in `AddDirectionalEdge`: when the reverse insertion fails, the first edge stays.
- `dfs.dfy` (module `Searching`) holds `DfsUtil` and `Dfs`. Each returns the visited set and the order in which the vertices were entered.
- `scenarios.dfy` (module `Scenarios`) replays the store's test cases as client methods over `DerivedGraph<int, int>`. Each method's postcondition is what the test asserts. They rest on one fact about integer labels: a graph whose edges all go upward is acyclic and accepts every new upward edge.

Two readings decide the model where the source is silent or off:

- `Graph.tpp` and `IsCyclic.tpp` hold the definitions this model is about, but their text is unavailable. The operations therefore follow the declarations in `Graph.hpp` and `IsCyclic.hpp` and the behaviour the tests assert:
  - `addEdge` fails with `UnknownVertex` if an endpoint is absent, then with `DuplicateEdge` if an entry for the pair exists.
  - Otherwise it appends the entry. In a `DAG` with `checkForCycle`, it then runs cycle detection over the whole graph and, on a cycle, removes the entry again and fails with `CycleViolation`.
  - `removeEdge` erases `v2` from `v1`'s list, failing with `UnknownEdge` if no such entry exists. It then also erases `v1` from `v2`'s list if an entry is there.
- `DFS.cpp:13-14` uses `*iter`, the whole `(neighbour, weight)` entry, as the key for `visited` and as the vertex to recurse into. The test at `test/DerivedGraphTesting.cpp:301` reads the neighbour as `iter->first`. The model uses the first component of the entry.

Acyclicity of a `DAG` is not an invariant of every state. `addEdge(..., false)` skips the check and can close a cycle. The model proves this instead:

- a checked insertion into a `DAG` is accepted exactly when the graph has no cycle and the destination does not already reach the source;
- an accepted checked insertion leaves the graph acyclic;
- both removals keep an acyclic graph acyclic;
- `FromEdges` into a `DAG` succeeds only with an acyclic result.

## Model

| member | source | states |
|---|---|---|
| Adjacency.IndexOfTarget | Structures/ADT/Graph.hpp:53 | the position of an entry for the target in a list, or -1 exactly when the list has no such entry |
| Adjacency.WithoutTarget | Structures/ADT/Graph.hpp:47 | erasing the entry for a target keeps every other destination and removes that one; it never invents an entry; with distinct destinations the list gets shorter by one exactly when the target was present |
| Adjacency.WithoutTargetKeepsOrder | Structures/ADT/Graph.hpp:47 | the entries that survive the erasure keep their relative order: any two of them occur in the original list in the same order |
| Adjacency.ReachesTrans | Algorithms/GraphAlgorithms/IsCyclic.hpp:10-11 | reachability composes, so a vertex on the recursion path reaches every vertex explored below it |
| Adjacency.BackEdgeCycle | Algorithms/GraphAlgorithms/IsCyclic.hpp:10-11 | an edge back to a vertex that reaches its source closes a cycle, so a back edge is evidence of a cycle |
| Adjacency.ReachClosed | Algorithms/Searching/DFS/DFS.cpp:20-25 | a vertex set containing the start and closed under successors contains every vertex the start reaches |
| Adjacency.NoEdgeNoCycle | Algorithms/GraphAlgorithms/IsCyclic.hpp:7-8 | a graph without edges has no cycle, so a graph of isolated vertices is acyclic |
| Adjacency.SubGraphCycle | Algorithms/GraphAlgorithms/IsCyclic.hpp:7-8 | a cycle among a subset of the edges is a cycle of the whole graph, so deleting edges cannot create one |
| Adjacency.EdgeCountNewVertex | Structures/ADT/Graph.hpp:38 | a new vertex with an empty list leaves the edge count unchanged |
| Adjacency.EdgeCountUpdate | Structures/ADT/Graph.hpp:51 | replacing one vertex's list changes the edge count by the difference of the list lengths |
| Adjacency.AppendEdgeEdges | Structures/ADT/Graph.hpp:42 | after appending (dst, w) to src's list the edges are the old ones plus src -> dst, with the vertex set unchanged |
| Adjacency.AppendEdgeWellFormed | Structures/ADT/Graph.hpp:42 | appending an entry for a new stored destination keeps keys unique, entries non-dangling and destinations distinct |
| Adjacency.AppendEdgeCount | Structures/ADT/Graph.hpp:42 | appending an entry raises the edge count by exactly one |
| Adjacency.AppendEdgeCycle | Structures/ADT/Graph.hpp:42 | adding src -> dst creates a cycle exactly when the graph already had one or dst already reaches src |
| Adjacency.DropEdgeEdges | Structures/ADT/Graph.hpp:47 | removing an edge erases exactly v1 -> v2 and v2 -> v1 and keeps every other edge and every vertex |
| Adjacency.DropEdgeWellFormed | Structures/ADT/Graph.hpp:47 | edge removal keeps the store's invariants |
| Adjacency.DropEdgeCount | Structures/ADT/Graph.hpp:47 | edge removal lowers the count by one, or by two when the reverse entry existed too (and is not the same self-loop) |
| Adjacency.DropVertexEdges | Structures/ADT/Graph.hpp:40 | vertex removal deletes the vertex and exactly the edges that start or end at it |
| Adjacency.DropVertexWellFormed | Structures/ADT/Graph.hpp:40 | vertex removal keeps the store's invariants |
| Adjacency.DropVertexCount | Structures/ADT/Graph.hpp:40 | vertex removal lowers the edge count by the vertex's out-degree plus its number of in-neighbours |
| GraphAlgorithms.FinishOrderedAcyclic | Algorithms/GraphAlgorithms/IsCyclic.hpp:7-8 | when every vertex has finished and each successor finished before its predecessor, no cycle exists, so a search that ends without a back edge is right to answer false |
| GraphAlgorithms.IsCyclicUtil | Algorithms/GraphAlgorithms/IsCyclic.hpp:10-11 | true only when a cycle exists; otherwise the vertex and everything it reaches become visited, the recursion path is restored, and every vertex visited but off the path has finished after all its successors |
| GraphAlgorithms.IsCyclic | Algorithms/GraphAlgorithms/IsCyclic.hpp:7-8 | true exactly when some vertex reaches itself by a non-empty walk |
| Graph.CheckedInsertionRejects | Structures/ADT/Graph.hpp:42 | a checked DAG insertion between stored vertices that have no entry yet fails with CycleViolation exactly when the graph has a cycle or dst reaches src; a self-loop is always rejected |
| Graph.CheckedInsertionKeepsAcyclic | Structures/ADT/Graph.hpp:42 | an accepted checked DAG insertion leaves the graph acyclic, adds one edge and makes src -> dst present |
| Graph.UndirectedDagInsertion | Structures/ADT/Graph.hpp:44-45 | in a checked DAG, once the first direction of an undirected insertion is accepted, the second is rejected as a cycle, and the first edge stays |
| Graph.EdgesOfStep | Structures/ADT/Graph.hpp:55 | inserting the pair of the next triple makes the edges exactly the pairs of the triples inserted so far |
| Graph.StoresTriplesStep | Structures/ADT/Graph.hpp:55 | appending the next triple's (destination, weight) entry keeps every earlier triple stored in its source's list and stores the new one |
| Graph.EntriesFromMembers | Structures/ADT/Graph.hpp:55 | the ordered entry list of a vertex, built from the triples, holds an entry exactly when some triple goes from that vertex with that destination and weight |
| Graph.ListsFollowStep | Structures/ADT/Graph.hpp:55 | appending the next triple's entry to its source's list keeps every list equal to the entries of the triples so far from its vertex, in triple order |
| Graph.EdgesOfFresh | Structures/ADT/Graph.hpp:55 | an accepted pair differs from every earlier pair |
| Graph.EdgesOfCycle | Structures/ADT/Graph.hpp:55 | a cycle in a graph whose edges are listed pairs is a cycle of the listed pairs |
| Graph.ListedCycleIsCycle | Structures/ADT/Graph.hpp:55 | a cycle of the listed pairs is a cycle of a graph whose edges are exactly those pairs |
| Graph.DerivedGraph.constructor | Structures/ADT/Graph.hpp:32 | a new graph of the given kind with no vertex |
| Graph.DerivedGraph.AddVertex | Structures/ADT/Graph.hpp:38 | a new vertex gets an empty list and the vertex count rises by one; an existing one fails with DuplicateVertex and nothing changes; the edge count never changes |
| Graph.DerivedGraph.RemoveVertex | Structures/ADT/Graph.hpp:40 | an absent vertex fails with UnknownVertex and nothing changes; otherwise every list is scanned and the result is DropVertex: one vertex fewer, the edge count down by out-degree plus in-neighbours, exactly the incident edges gone, acyclicity kept |
| Graph.EraseVertex | Structures/ADT/Graph.hpp:40 | the scan of removeVertex, which drops the vertex's own list and erases the entry pointing at it from every other list, yields exactly DropVertex of the input |
| Graph.DerivedGraph.AddEdge | Structures/ADT/Graph.hpp:42 | status and new adjacency are AddEdgeStatus and AddEdgeResult: UnknownVertex, then DuplicateEdge, then (checked DAG) CycleViolation with the append rolled back, else the entry appended; the edge count rises by one exactly on success |
| Graph.DerivedGraph.AddDirectionalEdge | Structures/ADT/Graph.hpp:44-45 | the first insertion's outcome when it fails or the edge is directed; otherwise the reverse insertion applied to the result of the first, whose edge stays even when the second fails |
| Graph.DerivedGraph.RemoveEdge | Structures/ADT/Graph.hpp:47 | UnknownVertex, then UnknownEdge, each with nothing changed; otherwise DropEdge, after which neither direction is present, the count falls by one or two, the vertices stay, and no edge or cycle appears |
| Graph.DerivedGraph.NumEdges | Structures/ADT/Graph.hpp:51 | the sum over all vertices of their list lengths |
| Graph.DerivedGraph.HasEdge | Structures/ADT/Graph.hpp:53 | true exactly when both vertices are stored and v1's list has an entry for v2; false, not an error, for an absent vertex |
| Graph.DerivedGraph.FromEdges | Structures/ADT/Graph.hpp:55 | a fresh graph whose vertices are exactly the triples' endpoints; it succeeds exactly when no pair repeats and (DAG) the pairs close no cycle, and then its edges are exactly the pairs, one each, every triple's (destination, weight) entry is stored in its source's list, each list holding exactly the entries of the triples from its vertex in the order the triples were given, acyclic for a DAG; DuplicateEdge means a repeated pair, CycleViolation a cycle of pairs in a DAG |
| Graph.DerivedGraph.AddEndpoints | Structures/ADT/Graph.hpp:55 | the first phase of construction inserts every endpoint once, each with an empty list |
| Graph.DerivedGraph.AddListedEdges | Structures/ADT/Graph.hpp:55 | the second phase inserts each triple in order with checking and stops at the first failure; on success every triple's (destination, weight) entry is stored in its source's list, and each list is exactly the entries of the triples from its vertex, in triple order; the failure's meaning is as for FromEdges |
| Graph.DerivedGraph.AddListedEdge | Structures/ADT/Graph.hpp:55 | one checked insertion of the i-th triple: on success the new adjacency is the old one with the triple's (destination, weight) entry appended to its source's list, so the edges are exactly the first i+1 pairs, all distinct, every one of those triples stored with its weight and each list following the first i+1 triples in order, acyclic for a DAG; DuplicateEdge means a repeated pair, CycleViolation a cycle of pairs in a DAG |
| Graph.DerivedGraph.GetVertices | Structures/ADT/Graph.hpp:57 | every stored vertex exactly once and nothing else |
| Graph.DerivedGraph.Adjacent | Structures/ADT/Graph.hpp:59-60 | the entries between the cursors: one per outgoing edge, each to a stored vertex, destinations distinct |
| Searching.TreeOrderedAppend | Algorithms/Searching/DFS/DFS.cpp:12-15 | the vertices entered by a recursive call, appended after their caller's, keep every vertex entered once and each entered along an edge from an earlier one |
| Searching.DfsUtil | Algorithms/Searching/DFS/DFS.cpp:7-17 | visited only grows and gains the vertex; the vertex is entered first and every vertex at most once; every vertex entered is reachable from it and was entered along an edge; every successor of an entered vertex ends up visited |
| Searching.Dfs | Algorithms/Searching/DFS/DFS.cpp:20-25 | from a fresh visited set: on return the visited vertices are exactly those reachable from start, each entered once, start first |
| Scenarios.AscendingAcyclic | test/DerivedGraphTesting.cpp:339-349 | in a graph whose edges all go upward, reachability only goes upward and there is no cycle |
| Scenarios.AscendingInsertion | test/DerivedGraphTesting.cpp:343-345 | a checked DAG insertion of a new upward edge is accepted and keeps the graph upward |
| Scenarios.AscendingListAcyclic | test/DerivedGraphTesting.cpp:244 | triples whose pairs all go upward close no cycle |
| Scenarios.CycleClosingRejected | test/DerivedGraphTesting.cpp:76-86 | 1 -> 2 and 2 -> 3 are accepted (count 1 after the first); 3 -> 1 fails with CycleViolation and the count stays 2 |
| Scenarios.SelfLoopRejected | test/DerivedGraphTesting.cpp:226-231 | the self-loop 1 -> 1 fails with CycleViolation and hasEdge(1, 1) is false afterwards (also lines 151-156) |
| Scenarios.HasEdgeDirected | test/DerivedGraphTesting.cpp:170-205 | after 1 -> 2, hasEdge(1, 2) holds, hasEdge(2, 1) does not, and queries naming the absent vertex 3 are false |
| Scenarios.InsertionErrors | test/DerivedGraphTesting.cpp:88-96 | edges naming an absent vertex fail with UnknownVertex at either end; a negative weight is accepted; a repeated vertex fails with DuplicateVertex and a repeated edge with DuplicateEdge (also lines 207-224) |
| Scenarios.RemovalErrors | test/DerivedGraphTesting.cpp:107-140 | removals on an empty graph fail with UnknownVertex; removing an absent edge between stored vertices fails with UnknownEdge and leaves 0 edges (also lines 306-312); a vertex removed once cannot be removed again; an edge whose source was removed cannot be removed |
| Scenarios.AbsentEndpointErrors | test/DerivedGraphTesting.cpp:314-322 | with 1 -> 2 stored, removing the absent vertex 3 and the edge 1 -> 3 both fail with UnknownVertex, and 2 vertices and the 1 edge remain |
| Scenarios.CountsFromEmpty | test/DerivedGraphTesting.cpp:47-61 | a fresh graph has 0 vertices and 0 edges (also lines 134-136); one added vertex makes 1 vertex, one added edge makes 1 edge |
| Scenarios.EdgeRemoved | test/DerivedGraphTesting.cpp:98-105 | removing the only edge 1 -> 2 succeeds and leaves 0 edges |
| Scenarios.AllVerticesRemoved | test/DerivedGraphTesting.cpp:186-194 | removing vertices 1 and 2 one after the other succeeds and leaves 0 vertices and 0 edges |
| Scenarios.SingleVertex | test/DerivedGraphTesting.cpp:63-74 | adding vertex 1 succeeds and makes 1 vertex, adding it again fails with DuplicateVertex, and removing it succeeds and leaves 0 vertices (also lines 117-122) |
| Scenarios.VerticesListed | test/DerivedGraphTesting.cpp:285-292 | getVertices of a graph holding 1 and 2 has exactly two entries, 1 and 2, so sorted it is [1, 2] |
| Scenarios.EdgeRemovedWithVertex | test/DerivedGraphTesting.cpp:142-149 | removing vertex 1 of 1 -> 2 succeeds and leaves 1 vertex and 0 edges |
| Scenarios.VertexRemovalCounts | test/DerivedGraphTesting.cpp:158-168 | removing vertex 1 of 1 -> 2 -> 3 leaves 2 vertices and the single edge 2 -> 3 |
| Scenarios.RemoveEdgeSequence | test/DerivedGraphTesting.cpp:324-337 | removing 2 -> 3 succeeds, removing it again fails with UnknownEdge, the vertex listing has exactly three entries, 1, 2 and 3 (so sorted it is [1, 2, 3]), and one edge is left |
| Scenarios.ListsThree | test/DerivedGraphTesting.cpp:333-335 | a duplicate-free listing of the vertex set {1, 2, 3} has exactly the three entries 1, 2 and 3 |
| Scenarios.TwoTriples | test/DerivedGraphTesting.cpp:242-247 | the triples (1, 2, 1), (2, 3, 2) have endpoints {1, 2, 3}, distinct pairs and no cycle |
| Scenarios.FromEdgesCounts | test/DerivedGraphTesting.cpp:242-247 | from_edges over those triples as a DAG succeeds with 3 vertices and 2 edges, and vertex 1's list holds (2, 1) and vertex 2's list holds (3, 2) |
| Scenarios.ListInTripleOrder | Structures/ADT/Graph.hpp:55 | from_edges over (1, 2, 7) then (1, 3, 8) succeeds, and vertex 1's list is exactly [(2, 7), (3, 8)], in the order given |
| Scenarios.AdjacentEntries | test/DerivedGraphTesting.cpp:294-304 | after 1 -> 2 with weight 1, the cursors of vertex 1 span exactly the entry (2, 1) |
| Scenarios.UndirectedInUdg | Structures/ADT/Graph.hpp:44-45 | an undirected insertion into a UDG succeeds and stores both directions |
| Scenarios.UndirectedInDag | Structures/ADT/Graph.hpp:44-45 | an undirected insertion into a checked DAG fails with CycleViolation but keeps the first direction |
| Scenarios.AddChainEdges | test/DerivedGraphTesting.cpp:343-345 | every chain edge i -> i + 1 is accepted under cycle checking and the result is the chain |
| Scenarios.BuildChain | test/DerivedGraphTesting.cpp:339-349 | n vertices and the n - 1 chain edges, all accepted, leaving an acyclic chain |
| Scenarios.StressChain | test/DerivedGraphTesting.cpp:339-349 | 5000 vertices, 4999 edges, with 0 -> 1 and 4998 -> 4999 present |
| Scenarios.ChainDropFront | test/DerivedGraphTesting.cpp:406-408 | the first vertex of a chain has no in-neighbour and one entry unless it is also the last; dropping it leaves the rest of the chain |
| Scenarios.RemoveChainPrefix | test/DerivedGraphTesting.cpp:406-408 | removing the first m vertices of an n-chain leaves n - m vertices and n - m - 1 edges |
| Scenarios.ChainPrefixRemoved | test/DerivedGraphTesting.cpp:398-411 | the 50000-chain without its first 25000 vertices has 25000 vertices and 24999 edges |
| Scenarios.DfsFromMiddle | Algorithms/Searching/DFS/DFS.cpp:20-25 | depth-first search from 2 in 1 -> 2 -> 3 visits exactly {2, 3} |

## Left out

- The abstract base `Graph` and its virtual dispatch (`Structures/ADT/Graph.hpp:12-23`): one concrete class is modelled.
- The default constructor (`Structures/ADT/Graph.hpp:31`) is only declared; its body is not available, so the kind it sets is unknown and it is not modelled. The copy and move constructors and assignments (`Structures/ADT/Graph.hpp:33-36`) are memory management and are not modelled; a copy would hold the same adjacency value.
- Graph.DerivedGraph.NumVertices: it has no contract of its own. It is the size of the map, and `AddVertex` and `RemoveVertex` state how it changes. The 32-bit `unsigned int` result is an unbounded `nat`; wrap-around past 2^32 - 1 vertices is not modelled.
- Graph.DerivedGraph.NumEdges: the 32-bit `unsigned int` result is an unbounded `nat`; wrap-around past 2^32 - 1 entries is not modelled.
- Graph.DerivedGraph.GetVertices: hash-map iteration order is not modelled. The result is some duplicate-free ordering of the vertex set, chosen nondeterministically.
- GraphAlgorithms.IsCyclic: the vertices are taken in an arbitrary order, standing for the hash-map iteration order. The answer is proved independent of that order.
- Graph.DerivedGraph.Adjacent: requires the vertex to be stored. The cursor accessors' default insertion of an empty list for a missing key is not modelled.
- Searching.Dfs: requires the start vertex to be stored, for the same reason.
- Searching.DfsUtil: neighbour order is stated only as tree order: each entered vertex after the first was entered along an edge from an earlier one. The stronger claim, that the entry order is exactly the pre-order of the lists in adjacency order, is not stated.
- The `visited` and `recursionStack` maps are vertex sets. A vertex maps to true exactly when it is in the set; the `false` entries that `operator[]` inserts on lookup are not observable.
- `DFS` returns nothing. The model returns the visited set and the entry order, which are what the traversal computes.
- Native recursion depth and stack exhaustion on long chains are not modelled.
- Concurrency and the visibility of the tentative edge between append and rollback are not modelled.
- Test harness parts not modelled:
  - timing and console output (`test/DerivedGraphTesting.cpp:375-391`);
  - the `srand`/`rand` randomised test (lines 256-283);
  - the million-vertex loops (lines 249-254 and 352-358).
- The copy and move tests (`test/DerivedGraphTesting.cpp:9-45`) exercise the copy and move operations, which are not modelled (see above).
- The remaining test cases are not replayed separately:
  - the string-vertex test (lines 233-240) is covered by the genericity of the model;
  - the chain of lines 361-370 (1000 vertices) and the counts asserted at lines 392-393 (100000 vertices, 99999 edges) are the chain of lines 339-349 at other sizes, which `Scenarios.BuildChain` states for every n.
- Scenarios.ChainPrefixRemoved: the chain is built with weight i on edge i -> i + 1, where the test at lines 398-411 uses weight 1; no stated count depends on the weights.
