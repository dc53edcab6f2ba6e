/**
 * Client scenarios over `DerivedGraph<int, int>` that replay the graph
 * store's test cases, each stating as its contract what the test asserts,
 * together with the facts about integer-labelled graphs they rest on: a graph
 * whose every edge goes from a smaller to a larger label has no cycle and
 * accepts every further upward edge.
 */
module Scenarios {
  import opened Adjacency
  import opened Graph
  import opened Searching

  /** Every edge goes from a smaller to a larger vertex label. */
  ghost predicate Ascending<E>(adj: Adj<int, E>) {
    forall a, b :: Edge(adj, a, b) ==> a < b
  }

  /** Along an ascending graph every walk of one or more steps climbs strictly. */
  lemma {:induction false} AscendingWalk<E>(adj: Adj<int, E>, p: seq<int>)
    requires Ascending(adj) && Path(adj, p)
    ensures p[0] <= p[|p| - 1]
    ensures |p| >= 2 ==> p[0] < p[|p| - 1]
    decreases |p|
  {
    if |p| >= 2 {
      assert Edge(adj, p[0], p[1]);
      PathTail(adj, p);
      AscendingWalk(adj, p[1..]);
    }
  }

  /** An ascending graph only reaches upward and so has no cycle. */
  lemma AscendingAcyclic<E>(adj: Adj<int, E>)
    requires Ascending(adj)
    ensures forall a, b :: Reaches(adj, a, b) ==> a <= b
    ensures !HasCycle(adj)
  {
    forall a, b | Reaches(adj, a, b) ensures a <= b {
      var p :| Path(adj, p) && p[0] == a && p[|p| - 1] == b;
      AscendingWalk(adj, p);
    }
    if HasCycle(adj) {
      var p :| Path(adj, p) && |p| >= 2 && p[0] == p[|p| - 1];
      AscendingWalk(adj, p);
      assert false;
    }
  }

  /**
   * A checked DAG insertion of a new upward edge between stored vertices
   * succeeds, and the graph stays ascending.
   */
  lemma AscendingInsertion<E>(adj: Adj<int, E>, src: int, dst: int, w: E)
    requires Ascending(adj) && src < dst && src in adj && dst in adj && !Edge(adj, src, dst)
    ensures AddEdgeStatus(adj, DAG, src, dst, w, true) == Ok
    ensures Ascending(AppendEdge(adj, src, dst, w))
  {
    AscendingAcyclic(adj);
    CheckedInsertionRejects(adj, src, dst, w);
    AppendEdgeEdges(adj, src, dst, w);
  }

  /** A list of triples whose every pair goes upward closes no cycle. */
  lemma AscendingListAcyclic<E>(edges: seq<(int, int, E)>)
    requires forall i :: 0 <= i < |edges| ==> edges[i].0 < edges[i].1
    ensures !ListedCycle(edges)
  {
    if ListedCycle(edges) {
      var p: seq<int> :| |p| >= 2 && p[0] == p[|p| - 1] &&
        forall k :: 0 <= k < |p| - 1 ==> Listed(edges, p[k], p[k + 1]);
      forall k | 0 <= k < |p| - 1 ensures p[k] < p[k + 1] {
        assert Listed(edges, p[k], p[k + 1]);
      }
      Climbs(p);
      assert false;
    }
  }

  /** A sequence that rises at every step ends above where it starts. */
  lemma {:induction false} Climbs(p: seq<int>)
    requires |p| >= 2 && forall k :: 0 <= k < |p| - 1 ==> p[k] < p[k + 1]
    ensures p[0] < p[|p| - 1]
    decreases |p|
  {
    if |p| > 2 {
      var q := p[1..];
      assert forall k :: 0 <= k < |q| ==> q[k] == p[k + 1];
      Climbs(q);
    }
  }

  /** In an ascending graph every in-neighbour of `v` is smaller than `v`. */
  lemma AscendingInNeighbours<E>(adj: Adj<int, E>, v: int)
    requires Ascending(adj)
    ensures forall u :: u in InNeighbours(adj, v) ==> u in adj && u < v
  {
    forall u | u in InNeighbours(adj, v) ensures u < v {
      assert Edge(adj, u, v);
    }
  }

  /** An empty DAG holding vertices 1 and 2 (the opening of most test cases). */
  method TwoVertices() returns (g: DerivedGraph<int, int>)
    ensures fresh(g) && g.Valid() && g.kind == DAG
    ensures g.adj == map[1 := [], 2 := []]
    ensures EdgeCount(g.adj) == 0 && Ascending(g.adj)
  {
    g := new DerivedGraph(DAG);
    var empty: Adj<int, int> := map[];
    assert EdgeCount(empty) == 0;
    var _ := g.AddVertex(1);
    var _ := g.AddVertex(2);
  }

  /** A checked DAG insertion of a new upward edge: it succeeds and appends the entry. */
  method AddUpward(g: DerivedGraph<int, int>, src: int, dst: int, w: int) returns (r: Status)
    requires g.Valid() && g.kind == DAG && Ascending(g.adj)
    requires src < dst && src in g.adj && dst in g.adj && !Edge(g.adj, src, dst)
    modifies g
    ensures r == Ok && g.Valid() && Ascending(g.adj)
    ensures g.adj == old(g.adj)[src := old(g.adj)[src] + [(dst, w)]]
    ensures EdgeCount(g.adj) == EdgeCount(old(g.adj)) + 1
  {
    AscendingInsertion(g.adj, src, dst, w);
    r := g.AddEdge(src, dst, w, true);
  }

  /** A new vertex with no entries keeps a graph ascending. */
  method AddIsolated(g: DerivedGraph<int, int>, v: int)
    requires g.Valid() && Ascending(g.adj) && v !in g.adj
    modifies g
    ensures g.Valid() && Ascending(g.adj)
    ensures g.adj == old(g.adj)[v := []]
    ensures EdgeCount(g.adj) == EdgeCount(old(g.adj))
  {
    var _ := g.AddVertex(v);
    assert forall a, b :: Edge(g.adj, a, b) ==> Edge(old(g.adj), a, b);
  }

  /** The DAG 1 -> 2 -> 3 with weights 3 and 4 (or any other two weights). */
  method Path123(w1: int, w2: int) returns (g: DerivedGraph<int, int>)
    ensures fresh(g) && g.Valid() && g.kind == DAG && Ascending(g.adj)
    ensures g.adj == map[1 := [(2, w1)], 2 := [(3, w2)], 3 := []]
    ensures EdgeCount(g.adj) == 2
  {
    g := TwoVertices();
    var _ := AddUpward(g, 1, 2, w1);
    AddIsolated(g, 3);
    var _ := AddUpward(g, 2, 3, w2);
    assert g.adj[1] == [(2, w1)] && g.adj[2] == [(3, w2)];
  }

  /**
   * With 1 -> 2 and 2 -> 3 in a DAG, the edge 3 -> 1 closes a cycle and is
   * rejected, while the two upward edges are accepted.
   */
  method CycleClosingRejected() returns (first: Status, edges: nat, second: Status, closing: Status, after: nat)
    ensures first == Ok && edges == 1 && second == Ok
    ensures closing == Fail(CycleViolation) && after == 2
  {
    var g := TwoVertices();
    AscendingInsertion(g.adj, 1, 2, 3);
    first := g.AddEdge(1, 2, 3, true);
    edges := g.NumEdges();
    AddIsolated(g, 3);
    AscendingInsertion(g.adj, 2, 3, 4);
    second := g.AddEdge(2, 3, 4, true);
    assert Path(g.adj, [1, 2, 3]) by {
      assert Edge(g.adj, 1, 2) by { assert g.adj[1][0].0 == 2; }
      assert Edge(g.adj, 2, 3) by { assert g.adj[2][0].0 == 3; }
    }
    CheckedInsertionRejects(g.adj, 3, 1, 1);
    closing := g.AddEdge(3, 1, 1, true);
    after := g.NumEdges();
  }

  /** A self-loop is a cycle: it is rejected and leaves no entry behind. */
  method SelfLoopRejected() returns (r: Status, present: bool)
    ensures r == Fail(CycleViolation) && !present
  {
    var g := new DerivedGraph<int, int>(DAG);
    var _ := g.AddVertex(1);
    CheckedInsertionRejects(g.adj, 1, 1, 1);
    r := g.AddEdge(1, 1, 1, true);
    present := g.HasEdge(1, 1);
  }

  /** Edges are directed, and a query naming an absent vertex is false rather than an error. */
  method HasEdgeDirected() returns (forward: bool, backward: bool, toAbsent: bool, fromAbsent: bool, absentLoop: bool)
    ensures forward && !backward
    ensures !toAbsent && !fromAbsent && !absentLoop
  {
    var g := TwoVertices();
    var _ := AddUpward(g, 1, 2, 3);
    forward := g.HasEdge(1, 2);
    assert forward by { assert g.adj[1][0].0 == 2; }
    backward := g.HasEdge(2, 1);
    toAbsent := g.HasEdge(1, 3);
    fromAbsent := g.HasEdge(3, 1);
    absentLoop := g.HasEdge(3, 3);
  }

  /**
   * An edge naming an absent vertex fails with UnknownVertex whichever end is
   * absent; a repeated vertex or a repeated edge fails as a duplicate; a
   * negative weight is accepted like any other.
   */
  method InsertionErrors() returns (r1: Status, r2: Status, r3: Status, r4: Status, r5: Status, r6: Status)
    ensures r1 == Fail(UnknownVertex) && r2 == Fail(UnknownVertex) && r3 == Fail(UnknownVertex)
    ensures r4 == Ok
    ensures r5 == Fail(DuplicateVertex) && r6 == Fail(DuplicateEdge)
  {
    var g := new DerivedGraph<int, int>(DAG);
    r1 := g.AddEdge(1, 2, 3, true);
    var _ := g.AddVertex(1);
    r2 := g.AddEdge(1, 2, 3, true);
    r3 := g.AddEdge(2, 1, 3, true);
    var _ := g.AddVertex(2);
    assert Ascending(g.adj);
    AscendingInsertion(g.adj, 1, 2, -3);
    r4 := g.AddEdge(1, 2, -3, true);
    r5 := g.AddVertex(1);
    assert Edge(g.adj, 1, 2) by { assert g.adj[1][0].0 == 2; }
    r6 := g.AddEdge(1, 2, 3, true);
  }

  /**
   * Removing an edge or a vertex that is not there fails and changes nothing;
   * a vertex removed once is gone, so removing it again fails.
   */
  method RemovalErrors() returns (r1: Status, r2: Status, r3: Status, r4: Status, r5: Status, r6: Status,
                                  vertices: nat, edges: nat)
    ensures r1 == Fail(UnknownVertex) && r2 == Fail(UnknownVertex)
    ensures r3 == Fail(UnknownEdge) && edges == 0
    ensures r4 == Ok && r5 == Fail(UnknownVertex) && vertices == 1
    ensures r6 == Fail(UnknownVertex)
  {
    var g := new DerivedGraph<int, int>(DAG);
    r1 := g.RemoveEdge(1, 2);
    r2 := g.RemoveVertex(1);
    var h := TwoVertices();
    r3 := h.RemoveEdge(1, 2);
    edges := h.NumEdges();
    r4 := h.RemoveVertex(1);
    r5 := h.RemoveVertex(1);
    vertices := h.NumVertices();
    r6 := h.RemoveEdge(1, 3);
  }

  /**
   * With 1 -> 2 stored, removing the absent vertex 3 and the edge 1 -> 3
   * (source present, destination absent) both fail, and both vertices stay.
   */
  method AbsentEndpointErrors() returns (r1: Status, r2: Status, vertices: nat, edges: nat)
    ensures r1 == Fail(UnknownVertex) && r2 == Fail(UnknownVertex)
    ensures vertices == 2 && edges == 1
  {
    var g := TwoVertices();
    var _ := AddUpward(g, 1, 2, 1);
    r1 := g.RemoveVertex(3);
    r2 := g.RemoveEdge(1, 3);
    vertices := g.NumVertices();
    edges := g.NumEdges();
  }

  /** The counts of a fresh graph are zero; one vertex, then one edge, each count once. */
  method CountsFromEmpty() returns (v0: nat, e0: nat, v1: nat, e1: nat)
    ensures v0 == 0 && e0 == 0 && v1 == 1 && e1 == 1
  {
    var g := new DerivedGraph<int, int>(DAG);
    var empty: Adj<int, int> := map[];
    assert EdgeCount(empty) == 0;
    v0 := g.NumVertices();
    e0 := g.NumEdges();
    var _ := g.AddVertex(1);
    v1 := g.NumVertices();
    var _ := g.AddVertex(2);
    var _ := AddUpward(g, 1, 2, 3);
    e1 := g.NumEdges();
  }

  /** Removing the only edge 1 -> 2 succeeds and leaves no edge. */
  method EdgeRemoved() returns (r: Status, edges: nat)
    ensures r == Ok && edges == 0
  {
    var g := TwoVertices();
    var _ := AddUpward(g, 1, 2, 3);
    assert g.adj[1] == [(2, 3)] && g.adj[1][0].0 == 2;
    r := g.RemoveEdge(1, 2);
    edges := g.NumEdges();
  }

  /** One vertex: added once, refused the second time, then removed, which empties the graph. */
  method SingleVertex() returns (r1: Status, r2: Status, r3: Status, before: nat, after: nat)
    ensures r1 == Ok && r2 == Fail(DuplicateVertex) && r3 == Ok
    ensures before == 1 && after == 0
  {
    var g := new DerivedGraph<int, int>(DAG);
    r1 := g.AddVertex(1);
    r2 := g.AddVertex(1);
    before := g.NumVertices();
    assert g.adj == map[1 := []];
    assert InNeighbours(g.adj, 1) == {};
    r3 := g.RemoveVertex(1);
    after := g.NumVertices();
  }

  /** The vertices of a graph holding 1 and 2, in sorted order, are 1 then 2. */
  method VerticesListed() returns (vs: seq<int>)
    ensures |vs| == 2 && (vs == [1, 2] || vs == [2, 1])
  {
    var g := TwoVertices();
    vs := g.GetVertices();
    assert 1 in g.adj && 2 in g.adj;
    assert forall i :: 0 <= i < |vs| ==> vs[i] in g.adj;
    DistinctWithin(vs, {1, 2});
    var i :| 0 <= i < |vs| && vs[i] == 1;
    var j :| 0 <= j < |vs| && vs[j] == 2;
    assert i != j;
  }

  /** A duplicate-free list drawn from `s` is no longer than `s` has elements. */
  lemma {:induction false} DistinctWithin(vs: seq<int>, s: set<int>)
    requires Distinct(vs) && forall i :: 0 <= i < |vs| ==> vs[i] in s
    ensures |vs| <= |s|
  {
    if vs != [] {
      var rest := vs[1..];
      forall i | 0 <= i < |rest| ensures rest[i] in s - {vs[0]} {
        assert rest[i] == vs[i + 1];
      }
      DistinctWithin(rest, s - {vs[0]});
      assert s == (s - {vs[0]}) + {vs[0]};
    }
  }


  /** Removing every vertex, one by one, leaves an empty graph. */
  method AllVerticesRemoved() returns (r1: Status, r2: Status, vertices: nat, edges: nat)
    ensures r1 == Ok && r2 == Ok && vertices == 0 && edges == 0
  {
    var g := TwoVertices();
    AscendingInNeighbours(g.adj, 1);
    assert InNeighbours(g.adj, 1) == {};
    r1 := g.RemoveVertex(1);
    AscendingInNeighbours(g.adj, 2);
    assert InNeighbours(g.adj, 2) == {};
    r2 := g.RemoveVertex(2);
    vertices := g.NumVertices();
    edges := g.NumEdges();
  }

  /** 1 -> 2 without vertex 1: the edge goes with it, and vertex 2 stays. */
  method EdgeRemovedWithVertex() returns (r: Status, vertices: nat, edges: nat)
    ensures r == Ok && vertices == 1 && edges == 0
  {
    var g := TwoVertices();
    var _ := AddUpward(g, 1, 2, 3);
    AscendingInNeighbours(g.adj, 1);
    assert InNeighbours(g.adj, 1) == {};
    r := g.RemoveVertex(1);
    vertices := g.NumVertices();
    edges := g.NumEdges();
  }

  /** 1 -> 2 -> 3 without vertex 1: two vertices and the one edge 2 -> 3 remain. */
  method VertexRemovalCounts() returns (vertices: nat, edges: nat, remaining: bool)
    ensures vertices == 2 && edges == 1 && remaining
  {
    var g := Path123(3, 4);
    AscendingInNeighbours(g.adj, 1);
    assert InNeighbours(g.adj, 1) == {};
    assert Edge(g.adj, 2, 3) by { assert g.adj[2][0].0 == 3; }
    var _ := g.RemoveVertex(1);
    vertices := g.NumVertices();
    edges := g.NumEdges();
    remaining := g.HasEdge(2, 3);
  }

  /**
   * 1 -> 2, 2 -> 3, then 2 -> 3 removed: removing it again fails, all three
   * vertices remain and one edge is left.
   */
  method RemoveEdgeSequence() returns (r1: Status, r2: Status, vs: seq<int>, edges: nat)
    ensures r1 == Ok && r2 == Fail(UnknownEdge)
    ensures |vs| == 3 && (set v | v in vs) == {1, 2, 3} && edges == 1
  {
    var g := Path123(1, 2);
    assert Edge(g.adj, 2, 3) by { assert g.adj[2][0].0 == 3; }
    r1 := g.RemoveEdge(2, 3);
    r2 := g.RemoveEdge(2, 3);
    vs := g.GetVertices();
    edges := g.NumEdges();
    ListsThree(vs, g.adj.Keys);
  }

  /** A duplicate-free listing of the vertex set {1, 2, 3} has exactly three entries. */
  lemma ListsThree(vs: seq<int>, keys: set<int>)
    requires keys == {1, 2, 3} && Distinct(vs)
    requires forall v :: v in vs <==> v in keys
    ensures |vs| == 3 && (set v | v in vs) == {1, 2, 3}
  {
    assert forall i :: 0 <= i < |vs| ==> vs[i] in keys;
    DistinctWithin(vs, keys);
    assert 1 in keys && 2 in keys && 3 in keys;
    var i :| 0 <= i < |vs| && vs[i] == 1;
    var j :| 0 <= j < |vs| && vs[j] == 2;
    var k :| 0 <= k < |vs| && vs[k] == 3;
  }


  /** The two triples of the from_edges test: three endpoints, distinct pairs, no cycle. */
  lemma TwoTriples(list: seq<(int, int, int)>)
    requires list == [(1, 2, 1), (2, 3, 2)]
    ensures forall v :: Endpoint(list, v) <==> 1 <= v <= 3
    ensures DistinctPairs(list) && !ListedCycle(list)
  {
    AscendingListAcyclic(list);
    assert list[0].0 == 1 && list[0].1 == 2 && list[1].1 == 3;
    assert Endpoint(list, 1) && Endpoint(list, 2) && Endpoint(list, 3);
  }

  /** A map whose keys are 1, 2 and 3 has three entries. */
  /**
   * Two triples from the same source: `from_edges` appends them in turn, so
   * the source's list holds their entries in the order they were given.
   */
  method ListInTripleOrder() returns (r: Status, from1: seq<(int, int)>)
    ensures r == Ok && from1 == [(2, 7), (3, 8)]
  {
    var list := [(1, 2, 7), (1, 3, 8)];
    SameSourceTriples(list);
    var g;
    g, r := DerivedGraph.FromEdges(list, DAG);
    from1 := g.Adjacent(1);
  }

  /** The two triples from vertex 1: fresh pairs, no cycle, and vertex 1's entries in the order given. */
  lemma SameSourceTriples(list: seq<(int, int, int)>)
    requires list == [(1, 2, 7), (1, 3, 8)]
    ensures Endpoint(list, 1) && DistinctPairs(list) && !ListedCycle(list)
    ensures EntriesFrom(list, 1) == [(2, 7), (3, 8)]
  {
    AscendingListAcyclic(list);
    assert list[0].0 == 1;
    var first := list[..1];
    assert first == [(1, 2, 7)] && first[..0] == [];
    assert EntriesFrom(first, 1) == [(2, 7)];
    assert list[..|list| - 1] == first;
  }

  lemma ThreeVertices(m: Adj<int, int>)
    requires forall v :: v in m <==> 1 <= v <= 3
    ensures |m| == 3
  {
    assert 1 in m && 2 in m && 3 in m;
    forall v | v in m.Keys ensures v in {1, 2, 3} {
      assert 1 <= v <= 3;
    }
    assert m.Keys == {1, 2, 3};
  }

  /** from_edges over (1, 2, 1) and (2, 3, 2) as a DAG: three vertices and two edges. */
  method FromEdgesCounts() returns (r: Status, vertices: nat, edges: nat, from1: seq<(int, int)>, from2: seq<(int, int)>)
    ensures r == Ok && vertices == 3 && edges == 2
    ensures (2, 1) in from1 && (3, 2) in from2
  {
    var list := [(1, 2, 1), (2, 3, 2)];
    TwoTriples(list);
    var g;
    g, r := DerivedGraph.FromEdges(list, DAG);
    ThreeVertices(g.adj);
    vertices := g.NumVertices();
    edges := g.NumEdges();
    assert list[0].0 == 1 && list[1].0 == 2;
    from1 := g.Adjacent(1);
    from2 := g.Adjacent(2);
  }

  /** The entries of vertex 1 after adding 1 -> 2 with weight 1: exactly (2, 1). */
  method AdjacentEntries() returns (entries: seq<(int, int)>)
    ensures entries == [(2, 1)]
  {
    var g := TwoVertices();
    var _ := AddUpward(g, 1, 2, 1);
    entries := g.Adjacent(1);
  }

  /** Undirected insertion into a UDG stores both directions. */
  method UndirectedInUdg() returns (r: Status, forward: bool, backward: bool)
    ensures r == Ok && forward && backward
  {
    var g := new DerivedGraph<int, int>(UDG);
    var _ := g.AddVertex(1);
    var _ := g.AddVertex(2);
    r := g.AddDirectionalEdge(1, 2, 5, false);
    forward := g.HasEdge(1, 2);
    backward := g.HasEdge(2, 1);
    assert forward by { assert g.adj[1][0].0 == 2; }
    assert backward by { assert g.adj[2][0].0 == 1; }
  }

  /**
   * Undirected insertion into a checked DAG: the second direction is
   * rejected as a cycle and the first direction stays.
   */
  method UndirectedInDag() returns (r: Status, forward: bool, backward: bool)
    ensures r == Fail(CycleViolation) && forward && !backward
  {
    var g := TwoVertices();
    AscendingInsertion(g.adj, 1, 2, 5);
    UndirectedDagInsertion(g.adj, 1, 2, 5);
    r := g.AddDirectionalEdge(1, 2, 5, false);
    forward := g.HasEdge(1, 2);
    backward := g.HasEdge(2, 1);
  }

  /** The vertices lo .. hi - 1, each but the last holding one entry, for its successor. */
  ghost predicate Chain<E>(adj: Adj<int, E>, lo: int, hi: int) {
    (forall k :: k in adj <==> lo <= k < hi) &&
    (forall k :: lo <= k < hi - 1 ==> |adj[k]| == 1 && adj[k][0].0 == k + 1) &&
    (lo < hi ==> adj[hi - 1] == [])
  }

  /** Inserts the vertices 0 .. n - 1 in order into an empty DAG. */
  method AddChainVertices(g: DerivedGraph<int, int>, n: nat)
    requires g.Valid() && g.kind == DAG && g.adj == map[]
    modifies g
    ensures g.Valid() && Ascending(g.adj)
    ensures forall k :: k in g.adj <==> 0 <= k < n
    ensures forall k :: k in g.adj ==> g.adj[k] == []
    ensures g.NumVertices() == n && EdgeCount(g.adj) == 0
  {
    var empty: Adj<int, int> := map[];
    assert EdgeCount(empty) == 0;
    for i := 0 to n
      invariant g.Valid() && Ascending(g.adj)
      invariant forall k :: k in g.adj <==> 0 <= k < i
      invariant forall k :: k in g.adj ==> g.adj[k] == []
      invariant g.NumVertices() == i && EdgeCount(g.adj) == 0
    {
      AddIsolated(g, i);
    }
  }

  /** Inserts the edges i -> i + 1 (weight i) in order with cycle checking; every one is accepted. */
  method AddChainEdges(g: DerivedGraph<int, int>, n: nat) returns (accepted: bool)
    requires g.Valid() && g.kind == DAG && Ascending(g.adj) && n > 0
    requires forall k :: k in g.adj <==> 0 <= k < n
    requires forall k :: k in g.adj ==> g.adj[k] == []
    requires EdgeCount(g.adj) == 0
    modifies g
    ensures g.Valid() && Chain(g.adj, 0, n) && Ascending(g.adj)
    ensures accepted && g.NumVertices() == old(g.NumVertices()) && EdgeCount(g.adj) == n - 1
  {
    accepted := true;
    for i := 0 to n - 1
      invariant g.Valid() && Ascending(g.adj)
      invariant forall k :: k in g.adj <==> 0 <= k < n
      invariant forall k :: 0 <= k < i ==> g.adj[k] == [(k + 1, k)]
      invariant forall k :: i <= k < n ==> g.adj[k] == []
      invariant g.NumVertices() == old(g.NumVertices()) && EdgeCount(g.adj) == i
      invariant accepted
    {
      var r := AddUpward(g, i, i + 1, i);
      accepted := accepted && r == Ok;
    }
  }

  /**
   * Vertices 0 .. n - 1, then the edges i -> i + 1 (weight i) in order with
   * cycle checking: every insertion is accepted.
   */
  method BuildChain(n: nat) returns (g: DerivedGraph<int, int>, accepted: bool)
    ensures fresh(g) && g.Valid() && g.kind == DAG && Chain(g.adj, 0, n) && Ascending(g.adj)
    ensures accepted
    ensures g.NumVertices() == n && EdgeCount(g.adj) == if n == 0 then 0 else n - 1
  {
    g := new DerivedGraph(DAG);
    AddChainVertices(g, n);
    accepted := true;
    if n > 0 {
      accepted := AddChainEdges(g, n);
    }
  }

  /** Removes the vertices 0 .. m - 1 from the front of the chain 0 .. n - 1. */
  method RemoveChainPrefix(g: DerivedGraph<int, int>, n: nat, m: nat)
    requires g.Valid() && Chain(g.adj, 0, n) && Ascending(g.adj) && m <= n
    requires g.NumVertices() == n && EdgeCount(g.adj) == if n == 0 then 0 else n - 1
    modifies g
    ensures g.Valid() && Chain(g.adj, m, n)
    ensures g.NumVertices() == n - m && EdgeCount(g.adj) == if m == n then 0 else n - m - 1
  {
    for i := 0 to m
      invariant g.Valid() && Chain(g.adj, i, n) && Ascending(g.adj)
      invariant g.NumVertices() == n - i && EdgeCount(g.adj) == if i == n then 0 else n - i - 1
    {
      ChainDropFront(g.adj, i, n);
      var _ := g.RemoveVertex(i);
    }
  }

  /**
   * Dropping the first vertex of a chain leaves the rest of the chain; the
   * first vertex has no in-neighbour and one entry unless it is also the last.
   */
  lemma ChainDropFront<E>(adj: Adj<int, E>, lo: int, hi: int)
    requires Chain(adj, lo, hi) && Ascending(adj) && lo < hi
    ensures InNeighbours(adj, lo) == {}
    ensures |adj[lo]| == if lo == hi - 1 then 0 else 1
    ensures Chain(DropVertex(adj, lo), lo + 1, hi) && Ascending(DropVertex(adj, lo))
  {
    AscendingInNeighbours(adj, lo);
    assert forall u :: u in adj ==> lo <= u;
    var d := DropVertex(adj, lo);
    DropVertexEdges(adj, lo);
    forall k | lo + 1 <= k < hi ensures d[k] == adj[k] {
      assert !HasTarget(adj[k], lo);
    }
  }

  /** The 5000-vertex chain: 5000 vertices, 4999 accepted edges, the first and the last among them. */
  method StressChain() returns (accepted: bool, vertices: nat, edges: nat, first: bool, last: bool)
    ensures accepted && vertices == 5000 && edges == 4999 && first && last
  {
    var g;
    g, accepted := BuildChain(5000);
    vertices := g.NumVertices();
    edges := g.NumEdges();
    first := g.HasEdge(0, 1);
    last := g.HasEdge(4998, 4999);
    assert first by { assert g.adj[0][0].0 == 1; }
    assert last by { assert g.adj[4998][0].0 == 4999; }
  }

  /** The 50000-vertex chain without its first 25000 vertices: 25000 vertices and 24999 edges. */
  method ChainPrefixRemoved() returns (vertices: nat, edges: nat)
    ensures vertices == 25000 && edges == 24999
  {
    var g, _ := BuildChain(50000);
    RemoveChainPrefix(g, 50000, 25000);
    vertices := g.NumVertices();
    edges := g.NumEdges();
  }

  /** In 1 -> 2 -> 3, depth-first search from 2 visits exactly 2 and 3. */
  method DfsFromMiddle() returns (visited: set<int>)
    ensures visited == {2, 3}
  {
    var g := Path123(3, 4);
    AscendingAcyclic(g.adj);
    ReachesRefl(g.adj, 2);
    assert Edge(g.adj, 2, 3) by { assert g.adj[2][0].0 == 3; }
    ReachesEdge(g.adj, 2, 3);
    var order;
    visited, order := Dfs(g, 2);
  }
}
