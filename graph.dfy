/**
 * The graph store: `DerivedGraph`, an adjacency-list graph whose state is a
 * map from each vertex to the ordered list of its (neighbour, weight)
 * entries, together with the graph kind. Every mutator either succeeds with
 * the new adjacency stated in its ensures, or fails with one of the model's
 * error kinds and leaves the adjacency as it was, except
 * `AddDirectionalEdge`, whose failed reverse insertion keeps the first edge.
 * Adding an edge to a DAG with cycle checking appends the entry, runs cycle
 * detection over the whole graph and takes the entry back off when a cycle
 * appears.
 */
module Graph {
  import opened Adjacency
  import GraphAlgorithms

  /** DAG enforces acyclicity on checked edge insertion; UDG does not. */
  datatype GraphType = DAG | UDG

  datatype GraphError =
    | DuplicateVertex
    | UnknownVertex
    | DuplicateEdge
    | UnknownEdge
    | CycleViolation

  /** The outcome of a mutator: success, or the failure path it took (the source throws `std::runtime_error` on each). */
  datatype Status = Ok | Fail(error: GraphError)

  /**
   * What `addEdge` reports: unknown endpoint first, then an existing entry
   * for the pair, then (for a checked DAG insertion) a cycle in the graph
   * with the new entry appended.
   */
  ghost function AddEdgeStatus<V(!new), E>(adj: Adj<V, E>, kind: GraphType, src: V, dst: V, w: E,
                                          checkForCycle: bool): Status
  {
    if src !in adj || dst !in adj then Fail(UnknownVertex)
    else if Edge(adj, src, dst) then Fail(DuplicateEdge)
    else if kind == DAG && checkForCycle && HasCycle(AppendEdge(adj, src, dst, w)) then Fail(CycleViolation)
    else Ok
  }

  /** The adjacency after `addEdge`: the entry appended on success, unchanged on failure. */
  ghost function AddEdgeResult<V(!new), E>(adj: Adj<V, E>, kind: GraphType, src: V, dst: V, w: E,
                                          checkForCycle: bool): Adj<V, E>
  {
    if AddEdgeStatus(adj, kind, src, dst, w, checkForCycle) == Ok then AppendEdge(adj, src, dst, w)
    else adj
  }

  /**
   * Checked insertion into a DAG rejects an edge between stored vertices
   * exactly when the graph already has a cycle or the destination already
   * reaches the source; in particular a self-loop is always rejected.
   */
  lemma CheckedInsertionRejects<V(!new), E>(adj: Adj<V, E>, src: V, dst: V, w: E)
    requires src in adj && dst in adj && !Edge(adj, src, dst)
    ensures AddEdgeStatus(adj, DAG, src, dst, w, true) == Fail(CycleViolation) <==>
            HasCycle(adj) || Reaches(adj, dst, src)
    ensures src == dst ==> AddEdgeStatus(adj, DAG, src, dst, w, true) == Fail(CycleViolation)
  {
    AppendEdgeCycle(adj, src, dst, w);
    if src == dst {
      ReachesRefl(adj, src);
    }
  }

  /**
   * Acyclicity is preserved: whatever the state before, a successful checked
   * insertion into a DAG leaves a graph without a cycle, with exactly one more
   * edge, and the new edge present.
   */
  lemma CheckedInsertionKeepsAcyclic<V(!new), E>(adj: Adj<V, E>, src: V, dst: V, w: E)
    requires AddEdgeStatus(adj, DAG, src, dst, w, true) == Ok
    ensures !HasCycle(AddEdgeResult(adj, DAG, src, dst, w, true))
    ensures !HasCycle(adj) && !Reaches(adj, dst, src)
    ensures EdgeCount(AddEdgeResult(adj, DAG, src, dst, w, true)) == EdgeCount(adj) + 1
    ensures Edge(AddEdgeResult(adj, DAG, src, dst, w, true), src, dst)
  {
    AppendEdgeCycle(adj, src, dst, w);
    AppendEdgeCount(adj, src, dst, w);
    AppendEdgeEdges(adj, src, dst, w);
  }

  /** The edges of `adj` are exactly the (source, destination) pairs of the first `n` triples. */
  ghost predicate EdgesOf<V(!new), E>(adj: Adj<V, E>, edges: seq<(V, V, E)>, n: nat)
    requires n <= |edges|
  {
    forall a, b :: Edge(adj, a, b) <==> Listed(edges[..n], a, b)
  }

  /** Each of the first `n` triples is stored: its source's list holds its (destination, weight) entry. */
  ghost predicate StoresTriples<V(!new), E>(adj: Adj<V, E>, edges: seq<(V, V, E)>, n: nat)
    requires n <= |edges|
  {
    forall j :: 0 <= j < n ==> edges[j].0 in adj && (edges[j].1, edges[j].2) in adj[edges[j].0]
  }

  /** Appending triple `i`'s entry keeps every earlier triple stored and stores triple `i`. */
  lemma StoresTriplesStep<V(!new), E>(adj: Adj<V, E>, edges: seq<(V, V, E)>, i: nat)
    requires i < |edges| && StoresTriples(adj, edges, i) && edges[i].0 in adj
    ensures StoresTriples(AppendEdge(adj, edges[i].0, edges[i].1, edges[i].2), edges, i + 1)
  {
    var m := AppendEdge(adj, edges[i].0, edges[i].1, edges[i].2);
    forall j | 0 <= j < i + 1 ensures edges[j].0 in m && (edges[j].1, edges[j].2) in m[edges[j].0] {
      if j < i && edges[j].0 == edges[i].0 {
        assert m[edges[j].0] == adj[edges[j].0] + [(edges[i].1, edges[i].2)];
      }
    }
  }

  /** The (destination, weight) entries of the triples whose source is `v`, in triple order. */
  ghost function EntriesFrom<V(!new), E>(edges: seq<(V, V, E)>, v: V): seq<(V, E)>
    decreases |edges|
  {
    if edges == [] then []
    else
      var last := edges[|edges| - 1];
      EntriesFrom(edges[..|edges| - 1], v) + if last.0 == v then [(last.1, last.2)] else []
  }

  /** An entry is among v's listed entries exactly when some triple goes from v with that destination and weight. */
  lemma {:induction false} EntriesFromMembers<V(!new), E>(edges: seq<(V, V, E)>, v: V)
    ensures forall d, w :: (d, w) in EntriesFrom(edges, v) <==>
              exists j :: 0 <= j < |edges| && edges[j] == (v, d, w)
    decreases |edges|
  {
    if edges != [] {
      var n := |edges| - 1;
      var init := edges[..n];
      EntriesFromMembers(init, v);
      forall d, w ensures (d, w) in EntriesFrom(edges, v) <==>
                          exists j :: 0 <= j < |edges| && edges[j] == (v, d, w) {
        if (d, w) in EntriesFrom(init, v) {
          var j :| 0 <= j < |init| && init[j] == (v, d, w);
          assert edges[j] == (v, d, w);
        }
        if exists j :: 0 <= j < |edges| && edges[j] == (v, d, w) {
          var j :| 0 <= j < |edges| && edges[j] == (v, d, w);
          if j < n {
            assert init[j] == (v, d, w);
          }
        }
      }
    }
  }

  /** Every stored list holds the entries of the first `n` triples from its vertex, in triple order. */
  ghost predicate ListsFollow<V(!new), E>(adj: Adj<V, E>, edges: seq<(V, V, E)>, n: nat)
    requires n <= |edges|
  {
    forall v :: v in adj ==> adj[v] == EntriesFrom(edges[..n], v)
  }

  /** Appending triple `i`'s entry to its source's list makes the lists follow the first i + 1 triples. */
  lemma ListsFollowStep<V(!new), E>(adj: Adj<V, E>, edges: seq<(V, V, E)>, i: nat)
    requires i < |edges| && ListsFollow(adj, edges, i) && edges[i].0 in adj
    ensures ListsFollow(AppendEdge(adj, edges[i].0, edges[i].1, edges[i].2), edges, i + 1)
  {
    assert edges[..i + 1][..i] == edges[..i];
  }

  /** Appending the pair of triple `i` extends the edge set to the first i + 1 triples. */
  lemma EdgesOfStep<V(!new), E>(adj: Adj<V, E>, edges: seq<(V, V, E)>, i: nat)
    requires i < |edges| && EdgesOf(adj, edges, i)
    requires edges[i].0 in adj && edges[i].1 in adj
    ensures EdgesOf(AppendEdge(adj, edges[i].0, edges[i].1, edges[i].2), edges, i + 1)
  {
    AppendEdgeEdges(adj, edges[i].0, edges[i].1, edges[i].2);
  }

  /** A pair absent from the edges of the first `i` triples differs from each of their pairs. */
  lemma EdgesOfFresh<V(!new), E>(adj: Adj<V, E>, edges: seq<(V, V, E)>, i: nat)
    requires i < |edges| && EdgesOf(adj, edges, i) && DistinctPairs(edges[..i])
    requires !Edge(adj, edges[i].0, edges[i].1)
    ensures DistinctPairs(edges[..i + 1])
  {
    var s := edges[..i + 1];
    forall j, k | 0 <= j < k < |s| ensures !(s[j].0 == s[k].0 && s[j].1 == s[k].1) {
      if k < i {
        assert s[j] == edges[..i][j] && s[k] == edges[..i][k];
      } else {
        assert s[j] == edges[j] && s[k] == edges[i];
      }
    }
  }

  /** A pair already present among the first `i` triples repeats an earlier triple's pair. */
  lemma EdgesOfDuplicate<V(!new), E>(adj: Adj<V, E>, edges: seq<(V, V, E)>, i: nat)
    requires i < |edges| && EdgesOf(adj, edges, i)
    requires Edge(adj, edges[i].0, edges[i].1)
    ensures exists j :: 0 <= j < i && edges[j].0 == edges[i].0 && edges[j].1 == edges[i].1
  {
  }

  /**
   * In a DAG with cycle checking an undirected insertion never fully
   * succeeds: when the first direction a -> b is accepted, the second
   * direction b -> a closes the cycle a -> b -> a and is rejected, so the
   * graph keeps a -> b alone.
   */
  lemma UndirectedDagInsertion<V(!new), E>(adj: Adj<V, E>, a: V, b: V, w: E)
    requires AddEdgeStatus(adj, DAG, a, b, w, true) == Ok
    ensures AddEdgeStatus(AddEdgeResult(adj, DAG, a, b, w, true), DAG, b, a, w, true) == Fail(CycleViolation)
    ensures Edge(AddEdgeResult(adj, DAG, a, b, w, true), a, b)
    ensures !Edge(AddEdgeResult(adj, DAG, a, b, w, true), b, a)
  {
    var a1 := AppendEdge(adj, a, b, w);
    CheckedInsertionKeepsAcyclic(adj, a, b, w);
    if Edge(adj, b, a) {
      ReachesEdge(adj, b, a);
    }
    AppendEdgeEdges(adj, a, b, w);
    if a == b {
      CheckedInsertionRejects(adj, a, b, w);
    }
    ReachesEdge(a1, a, b);
    CheckedInsertionRejects(a1, b, a, w);
  }

  /** `v` is the source or the destination of some triple. */
  ghost predicate Endpoint<V(!new), E>(edges: seq<(V, V, E)>, v: V) {
    exists i :: 0 <= i < |edges| && (edges[i].0 == v || edges[i].1 == v)
  }

  /** Some triple of `edges` goes from a to b. */
  ghost predicate Listed<V(!new), E>(edges: seq<(V, V, E)>, a: V, b: V) {
    exists j :: 0 <= j < |edges| && edges[j].0 == a && edges[j].1 == b
  }

  /** No two triples share their (source, destination) pair. */
  ghost predicate DistinctPairs<V(!new), E>(edges: seq<(V, V, E)>) {
    forall i, j :: 0 <= i < j < |edges| ==> !(edges[i].0 == edges[j].0 && edges[i].1 == edges[j].1)
  }

  /** The pairs of `edges` close a walk of one or more steps back to its start. */
  ghost predicate ListedCycle<V(!new), E>(edges: seq<(V, V, E)>) {
    exists p: seq<V> :: |p| >= 2 && p[0] == p[|p| - 1] &&
      forall k :: 0 <= k < |p| - 1 ==> Listed(edges, p[k], p[k + 1])
  }

  /** A cycle among the edges of the first `n` triples is a cycle of the listed pairs. */
  lemma EdgesOfCycle<V(!new), E>(adj: Adj<V, E>, edges: seq<(V, V, E)>, n: nat)
    requires n <= |edges| && EdgesOf(adj, edges, n) && HasCycle(adj)
    ensures ListedCycle(edges)
  {
    var p :| Path(adj, p) && |p| >= 2 && p[0] == p[|p| - 1];
    forall k | 0 <= k < |p| - 1 ensures Listed(edges, p[k], p[k + 1]) {
      assert Edge(adj, p[k], p[k + 1]);
    }
  }

  /** When the edges are exactly the listed pairs, a cycle of the pairs is a cycle of the graph. */
  lemma ListedCycleIsCycle<V(!new), E>(adj: Adj<V, E>, edges: seq<(V, V, E)>)
    requires EdgesOf(adj, edges, |edges|) && ListedCycle(edges)
    ensures HasCycle(adj)
  {
    var p: seq<V> :| |p| >= 2 && p[0] == p[|p| - 1] &&
      forall k :: 0 <= k < |p| - 1 ==> Listed(edges, p[k], p[k + 1]);
    forall k | 0 <= k < |p| - 1 ensures Edge(adj, p[k], p[k + 1]) {
      assert Listed(edges, p[k], p[k + 1]);
    }
    assert Path(adj, p);
  }

  /**
   * The scan of `removeVertex`: drops `v`'s own entry, then visits every
   * other vertex once and erases the entry that points at `v` from its list.
   */
  method EraseVertex<V(==,!new), E>(adj: Adj<V, E>, v: V) returns (rest: Adj<V, E>)
    ensures rest == DropVertex(adj, v)
  {
    rest := adj - {v};
    var todo := rest.Keys;
    while todo != {}
      invariant todo <= rest.Keys == adj.Keys - {v}
      invariant forall k :: k in rest ==>
                  rest[k] == if k in todo then adj[k] else WithoutTarget(adj[k], v)
      decreases todo
    {
      var k :| k in todo;
      rest := rest[k := WithoutTarget(rest[k], v)];
      todo := todo - {k};
    }
  }

  class DerivedGraph<V(==,!new), E> {
    var adj: Adj<V, E>
    const kind: GraphType

    /** Keys are unique (a map), no edge dangles, no two entries of a list share a destination. */
    ghost predicate Valid()
      reads this
    {
      WellFormed(adj)
    }

    constructor (kind: GraphType)
      ensures Valid() && this.kind == kind && adj == map[]
    {
      this.kind := kind;
      adj := map[];
    }

    function NumVertices(): nat
      reads this
    {
      |adj|
    }

    /** Inserts `v` with an empty list; a vertex already stored is a DuplicateVertex error. */
    method AddVertex(v: V) returns (r: Status)
      requires Valid()
      modifies this
      ensures Valid()
      ensures v in old(adj) ==> r == Fail(DuplicateVertex) && adj == old(adj)
      ensures v !in old(adj) ==> r == Ok && adj == old(adj)[v := []]
      ensures NumVertices() == old(NumVertices()) + (if r == Ok then 1 else 0)
      ensures EdgeCount(adj) == EdgeCount(old(adj))
      ensures !HasCycle(old(adj)) ==> !HasCycle(adj)
    {
      if v in adj {
        return Fail(DuplicateVertex);
      }
      EdgeCountNewVertex(adj, v);
      adj := adj[v := []];
      return Ok;
    }

    /**
     * Deletes `v` and scans every other list, erasing the entries that lead
     * to `v`; an absent vertex is an UnknownVertex error.
     */
    method RemoveVertex(v: V) returns (r: Status)
      requires Valid()
      modifies this
      ensures Valid()
      ensures v !in old(adj) ==> r == Fail(UnknownVertex) && adj == old(adj)
      ensures v in old(adj) ==> r == Ok && adj == DropVertex(old(adj), v)
      ensures v in old(adj) ==> NumVertices() == old(NumVertices()) - 1
      ensures v in old(adj) ==>
                EdgeCount(adj) == EdgeCount(old(adj)) - |old(adj)[v]| - |InNeighbours(old(adj), v)|
      ensures forall a, b :: Edge(adj, a, b) <==> Edge(old(adj), a, b) && a != v && b != v
      ensures !HasCycle(old(adj)) ==> !HasCycle(adj)
    {
      if v !in adj {
        return Fail(UnknownVertex);
      }
      var before := adj;
      adj := EraseVertex(adj, v);
      DropVertexEdges(before, v);
      DropVertexWellFormed(before, v);
      DropVertexCount(before, v);
      if HasCycle(adj) {
        SubGraphCycle(adj, before);
      }
      return Ok;
    }

    /**
     * Appends (dst, w) to src's list. Unknown endpoint: UnknownVertex; an
     * entry for dst already in src's list: DuplicateEdge. In a DAG with
     * `checkForCycle`, cycle detection runs over the whole graph after the
     * append and, on a cycle, the entry is taken off again: CycleViolation.
     */
    method AddEdge(src: V, dst: V, w: E, checkForCycle: bool) returns (r: Status)
      requires Valid()
      modifies this
      ensures Valid()
      ensures r == AddEdgeStatus(old(adj), kind, src, dst, w, checkForCycle)
      ensures adj == AddEdgeResult(old(adj), kind, src, dst, w, checkForCycle)
      ensures r == Ok ==> EdgeCount(adj) == EdgeCount(old(adj)) + 1 && HasEdge(src, dst)
      ensures r != Ok ==> EdgeCount(adj) == EdgeCount(old(adj))
    {
      if src !in adj || dst !in adj {
        return Fail(UnknownVertex);
      }
      if IndexOfTarget(adj[src], dst) != -1 {
        return Fail(DuplicateEdge);
      }
      var before := adj;
      AppendEdgeWellFormed(before, src, dst, w);
      AppendEdgeCount(before, src, dst, w);
      AppendEdgeEdges(before, src, dst, w);
      adj := adj[src := adj[src] + [(dst, w)]];
      if checkForCycle && kind == DAG {
        var cyclic := GraphAlgorithms.IsCyclic(adj);
        if cyclic {
          adj := adj[src := adj[src][..|adj[src]| - 1]];
          assert adj[src] == before[src];
          assert adj == before;
          return Fail(CycleViolation);
        }
      }
      return Ok;
    }

    /**
     * Adds src -> dst and, when `isDirected` is false, then dst -> src, each
     * through `AddEdge`. The first failure is reported; a failure of the
     * second insertion leaves the first edge in place.
     */
    method AddDirectionalEdge(src: V, dst: V, w: E, isDirected: bool, checkForCycle: bool := true)
      returns (r: Status)
      requires Valid()
      modifies this
      ensures Valid()
      ensures var r1 := AddEdgeStatus(old(adj), kind, src, dst, w, checkForCycle);
              var a1 := AddEdgeResult(old(adj), kind, src, dst, w, checkForCycle);
              if r1 != Ok || isDirected then r == r1 && adj == a1
              else r == AddEdgeStatus(a1, kind, dst, src, w, checkForCycle) &&
                   adj == AddEdgeResult(a1, kind, dst, src, w, checkForCycle)
    {
      r := AddEdge(src, dst, w, checkForCycle);
      if r == Ok && !isDirected {
        r := AddEdge(dst, src, w, checkForCycle);
      }
    }

    /**
     * Erases the entry for v2 from v1's list and then, if there is one, the
     * entry for v1 from v2's list. Unknown vertex: UnknownVertex; no entry
     * for v2 in v1's list: UnknownEdge.
     */
    method RemoveEdge(v1: V, v2: V) returns (r: Status)
      requires Valid()
      modifies this
      ensures Valid()
      ensures v1 !in old(adj) || v2 !in old(adj) ==> r == Fail(UnknownVertex) && adj == old(adj)
      ensures v1 in old(adj) && v2 in old(adj) && !Edge(old(adj), v1, v2) ==>
                r == Fail(UnknownEdge) && adj == old(adj)
      ensures v1 in old(adj) && v2 in old(adj) && Edge(old(adj), v1, v2) ==>
                r == Ok && adj == DropEdge(old(adj), v1, v2) && !HasEdge(v1, v2) && !HasEdge(v2, v1) &&
                EdgeCount(adj) == EdgeCount(old(adj)) - 1 - (if v1 != v2 && Edge(old(adj), v2, v1) then 1 else 0)
      ensures adj.Keys == old(adj.Keys)
      ensures forall a, b :: Edge(adj, a, b) ==> Edge(old(adj), a, b)
      ensures !HasCycle(old(adj)) ==> !HasCycle(adj)
    {
      if v1 !in adj || v2 !in adj {
        return Fail(UnknownVertex);
      }
      if IndexOfTarget(adj[v1], v2) == -1 {
        return Fail(UnknownEdge);
      }
      var before := adj;
      DropEdgeEdges(before, v1, v2);
      DropEdgeWellFormed(before, v1, v2);
      DropEdgeCount(before, v1, v2);
      adj := adj[v1 := WithoutTarget(adj[v1], v2)];
      if IndexOfTarget(adj[v2], v1) != -1 {
        adj := adj[v2 := WithoutTarget(adj[v2], v1)];
      }
      if HasCycle(adj) {
        SubGraphCycle(adj, before);
      }
      return Ok;
    }

    /** Whether v1's list holds an entry for v2; false, not an error, for absent vertices. */
    function HasEdge(v1: V, v2: V): (b: bool)
      reads this
      ensures b <==> v1 in adj && v2 in adj && Edge(adj, v1, v2)
    {
      v1 in adj && v2 in adj && IndexOfTarget(adj[v1], v2) != -1
    }

    /**
     * The entries between the cursors adjacentBegin(v) and adjacentEnd(v):
     * every outgoing edge of `v`, each once, each to a stored vertex.
     */
    function Adjacent(v: V): (s: seq<(V, E)>)
      reads this
      requires Valid() && v in adj
      ensures DistinctTargets(s)
      ensures forall i :: 0 <= i < |s| ==> s[i].0 in adj && HasEdge(v, s[i].0)
      ensures forall b :: HasEdge(v, b) ==> HasTarget(s, b)
    {
      adj[v]
    }

    /** Sums the list lengths over all vertices. */
    method NumEdges() returns (n: nat)
      ensures n == EdgeCount(adj)
    {
      n := 0;
      var todo := adj.Keys;
      while todo != {}
        invariant todo <= adj.Keys
        invariant n + SumDegrees(adj, todo) == EdgeCount(adj)
        decreases todo
      {
        var k :| k in todo;
        SumDegreesPick(adj, todo, k);
        n := n + |adj[k]|;
        todo := todo - {k};
      }
    }

    /** The stored vertices, each once, in no particular order. */
    method GetVertices() returns (vs: seq<V>)
      ensures forall v :: v in vs <==> v in adj
      ensures Distinct(vs)
    {
      vs := [];
      var todo := adj.Keys;
      while todo != {}
        invariant todo <= adj.Keys
        invariant forall v :: v in vs <==> v in adj && v !in todo
        invariant Distinct(vs)
        decreases todo
      {
        var k :| k in todo;
        vs := vs + [k];
        todo := todo - {k};
      }
    }

    /**
     * Builds a graph of the given kind from (source, destination, weight)
     * triples: first every endpoint is inserted once, then every edge in
     * order with cycle checking; the first failure is reported. It succeeds
     * exactly when no pair repeats and, for a DAG, the pairs close no cycle.
     */
    static method FromEdges(edges: seq<(V, V, E)>, kind: GraphType) returns (g: DerivedGraph<V, E>, r: Status)
      ensures fresh(g) && g.Valid() && g.kind == kind
      ensures forall v :: v in g.adj <==> Endpoint(edges, v)
      ensures r == Ok ==> EdgeCount(g.adj) == |edges| && EdgesOf(g.adj, edges, |edges|)
      ensures r == Ok ==>
                forall j :: 0 <= j < |edges| ==> edges[j].0 in g.adj && (edges[j].1, edges[j].2) in g.adj[edges[j].0]
      ensures r == Ok ==> forall v :: v in g.adj ==> g.adj[v] == EntriesFrom(edges, v)
      ensures r == Ok && kind == DAG ==> !HasCycle(g.adj)
      ensures r == Fail(DuplicateEdge) ==> !DistinctPairs(edges)
      ensures r == Fail(CycleViolation) ==> kind == DAG && ListedCycle(edges)
      ensures r == Ok || r == Fail(DuplicateEdge) || r == Fail(CycleViolation)
      ensures r == Ok <==> DistinctPairs(edges) && (kind == DAG ==> !ListedCycle(edges))
    {
      g := new DerivedGraph(kind);
      g.AddEndpoints(edges);
      r := g.AddListedEdges(edges);
      if r == Ok && kind == DAG && ListedCycle(edges) {
        ListedCycleIsCycle(g.adj, edges);
      }
    }

    /** The first phase of `FromEdges`: every endpoint of every triple, once, with an empty list. */
    method AddEndpoints(edges: seq<(V, V, E)>)
      requires Valid() && adj == map[]
      modifies this
      ensures Valid()
      ensures forall v :: v in adj <==> Endpoint(edges, v)
      ensures forall v :: v in adj ==> adj[v] == []
    {
      for i := 0 to |edges|
        invariant Valid()
        invariant forall v :: v in adj <==> exists j :: 0 <= j < i && (edges[j].0 == v || edges[j].1 == v)
        invariant forall v :: v in adj ==> adj[v] == []
      {
        if edges[i].0 !in adj {
          var _ := AddVertex(edges[i].0);
        }
        if edges[i].1 !in adj {
          var _ := AddVertex(edges[i].1);
        }
      }
    }

    /** One step of `AddListedEdges`: inserts the i-th listed edge, checked. */
    method AddListedEdge(edges: seq<(V, V, E)>, i: nat) returns (r: Status)
      requires Valid() && i < |edges|
      requires forall v :: Endpoint(edges, v) ==> v in adj
      requires EdgeCount(adj) == i && EdgesOf(adj, edges, i) && DistinctPairs(edges[..i])
      requires kind == DAG ==> !HasCycle(adj)
      requires StoresTriples(adj, edges, i) && ListsFollow(adj, edges, i)
      modifies this
      ensures Valid() && adj.Keys == old(adj.Keys)
      ensures r == Ok ==> EdgeCount(adj) == i + 1 && EdgesOf(adj, edges, i + 1)
      ensures r == Ok ==> StoresTriples(adj, edges, i + 1) && ListsFollow(adj, edges, i + 1)
      ensures r == Ok ==> DistinctPairs(edges[..i + 1]) && (kind == DAG ==> !HasCycle(adj))
      ensures r == Ok ==> edges[i].0 in old(adj) && adj == AppendEdge(old(adj), edges[i].0, edges[i].1, edges[i].2)
      ensures r == Fail(DuplicateEdge) ==> !DistinctPairs(edges)
      ensures r == Fail(CycleViolation) ==> kind == DAG && ListedCycle(edges)
      ensures r == Ok || r == Fail(DuplicateEdge) || r == Fail(CycleViolation)
    {
      ghost var before := adj;
      assert Endpoint(edges, edges[i].0) && Endpoint(edges, edges[i].1);
      r := AddEdge(edges[i].0, edges[i].1, edges[i].2, true);
      if r == Ok {
        EdgesOfFresh(before, edges, i);
        EdgesOfStep(before, edges, i);
        StoresTriplesStep(before, edges, i);
        ListsFollowStep(before, edges, i);
        if kind == DAG {
          CheckedInsertionKeepsAcyclic(before, edges[i].0, edges[i].1, edges[i].2);
        }
      } else if r == Fail(DuplicateEdge) {
        EdgesOfDuplicate(before, edges, i);
      } else {
        EdgesOfStep(before, edges, i);
        EdgesOfCycle(AppendEdge(before, edges[i].0, edges[i].1, edges[i].2), edges, i + 1);
      }
    }

    /**
     * The second phase of `FromEdges`: each triple in order through a
     * checked `AddEdge`, stopping at the first failure.
     */
    method AddListedEdges(edges: seq<(V, V, E)>) returns (r: Status)
      requires Valid()
      requires forall v :: v in adj ==> adj[v] == []
      requires forall v :: Endpoint(edges, v) ==> v in adj
      modifies this
      ensures Valid() && adj.Keys == old(adj.Keys)
      ensures r == Ok ==> EdgeCount(adj) == |edges| && EdgesOf(adj, edges, |edges|)
      ensures r == Ok ==> DistinctPairs(edges)
      ensures r == Ok ==> StoresTriples(adj, edges, |edges|)
      ensures r == Ok ==> forall v :: v in adj ==> adj[v] == EntriesFrom(edges, v)
      ensures r == Ok && kind == DAG ==> !HasCycle(adj)
      ensures r == Fail(DuplicateEdge) ==> !DistinctPairs(edges)
      ensures r == Fail(CycleViolation) ==> kind == DAG && ListedCycle(edges)
      ensures r == Ok || r == Fail(DuplicateEdge) || r == Fail(CycleViolation)
    {
      ghost var keys := adj.Keys;
      SumDegreesNoEntries(adj, keys);
      NoEdgeNoCycle(adj);
      r := Ok;
      for i := 0 to |edges|
        invariant Valid() && adj.Keys == keys
        invariant EdgeCount(adj) == i
        invariant EdgesOf(adj, edges, i)
        invariant kind == DAG ==> !HasCycle(adj)
        invariant r == Ok
        invariant DistinctPairs(edges[..i])
        invariant StoresTriples(adj, edges, i) && ListsFollow(adj, edges, i)
      {
        r := AddListedEdge(edges, i);
        if r != Ok {
          return;
        }
      }
      assert edges[..|edges|] == edges;
    }
  }
}
