/**
 * Cycle detection: a depth-first search that carries two vertex sets,
 * `visited` (ever entered) and `recursionStack` (on the active recursion
 * path), and reports a cycle when it meets an edge into a vertex that is on
 * the recursion path (a back edge). Vertices that are visited but off the
 * path are never entered again.
 *
 * `IsCyclic` and `IsCyclicUtil` take the adjacency value the graph store
 * iterates with its begin/end cursors.
 */
module GraphAlgorithms {
  import opened Adjacency

  /**
   * `done` lists finished vertices in the order they finished, and every
   * successor of a finished vertex finished before it.
   */
  ghost predicate FinishOrdered<V(!new), E>(adj: Adj<V, E>, done: seq<V>) {
    forall i, w :: 0 <= i < |done| && Edge(adj, done[i], w) ==> w in done[..i]
  }

  /** A walk that leaves the finished vertex done[i] ends at a vertex that finished earlier. */
  lemma {:induction false} FinishOrderedWalk<V(!new), E>(adj: Adj<V, E>, done: seq<V>, i: nat, p: seq<V>)
    requires FinishOrdered(adj, done) && i < |done|
    requires Path(adj, p) && |p| >= 2 && p[0] == done[i]
    ensures p[|p| - 1] in done[..i]
    decreases |p|
  {
    assert Edge(adj, p[0], p[1]);
    assert p[1] in done[..i];
    var j :| 0 <= j < i && done[j] == p[1];
    if |p| > 2 {
      PathTail(adj, p);
      FinishOrderedWalk(adj, done, j, p[1..]);
      assert done[..j] <= done[..i];
    }
  }

  /** When every vertex has finished in that order, the graph has no cycle. */
  lemma FinishOrderedAcyclic<V(!new), E>(adj: Adj<V, E>, done: seq<V>)
    requires FinishOrdered(adj, done) && Distinct(done)
    requires forall v :: v in adj ==> v in done
    ensures !HasCycle(adj)
  {
    if HasCycle(adj) {
      var p :| Path(adj, p) && |p| >= 2 && p[0] == p[|p| - 1];
      assert Edge(adj, p[0], p[1]);
      var i :| 0 <= i < |done| && done[i] == p[0];
      FinishOrderedWalk(adj, done, i, p);
      assert false;
    }
  }

  /**
   * Explores `v` (not yet visited): marks it visited and on the path, then
   * for each entry of its list in order recurses into an unvisited neighbour
   * or reports a cycle at a neighbour on the path; on the way out takes `v`
   * off the path. `done` is the ghost finishing order.
   */
  method IsCyclicUtil<V(==,!new), E>(adj: Adj<V, E>, v: V, visited: set<V>, recursionStack: set<V>,
                                     ghost done: seq<V>)
    returns (cyclic: bool, visited': set<V>, recursionStack': set<V>, ghost done': seq<V>)
    requires NoDangling(adj)
    requires v in adj && v !in visited
    requires recursionStack <= visited <= adj.Keys
    requires Distinct(done) && FinishOrdered(adj, done)
    requires forall u :: u in done <==> u in visited - recursionStack
    requires forall u :: u in recursionStack ==> Reaches(adj, u, v)
    ensures cyclic ==> HasCycle(adj)
    ensures !cyclic ==> visited + {v} <= visited' <= adj.Keys && recursionStack' == recursionStack
    ensures !cyclic ==> Distinct(done') && FinishOrdered(adj, done')
    ensures !cyclic ==> forall u :: u in done' <==> u in visited' - recursionStack'
    decreases adj.Keys - visited
  {
    visited' := visited + {v};
    recursionStack' := recursionStack + {v};
    done' := done;
    ReachesRefl(adj, v);
    var nbrs := adj[v];
    var i := 0;
    while i < |nbrs|
      invariant 0 <= i <= |nbrs|
      invariant visited + {v} <= visited' <= adj.Keys
      invariant recursionStack' == recursionStack + {v}
      invariant Distinct(done') && FinishOrdered(adj, done')
      invariant forall u :: u in done' <==> u in visited' - recursionStack'
      invariant forall j :: 0 <= j < i ==> nbrs[j].0 in done'
    {
      var w := nbrs[i].0;
      assert Edge(adj, v, w);
      if w !in visited' {
        forall u | u in recursionStack' ensures Reaches(adj, u, w) {
          ReachesEdge(adj, v, w);
          ReachesTrans(adj, u, v, w);
        }
        cyclic, visited', recursionStack', done' := IsCyclicUtil(adj, w, visited', recursionStack', done');
        if cyclic {
          return;
        }
      } else if w in recursionStack' {
        BackEdgeCycle(adj, w, v);
        return true, visited', recursionStack', done';
      }
      i := i + 1;
    }
    forall w | Edge(adj, v, w) ensures w in done' {
      var j :| 0 <= j < |nbrs| && nbrs[j].0 == w;
    }
    recursionStack' := recursionStack' - {v};
    ghost var finished := done';
    assert v !in finished;
    done' := finished + [v];
    forall i, j | 0 <= i < j < |done'| ensures done'[i] != done'[j] {
      assert done'[i] == finished[i];
    }
    forall i, w | 0 <= i < |done'| && Edge(adj, done'[i], w) ensures w in done'[..i] {
      if i < |finished| {
        assert done'[i] == finished[i] && done'[..i] == finished[..i];
      } else {
        assert done'[..i] == finished;
      }
    }
    cyclic := false;
  }

  /**
   * Starts the search from every vertex not yet visited, with one pair of
   * sets for the whole call; the result is true exactly when some vertex
   * reaches itself by a non-empty walk.
   */
  method IsCyclic<V(==,!new), E>(adj: Adj<V, E>) returns (cyclic: bool)
    requires NoDangling(adj)
    ensures cyclic <==> HasCycle(adj)
  {
    var visited: set<V> := {};
    var recursionStack: set<V> := {};
    ghost var done: seq<V> := [];
    var todo := adj.Keys;
    while todo != {}
      invariant todo <= adj.Keys && visited <= adj.Keys
      invariant adj.Keys - todo <= visited
      invariant recursionStack == {}
      invariant Distinct(done) && FinishOrdered(adj, done)
      invariant forall u :: u in done <==> u in visited
      decreases todo
    {
      var v :| v in todo;
      todo := todo - {v};
      if v !in visited {
        var c;
        c, visited, recursionStack, done := IsCyclicUtil(adj, v, visited, recursionStack, done);
        if c {
          return true;
        }
      }
    }
    FinishOrderedAcyclic(adj, done);
    return false;
  }
}
