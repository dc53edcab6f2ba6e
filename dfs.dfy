/**
 * Depth-first search over the graph store. The `visited` map of the search
 * is a set of vertices (a vertex maps to true exactly when it is in the
 * set); each call also returns the vertices it entered, in the order it
 * entered them.
 */
module Searching {
  import opened Adjacency
  import opened Graph

  /** Every vertex after the first is entered along an edge from a vertex entered earlier. */
  ghost predicate TreeOrdered<V(!new), E>(adj: Adj<V, E>, order: seq<V>) {
    forall k :: 0 < k < |order| ==> exists j :: 0 <= j < k && Edge(adj, order[j], order[k])
  }

  /**
   * Entering a subtree: appending an order that starts at a successor of the
   * first vertex keeps the tree order, and keeps each vertex once when the
   * two orders share no vertex.
   */
  lemma {:induction false} TreeOrderedAppend<V(!new), E>(adj: Adj<V, E>, prefix: seq<V>, sub: seq<V>)
    requires TreeOrdered(adj, prefix) && TreeOrdered(adj, sub)
    requires |prefix| > 0 && |sub| > 0 && Edge(adj, prefix[0], sub[0])
    requires Distinct(prefix) && Distinct(sub) && forall u :: u in sub ==> u !in prefix
    ensures TreeOrdered(adj, prefix + sub) && Distinct(prefix + sub)
  {
    var order := prefix + sub;
    forall k | 0 < k < |order| ensures exists j :: 0 <= j < k && Edge(adj, order[j], order[k]) {
      if k == |prefix| {
        assert order[0] == prefix[0] && order[k] == sub[0];
      } else if k > |prefix| {
        var j :| 0 <= j < k - |prefix| && Edge(adj, sub[j], sub[k - |prefix|]);
        assert order[j + |prefix|] == sub[j] && order[k] == sub[k - |prefix|];
      } else {
        var j :| 0 <= j < k && Edge(adj, prefix[j], prefix[k]);
        assert order[j] == prefix[j] && order[k] == prefix[k];
      }
    }
    forall i, j | 0 <= i < j < |order| ensures order[i] != order[j] {
      if j >= |prefix| && i < |prefix| {
        assert order[j] in sub && order[i] in prefix;
      } else if i >= |prefix| {
        assert order[i] == sub[i - |prefix|] && order[j] == sub[j - |prefix|];
      }
    }
  }

  /**
   * Marks `v` visited, then walks v's list from its first entry to its last
   * and recurses into every neighbour (the first component of the entry)
   * that is not yet visited. `visited` only grows; every vertex it adds is
   * reachable from `v` and entered once; and every successor of a vertex
   * entered here ends up visited.
   */
  method DfsUtil<V(==,!new), E>(g: DerivedGraph<V, E>, v: V, visited: set<V>)
    returns (visited': set<V>, order: seq<V>)
    requires g.Valid() && v in g.adj
    requires visited <= g.adj.Keys
    ensures visited + {v} <= visited' <= g.adj.Keys
    ensures |order| > 0 && order[0] == v && Distinct(order)
    ensures forall u :: u in order <==> u == v || u in visited' - visited
    ensures forall u :: u in order ==> Reaches(g.adj, v, u)
    ensures TreeOrdered(g.adj, order)
    ensures forall u, w :: u in order && Edge(g.adj, u, w) ==> w in visited'
    decreases g.adj.Keys - visited, if v in visited then 1 else 0
  {
    visited' := visited + {v};
    order := [v];
    ReachesRefl(g.adj, v);
    var nbrs := g.Adjacent(v);
    for i := 0 to |nbrs|
      invariant visited + {v} <= visited' <= g.adj.Keys
      invariant |order| > 0 && order[0] == v && Distinct(order)
      invariant forall u :: u in order <==> u == v || u in visited' - visited
      invariant forall u :: u in order ==> Reaches(g.adj, v, u)
      invariant TreeOrdered(g.adj, order)
      invariant forall u, w :: u in order && u != v && Edge(g.adj, u, w) ==> w in visited'
      invariant forall j :: 0 <= j < i ==> nbrs[j].0 in visited'
    {
      var w := nbrs[i].0;
      if w !in visited' {
        assert Edge(g.adj, v, w);
        var more, sub := DfsUtil(g, w, visited');
        forall u | u in sub ensures Reaches(g.adj, v, u) {
          ReachesEdge(g.adj, v, w);
          ReachesTrans(g.adj, v, w, u);
        }
        TreeOrderedAppend(g.adj, order, sub);
        order := order + sub;
        visited' := more;
      }
    }
    forall w | Edge(g.adj, v, w) ensures w in visited' {
      var j :| 0 <= j < |nbrs| && nbrs[j].0 == w;
    }
  }

  /**
   * Runs `DfsUtil` from `start` with a fresh, empty `visited` map. On return
   * the visited vertices are exactly those reachable from `start`, and each
   * was entered once, `start` first.
   */
  method Dfs<V(==,!new), E>(g: DerivedGraph<V, E>, start: V) returns (visited: set<V>, order: seq<V>)
    requires g.Valid() && start in g.adj
    ensures forall u :: u in visited <==> Reaches(g.adj, start, u)
    ensures visited <= g.adj.Keys
    ensures |order| > 0 && order[0] == start && Distinct(order)
    ensures forall u :: u in order <==> u in visited
  {
    visited, order := DfsUtil(g, start, {});
    forall u | Reaches(g.adj, start, u) ensures u in visited {
      ReachClosed(g.adj, visited, start, u);
    }
  }
}
