/**
 * The adjacency relation of a `DerivedGraph`: every stored vertex maps to the
 * ordered sequence of (neighbour, weight) entries of its outgoing edges.
 *
 * This module is the vocabulary shared by the graph store and the two
 * depth-first algorithms: edges, paths, reachability and cycles; the store's
 * invariants (no dangling entry, at most one entry per destination); the edge
 * count; and the adjacency value each mutation produces, with lemmas about
 * each of them.
 */
module Adjacency {

  /** Vertex -> its outgoing (neighbour, weight) entries, in insertion order. */
  type Adj<V(==), E> = map<V, seq<(V, E)>>

  ghost predicate Distinct<T>(s: seq<T>) {
    forall i, j :: 0 <= i < j < |s| ==> s[i] != s[j]
  }

  // ---------------------------------------------------------------------------
  // Entries, edges and the store's invariants
  // ---------------------------------------------------------------------------

  /** Some entry of the list `s` leads to `t`. */
  ghost predicate HasTarget<V, E>(s: seq<(V, E)>, t: V) {
    exists i :: 0 <= i < |s| && s[i].0 == t
  }

  /** No two entries of `s` lead to the same destination. */
  ghost predicate DistinctTargets<V, E>(s: seq<(V, E)>) {
    forall i, j :: 0 <= i < j < |s| ==> s[i].0 != s[j].0
  }

  /** The directed edge a -> b is stored. */
  ghost predicate Edge<V(!new), E>(adj: Adj<V, E>, a: V, b: V) {
    a in adj && HasTarget(adj[a], b)
  }

  /** Every entry leads to a stored vertex: no edge dangles. */
  ghost predicate NoDangling<V(!new), E>(adj: Adj<V, E>) {
    forall a, i :: a in adj && 0 <= i < |adj[a]| ==> adj[a][i].0 in adj
  }

  /** A source has at most one entry per destination. */
  ghost predicate NoParallel<V(!new), E>(adj: Adj<V, E>) {
    forall a :: a in adj ==> DistinctTargets(adj[a])
  }

  ghost predicate WellFormed<V(!new), E>(adj: Adj<V, E>) {
    NoDangling(adj) && NoParallel(adj)
  }

  /** Every edge of `small` is an edge of `big`. */
  ghost predicate SubGraph<V(!new), E>(small: Adj<V, E>, big: Adj<V, E>) {
    forall a, b :: Edge(small, a, b) ==> Edge(big, a, b)
  }

  /**
   * The linear scan for the entry leading to `t`: its index, or -1 when the
   * list has no such entry.
   */
  function IndexOfTarget<V(==,!new), E>(s: seq<(V, E)>, t: V): (i: int)
    ensures -1 <= i < |s|
    ensures 0 <= i ==> s[i].0 == t
    ensures i == -1 <==> !HasTarget(s, t)
  {
    if s == [] then -1
    else if s[0].0 == t then 0
    else
      var j := IndexOfTarget(s[1..], t);
      assert forall k :: 0 < k < |s| ==> s[k] == s[1..][k - 1];
      if j == -1 then -1 else j + 1
  }

  /** The list `s` with every entry leading to `t` erased, order kept (see `WithoutTargetKeepsOrder`). */
  function WithoutTarget<V(==,!new), E>(s: seq<(V, E)>, t: V): (r: seq<(V, E)>)
    ensures forall b :: HasTarget(r, b) <==> HasTarget(s, b) && b != t
    ensures forall e :: e in r ==> e in s
    ensures !HasTarget(s, t) ==> r == s
    ensures DistinctTargets(s) ==>
              DistinctTargets(r) && |r| == if HasTarget(s, t) then |s| - 1 else |s|
  {
    if s == [] then []
    else
      var rest := WithoutTarget(s[1..], t);
      assert s == [s[0]] + s[1..];
      HasTargetCons(s[0], s[1..]);
      if s[0].0 == t then rest
      else
        HasTargetCons(s[0], rest);
        assert DistinctTargets(s) ==> !HasTarget(rest, s[0].0);
        [s[0]] + rest
  }

  /** `a` occurs in `s` at some position before an occurrence of `b`. */
  ghost predicate Precedes<T>(s: seq<T>, a: T, b: T) {
    exists k, l :: 0 <= k < l < |s| && s[k] == a && s[l] == b
  }

  /** Any two entries of `r` occur in `s` in the same relative order. */
  ghost predicate InOrder<T>(r: seq<T>, s: seq<T>) {
    forall i, j :: 0 <= i < j < |r| ==> Precedes(s, r[i], r[j])
  }

  /** Erasing keeps the surviving entries in their relative order. */
  lemma {:induction false} WithoutTargetKeepsOrder<V(!new), E>(s: seq<(V, E)>, t: V)
    ensures InOrder(WithoutTarget(s, t), s)
  {
    if s != [] {
      var rest := WithoutTarget(s[1..], t);
      WithoutTargetKeepsOrder(s[1..], t);
      assert s == [s[0]] + s[1..];
      if s[0].0 == t {
        InOrderSkip(s[0], rest, s[1..]);
      } else {
        InOrderKeep(s[0], rest, s[1..]);
      }
    }
  }

  /** An extra element in front of `q` keeps `r` in order. */
  lemma InOrderSkip<T>(x: T, r: seq<T>, q: seq<T>)
    requires InOrder(r, q)
    ensures InOrder(r, [x] + q)
  {
    var s := [x] + q;
    forall i, j | 0 <= i < j < |r| ensures Precedes(s, r[i], r[j]) {
      assert Precedes(q, r[i], r[j]);
      var k, l :| 0 <= k < l < |q| && q[k] == r[i] && q[l] == r[j];
      assert s[k + 1] == r[i] && s[l + 1] == r[j];
    }
  }

  /** The same element in front of both keeps `r` in order, when every entry of `r` is in `q`. */
  lemma InOrderKeep<T>(x: T, r: seq<T>, q: seq<T>)
    requires InOrder(r, q) && forall e :: e in r ==> e in q
    ensures InOrder([x] + r, [x] + q)
  {
    var r', s := [x] + r, [x] + q;
    forall i, j | 0 <= i < j < |r'| ensures Precedes(s, r'[i], r'[j]) {
      if i == 0 {
        assert r'[j] == r[j - 1] && r[j - 1] in q;
        var m :| 0 <= m < |q| && q[m] == r[j - 1];
        assert s[0] == r'[0] && s[m + 1] == r'[j];
      } else {
        assert r'[i] == r[i - 1] && r'[j] == r[j - 1];
        assert Precedes(q, r[i - 1], r[j - 1]);
        var k, l :| 0 <= k < l < |q| && q[k] == r[i - 1] && q[l] == r[j - 1];
        assert s[k + 1] == r'[i] && s[l + 1] == r'[j];
      }
    }
  }

  /** A list with `x` in front has an entry for b exactly when x leads to b or the rest has one. */
  lemma HasTargetCons<V, E>(x: (V, E), s: seq<(V, E)>)
    ensures forall b :: HasTarget([x] + s, b) <==> x.0 == b || HasTarget(s, b)
  {
    var r := [x] + s;
    forall b ensures HasTarget(r, b) <==> x.0 == b || HasTarget(s, b) {
      if HasTarget(r, b) && x.0 != b {
        var k :| 0 <= k < |r| && r[k].0 == b;
        assert r[k] == s[k - 1];
      }
      if x.0 == b {
        assert r[0].0 == b;
      }
      if HasTarget(s, b) {
        var k :| 0 <= k < |s| && s[k].0 == b;
        assert r[k + 1] == s[k];
      }
    }
  }

  // ---------------------------------------------------------------------------
  // Paths, reachability and cycles
  // ---------------------------------------------------------------------------

  /** `p` is a non-empty walk along stored edges. */
  ghost predicate Path<V(!new), E>(adj: Adj<V, E>, p: seq<V>) {
    0 < |p| && forall i :: 0 <= i < |p| - 1 ==> Edge(adj, p[i], p[i + 1])
  }

  /** `b` is reachable from `a` by a walk of zero or more edges. */
  ghost predicate Reaches<V(!new), E>(adj: Adj<V, E>, a: V, b: V) {
    exists p :: Path(adj, p) && p[0] == a && p[|p| - 1] == b
  }

  /** Some vertex reaches itself by a walk of at least one edge. */
  ghost predicate HasCycle<V(!new), E>(adj: Adj<V, E>) {
    exists p :: Path(adj, p) && |p| >= 2 && p[0] == p[|p| - 1]
  }

  lemma ReachesRefl<V(!new), E>(adj: Adj<V, E>, a: V)
    ensures Reaches(adj, a, a)
  {
    assert Path(adj, [a]);
  }

  lemma ReachesEdge<V(!new), E>(adj: Adj<V, E>, a: V, b: V)
    requires Edge(adj, a, b)
    ensures Reaches(adj, a, b)
  {
    assert Path(adj, [a, b]);
  }

  lemma PathTail<V(!new), E>(adj: Adj<V, E>, p: seq<V>)
    requires Path(adj, p) && |p| > 1
    ensures Path(adj, p[1..])
  {
    forall i | 0 <= i < |p[1..]| - 1 ensures Edge(adj, p[1..][i], p[1..][i + 1]) {
      assert p[1..][i] == p[i + 1] && p[1..][i + 1] == p[i + 2];
    }
  }

  /** Joining two walks that meet at a common vertex gives a walk. */
  lemma PathJoin<V(!new), E>(adj: Adj<V, E>, p: seq<V>, q: seq<V>)
    requires Path(adj, p) && Path(adj, q) && p[|p| - 1] == q[0]
    ensures Path(adj, p + q[1..])
  {
    var r := p + q[1..];
    forall i | 0 <= i < |r| - 1 ensures Edge(adj, r[i], r[i + 1]) {
      if i < |p| - 1 {
        assert r[i] == p[i] && r[i + 1] == p[i + 1];
      } else {
        assert r[i] == q[i - |p| + 1] && r[i + 1] == q[i - |p| + 2];
      }
    }
  }

  lemma ReachesTrans<V(!new), E>(adj: Adj<V, E>, a: V, b: V, c: V)
    requires Reaches(adj, a, b) && Reaches(adj, b, c)
    ensures Reaches(adj, a, c)
  {
    var p :| Path(adj, p) && p[0] == a && p[|p| - 1] == b;
    var q :| Path(adj, q) && q[0] == b && q[|q| - 1] == c;
    PathJoin(adj, p, q);
    var r := p + q[1..];
    assert r[0] == a && r[|r| - 1] == c;
  }

  /** A walk from `a` to `b` closed by the edge b -> a is a cycle. */
  lemma BackEdgeCycle<V(!new), E>(adj: Adj<V, E>, a: V, b: V)
    requires Reaches(adj, a, b) && Edge(adj, b, a)
    ensures HasCycle(adj)
  {
    var p :| Path(adj, p) && p[0] == a && p[|p| - 1] == b;
    PathJoin(adj, p, [b, a]);
    var r := p + [a];
    assert r == p + [b, a][1..];
    assert |r| >= 2 && r[0] == r[|r| - 1];
  }

  /**
   * A vertex set closed under successors contains everything reachable from
   * any of its members.
   */
  lemma {:induction false} ReachClosed<V(!new), E>(adj: Adj<V, E>, c: set<V>, a: V, b: V)
    requires a in c && Reaches(adj, a, b)
    requires forall x, y :: x in c && Edge(adj, x, y) ==> y in c
    ensures b in c
  {
    var p :| Path(adj, p) && p[0] == a && p[|p| - 1] == b;
    ReachClosedAlong(adj, c, p);
  }

  lemma {:induction false} ReachClosedAlong<V(!new), E>(adj: Adj<V, E>, c: set<V>, p: seq<V>)
    requires Path(adj, p) && p[0] in c
    requires forall x, y :: x in c && Edge(adj, x, y) ==> y in c
    ensures p[|p| - 1] in c
    decreases |p|
  {
    if |p| > 1 {
      assert Edge(adj, p[0], p[1]);
      PathTail(adj, p);
      ReachClosedAlong(adj, c, p[1..]);
    }
  }

  /** A walk of two or more vertices starts with an edge. */
  lemma PathFirstEdge<V(!new), E>(adj: Adj<V, E>, p: seq<V>)
    requires Path(adj, p) && |p| >= 2
    ensures Edge(adj, p[0], p[1])
  {
  }

  /** A graph without edges has no cycle. */
  lemma NoEdgeNoCycle<V(!new), E>(adj: Adj<V, E>)
    requires forall a, b :: !Edge(adj, a, b)
    ensures !HasCycle(adj)
  {
    if HasCycle(adj) {
      var p :| Path(adj, p) && |p| >= 2 && p[0] == p[|p| - 1];
      PathFirstEdge(adj, p);
      assert false;
    }
  }

  /** A cycle of a subgraph is a cycle of the whole graph. */
  lemma SubGraphCycle<V(!new), E>(small: Adj<V, E>, big: Adj<V, E>)
    requires SubGraph(small, big) && HasCycle(small)
    ensures HasCycle(big)
  {
    var p :| Path(small, p) && |p| >= 2 && p[0] == p[|p| - 1];
    assert Path(big, p);
  }

  // ---------------------------------------------------------------------------
  // The edge count
  // ---------------------------------------------------------------------------

  /** The sum of the list lengths of the vertices in `ks`. */
  ghost function SumDegrees<V(!new), E>(adj: Adj<V, E>, ks: set<V>): nat
    requires ks <= adj.Keys
    decreases ks
  {
    if ks == {} then 0 else var k :| k in ks; |adj[k]| + SumDegrees(adj, ks - {k})
  }

  /** The number of directed edges: the total number of adjacency entries. */
  ghost function EdgeCount<V(!new), E>(adj: Adj<V, E>): nat {
    SumDegrees(adj, adj.Keys)
  }

  /** The sum does not depend on the order in which vertices are taken. */
  lemma {:induction false} SumDegreesPick<V(!new), E>(adj: Adj<V, E>, ks: set<V>, x: V)
    requires ks <= adj.Keys && x in ks
    ensures SumDegrees(adj, ks) == |adj[x]| + SumDegrees(adj, ks - {x})
    decreases ks
  {
    var k :| k in ks && SumDegrees(adj, ks) == |adj[k]| + SumDegrees(adj, ks - {k});
    if k != x {
      SumDegreesPick(adj, ks - {k}, x);
      SumDegreesPick(adj, ks - {x}, k);
      assert ks - {k} - {x} == ks - {x} - {k};
    }
  }

  lemma {:induction false} SumDegreesAgree<V(!new), E>(a: Adj<V, E>, b: Adj<V, E>, ks: set<V>)
    requires ks <= a.Keys && ks <= b.Keys
    requires forall k :: k in ks ==> |a[k]| == |b[k]|
    ensures SumDegrees(a, ks) == SumDegrees(b, ks)
    decreases ks
  {
    if ks != {} {
      var x :| x in ks;
      SumDegreesPick(a, ks, x);
      SumDegreesPick(b, ks, x);
      SumDegreesAgree(a, b, ks - {x});
    }
  }

  /** Vertices with empty lists contribute nothing. */
  lemma {:induction false} SumDegreesNoEntries<V(!new), E>(adj: Adj<V, E>, ks: set<V>)
    requires ks <= adj.Keys
    requires forall k :: k in ks ==> adj[k] == []
    ensures SumDegrees(adj, ks) == 0
    decreases ks
  {
    if ks != {} {
      var x :| x in ks;
      SumDegreesPick(adj, ks, x);
      SumDegreesNoEntries(adj, ks - {x});
    }
  }

  /** Replacing one vertex's list changes the count by the difference in length. */
  lemma EdgeCountUpdate<V(!new), E>(adj: Adj<V, E>, k: V, s: seq<(V, E)>)
    requires k in adj
    ensures EdgeCount(adj[k := s]) + |adj[k]| == EdgeCount(adj) + |s|
  {
    var m := adj[k := s];
    assert m.Keys == adj.Keys;
    SumDegreesPick(adj, adj.Keys, k);
    SumDegreesPick(m, m.Keys, k);
    SumDegreesAgree(adj, m, adj.Keys - {k});
  }

  /** A new vertex with an empty list adds no edge. */
  lemma EdgeCountNewVertex<V(!new), E>(adj: Adj<V, E>, v: V)
    requires v !in adj
    ensures EdgeCount(adj[v := []]) == EdgeCount(adj)
  {
    var m := adj[v := []];
    SumDegreesPick(m, m.Keys, v);
    assert m.Keys - {v} == adj.Keys;
    SumDegreesAgree(adj, m, adj.Keys);
  }

  // ---------------------------------------------------------------------------
  // Adding an edge
  // ---------------------------------------------------------------------------

  /** The adjacency after appending the entry (dst, w) to src's list. */
  function AppendEdge<V(==,!new), E>(adj: Adj<V, E>, src: V, dst: V, w: E): Adj<V, E>
    requires src in adj
  {
    adj[src := adj[src] + [(dst, w)]]
  }

  lemma HasTargetAppend<V, E>(s: seq<(V, E)>, e: (V, E), b: V)
    ensures HasTarget(s + [e], b) <==> HasTarget(s, b) || e.0 == b
  {
    if HasTarget(s + [e], b) && e.0 != b {
      var k :| 0 <= k < |s + [e]| && (s + [e])[k].0 == b;
      assert s[k].0 == b;
    }
    if HasTarget(s, b) {
      var k :| 0 <= k < |s| && s[k].0 == b;
      assert (s + [e])[k].0 == b;
    }
    if e.0 == b {
      assert (s + [e])[|s|].0 == b;
    }
  }

  /** Appending src -> dst adds exactly that edge. */
  lemma AppendEdgeEdges<V(!new), E>(adj: Adj<V, E>, src: V, dst: V, w: E)
    requires src in adj
    ensures AppendEdge(adj, src, dst, w).Keys == adj.Keys
    ensures forall a, b :: Edge(AppendEdge(adj, src, dst, w), a, b) <==>
                           Edge(adj, a, b) || (a == src && b == dst)
  {
    forall b ensures HasTarget(adj[src] + [(dst, w)], b) <==> HasTarget(adj[src], b) || dst == b {
      HasTargetAppend(adj[src], (dst, w), b);
    }
  }

  /** Appending an edge between stored vertices that has no entry yet keeps the invariants. */
  lemma AppendEdgeWellFormed<V(!new), E>(adj: Adj<V, E>, src: V, dst: V, w: E)
    requires WellFormed(adj) && src in adj && dst in adj && !Edge(adj, src, dst)
    ensures WellFormed(AppendEdge(adj, src, dst, w))
  {
    var m: Adj<V, E> := AppendEdge(adj, src, dst, w);
    var s := adj[src] + [(dst, w)];
    forall i, j | 0 <= i < j < |s| ensures s[i].0 != s[j].0 {
      if j == |s| - 1 {
        assert s[i] == adj[src][i];
      } else {
        assert s[i] == adj[src][i] && s[j] == adj[src][j];
      }
    }
    forall a: V, i: int | a in m && 0 <= i < |m[a]| ensures m[a][i].0 in m {
      if a == src && i < |adj[src]| {
        assert m[a][i] == adj[src][i];
      }
    }
  }

  /** Appending an edge adds exactly one to the edge count. */
  lemma AppendEdgeCount<V(!new), E>(adj: Adj<V, E>, src: V, dst: V, w: E)
    requires src in adj
    ensures EdgeCount(AppendEdge(adj, src, dst, w)) == EdgeCount(adj) + 1
  {
    EdgeCountUpdate(adj, src, adj[src] + [(dst, w)]);
  }

  /**
   * A walk in the graph extended by src -> dst either is a walk of the
   * original graph, or uses the new edge: then its start reaches src and dst
   * reaches its end, both in the original graph.
   */
  lemma {:induction false} AppendEdgeWalk<V(!new), E>(adj: Adj<V, E>, src: V, dst: V, w: E, p: seq<V>)
    requires src in adj && Path(AppendEdge(adj, src, dst, w), p)
    ensures Reaches(adj, p[0], p[|p| - 1]) ||
            (Reaches(adj, p[0], src) && Reaches(adj, dst, p[|p| - 1]))
    decreases |p|
  {
    var m: Adj<V, E> := AppendEdge(adj, src, dst, w);
    AppendEdgeEdges(adj, src, dst, w);
    if |p| == 1 {
      ReachesRefl(adj, p[0]);
    } else {
      assert Edge(m, p[0], p[1]);
      PathTail(m, p);
      AppendEdgeWalk(adj, src, dst, w, p[1..]);
      var last := p[|p| - 1];
      assert p[1..][0] == p[1] && p[1..][|p[1..]| - 1] == last;
      if Edge(adj, p[0], p[1]) {
        ReachesEdge(adj, p[0], p[1]);
        if Reaches(adj, p[1], last) {
          ReachesTrans(adj, p[0], p[1], last);
        } else {
          ReachesTrans(adj, p[0], p[1], src);
        }
      } else {
        assert p[0] == src && p[1] == dst;
        ReachesRefl(adj, src);
        if Reaches(adj, p[1], last) {
        } else {
        }
      }
    }
  }

  /**
   * The incremental cycle check: adding src -> dst creates a cycle exactly
   * when the graph already had one or dst already reaches src (a self-loop
   * is the case src == dst).
   */
  lemma AppendEdgeCycle<V(!new), E>(adj: Adj<V, E>, src: V, dst: V, w: E)
    requires src in adj
    ensures HasCycle(AppendEdge(adj, src, dst, w)) <==> HasCycle(adj) || Reaches(adj, dst, src)
  {
    var m: Adj<V, E> := AppendEdge(adj, src, dst, w);
    AppendEdgeEdges(adj, src, dst, w);
    if HasCycle(m) {
      var p :| Path(m, p) && |p| >= 2 && p[0] == p[|p| - 1];
      var c := p[0];
      assert Edge(m, c, p[1]);
      PathTail(m, p);
      AppendEdgeWalk(adj, src, dst, w, p[1..]);
      assert p[1..][0] == p[1] && p[1..][|p[1..]| - 1] == c;
      if Edge(adj, c, p[1]) {
        if Reaches(adj, p[1], c) {
          BackEdgeCycle(adj, p[1], c);
        } else {
          ReachesEdge(adj, c, p[1]);
          ReachesTrans(adj, dst, c, p[1]);
          ReachesTrans(adj, dst, p[1], src);
        }
      } else {
        assert c == src && p[1] == dst;
      }
    }
    if HasCycle(adj) {
      SubGraphCycle(adj, m);
    }
    if Reaches(adj, dst, src) {
      var p :| Path(adj, p) && p[0] == dst && p[|p| - 1] == src;
      assert Path(m, p);
      assert Edge(m, src, dst);
      PathJoin(m, p, [src, dst]);
      var r := p + [dst];
      assert r == p + [src, dst][1..];
      assert Path(m, r) && |r| >= 2 && r[0] == r[|r| - 1];
    }
  }

  // ---------------------------------------------------------------------------
  // Removing an edge
  // ---------------------------------------------------------------------------

  /**
   * The adjacency after erasing v2 from v1's list and then v1 from v2's list
   * (the second erasure removes nothing when there is no such entry).
   */
  function DropEdge<V(==,!new), E>(adj: Adj<V, E>, v1: V, v2: V): Adj<V, E>
    requires v1 in adj && v2 in adj
  {
    var a1 := adj[v1 := WithoutTarget(adj[v1], v2)];
    a1[v2 := WithoutTarget(a1[v2], v1)]
  }

  /** Removal drops exactly the edges v1 -> v2 and v2 -> v1 and keeps every other one. */
  lemma DropEdgeEdges<V(!new), E>(adj: Adj<V, E>, v1: V, v2: V)
    requires v1 in adj && v2 in adj
    ensures DropEdge(adj, v1, v2).Keys == adj.Keys
    ensures forall a, b :: Edge(DropEdge(adj, v1, v2), a, b) <==>
              Edge(adj, a, b) && !(a == v1 && b == v2) && !(a == v2 && b == v1)
  {
  }

  lemma DropEdgeWellFormed<V(!new), E>(adj: Adj<V, E>, v1: V, v2: V)
    requires WellFormed(adj) && v1 in adj && v2 in adj
    ensures WellFormed(DropEdge(adj, v1, v2))
  {
    var m: Adj<V, E> := DropEdge(adj, v1, v2);
    forall a: V, i: int | a in m && 0 <= i < |m[a]| ensures m[a][i].0 in m {
      assert m[a][i] in m[a];
      if a == v2 {
        var a1 := adj[v1 := WithoutTarget(adj[v1], v2)];
        assert m[a][i] in a1[v2];
      }
    }
  }

  /**
   * Removing a stored edge v1 -> v2 lowers the count by one, and by one more
   * when a distinct reverse edge v2 -> v1 was stored too.
   */
  lemma DropEdgeCount<V(!new), E>(adj: Adj<V, E>, v1: V, v2: V)
    requires WellFormed(adj) && Edge(adj, v1, v2) && v2 in adj
    ensures EdgeCount(DropEdge(adj, v1, v2)) ==
            EdgeCount(adj) - 1 - (if v1 != v2 && Edge(adj, v2, v1) then 1 else 0)
  {
    var a1 := adj[v1 := WithoutTarget(adj[v1], v2)];
    EdgeCountUpdate(adj, v1, WithoutTarget(adj[v1], v2));
    EdgeCountUpdate(a1, v2, WithoutTarget(a1[v2], v1));
    if v1 == v2 {
      assert !HasTarget(a1[v2], v1);
    }
  }

  // ---------------------------------------------------------------------------
  // Removing a vertex
  // ---------------------------------------------------------------------------

  /** The adjacency after deleting `v` and every entry that leads to it. */
  function DropVertex<V(==,!new), E>(adj: Adj<V, E>, v: V): Adj<V, E> {
    map k | k in adj && k != v :: WithoutTarget(adj[k], v)
  }

  /** Vertex removal deletes `v` with all its incident edges and keeps every other edge. */
  lemma DropVertexEdges<V(!new), E>(adj: Adj<V, E>, v: V)
    ensures DropVertex(adj, v).Keys == adj.Keys - {v}
    ensures forall a, b :: Edge(DropVertex(adj, v), a, b) <==>
              Edge(adj, a, b) && a != v && b != v
  {
  }

  lemma DropVertexWellFormed<V(!new), E>(adj: Adj<V, E>, v: V)
    requires WellFormed(adj)
    ensures WellFormed(DropVertex(adj, v))
  {
    var m: Adj<V, E> := DropVertex(adj, v);
    forall a: V, i: int | a in m && 0 <= i < |m[a]| ensures m[a][i].0 in m {
      assert m[a][i] in adj[a];
    }
  }

  /** The vertices other than `v` whose lists hold an entry for `v`. */
  ghost function InNeighbours<V(!new), E>(adj: Adj<V, E>, v: V): set<V> {
    set u | u in adj && u != v && HasTarget(adj[u], v)
  }

  lemma {:induction false} DropVertexSum<V(!new), E>(adj: Adj<V, E>, v: V, ks: set<V>)
    requires NoParallel(adj) && ks <= adj.Keys - {v}
    ensures SumDegrees(DropVertex(adj, v), ks) + |set u | u in ks && HasTarget(adj[u], v)| ==
            SumDegrees(adj, ks)
    decreases ks
  {
    var m: Adj<V, E> := DropVertex(adj, v);
    if ks != {} {
      var x :| x in ks;
      SumDegreesPick(m, ks, x);
      SumDegreesPick(adj, ks, x);
      DropVertexSum(adj, v, ks - {x});
      var inRest := set u | u in ks - {x} && HasTarget(adj[u], v);
      var inAll := set u | u in ks && HasTarget(adj[u], v);
      if HasTarget(adj[x], v) {
        assert inAll == inRest + {x};
      } else {
        assert inAll == inRest;
      }
    }
  }

  /**
   * Removing a stored vertex removes its own entries and one entry from the
   * list of every other vertex that had an edge to it.
   */
  lemma DropVertexCount<V(!new), E>(adj: Adj<V, E>, v: V)
    requires NoParallel(adj) && v in adj
    ensures EdgeCount(DropVertex(adj, v)) == EdgeCount(adj) - |adj[v]| - |InNeighbours(adj, v)|
  {
    var m: Adj<V, E> := DropVertex(adj, v);
    SumDegreesPick(adj, adj.Keys, v);
    DropVertexSum(adj, v, adj.Keys - {v});
    assert m.Keys == adj.Keys - {v};
    assert (set u | u in adj.Keys - {v} && HasTarget(adj[u], v)) == InNeighbours(adj, v);
  }
}
