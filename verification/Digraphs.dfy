/** Directed graphs given by adjacency lists: paths, reachability, cycles. */
module Digraphs {
  import opened Sequences

  predicate Edge<N(==)>(g: map<N, seq<N>>, u: N, v: N) {
    u in g && v in g[u]
  }

  /** Every edge ends at a node of the graph. */
  ghost predicate Closed<N(!new)>(g: map<N, seq<N>>) {
    forall u, v :: Edge(g, u, v) ==> v in g
  }

  ghost predicate IsPath<N(!new)>(g: map<N, seq<N>>, p: seq<N>) {
    |p| >= 1 && forall i :: 0 <= i < |p| - 1 ==> Edge(g, p[i], p[i + 1])
  }

  ghost predicate IsWalk<N(!new)>(g: map<N, seq<N>>, u: N, p: seq<N>, v: N) {
    IsPath(g, p) && p[0] == u && p[|p| - 1] == v
  }

  ghost predicate Reaches<N(!new)>(g: map<N, seq<N>>, u: N, v: N) {
    exists p :: IsWalk(g, u, p, v)
  }

  ghost predicate IsCycle<N(!new)>(g: map<N, seq<N>>, c: seq<N>) {
    IsPath(g, c) && |c| >= 2 && c[0] == c[|c| - 1]
  }

  /** A cycle that repeats no node except its first, at the end. */
  ghost predicate IsSimpleCycle<N(!new)>(g: map<N, seq<N>>, c: seq<N>) {
    IsCycle(g, c) && NoDuplicates(c[..|c| - 1])
  }

  ghost predicate Acyclic<N(!new)>(g: map<N, seq<N>>) {
    forall c :: !IsCycle(g, c)
  }

  /** `s` is closed under the edges of `g`. */
  ghost predicate ClosedSet<N(!new)>(g: map<N, seq<N>>, s: set<N>) {
    forall u, v :: u in s && Edge(g, u, v) ==> v in s
  }

  lemma ReachesSelf<N(!new)>(g: map<N, seq<N>>, u: N)
    ensures Reaches(g, u, u)
  {
    assert IsWalk(g, u, [u], u);
  }

  lemma ReachesStep<N(!new)>(g: map<N, seq<N>>, u: N, v: N, w: N)
    requires Edge(g, u, v) && Reaches(g, v, w)
    ensures Reaches(g, u, w)
  {
    var p :| IsWalk(g, v, p, w);
    var q := [u] + p;
    forall i | 0 <= i < |q| - 1 ensures Edge(g, q[i], q[i + 1]) {
      if i > 0 {
        assert q[i] == p[i - 1] && q[i + 1] == p[i];
      }
    }
    assert IsWalk(g, u, q, w);
  }

  lemma PathTail<N(!new)>(g: map<N, seq<N>>, p: seq<N>)
    requires IsPath(g, p) && |p| >= 2
    ensures Edge(g, p[0], p[1]) && IsPath(g, p[1..])
  {
  }

  /** A walk never leaves a closed set. */
  lemma {:induction false} WalkStaysInside<N(!new)>(g: map<N, seq<N>>, s: set<N>, p: seq<N>, k: nat)
    requires ClosedSet(g, s) && IsPath(g, p) && p[0] in s && k < |p|
    ensures p[k] in s
  {
    if k > 0 {
      WalkStaysInside(g, s, p, k - 1);
      assert Edge(g, p[k - 1], p[k - 1 + 1]);
    }
  }

  lemma ReachesStaysInside<N(!new)>(g: map<N, seq<N>>, s: set<N>, u: N, v: N)
    requires ClosedSet(g, s) && u in s && Reaches(g, u, v)
    ensures v in s
  {
    var p :| IsWalk(g, u, p, v);
    WalkStaysInside(g, s, p, |p| - 1);
  }

  /** Every edge out of `order[i]` ends before position `i`. */
  ghost predicate EdgesGoBack<N(!new)>(g: map<N, seq<N>>, order: seq<N>) {
    forall i, v :: 0 <= i < |order| && Edge(g, order[i], v) ==> v in order[..i]
  }

  lemma EdgesGoBackClosed<N(!new)>(g: map<N, seq<N>>, order: seq<N>)
    requires EdgesGoBack(g, order)
    ensures ClosedSet(g, Elements(order))
  {
  }

  /** Along a walk inside such an order, positions go down: after k steps from order[i], at most i - k. */
  lemma {:induction false} WalkDescends<N(!new)>(g: map<N, seq<N>>, order: seq<N>, p: seq<N>, i: nat, k: nat)
    returns (j: nat)
    requires EdgesGoBack(g, order) && IsPath(g, p) && i < |order| && p[0] == order[i] && k < |p|
    ensures j + k <= i && order[j] == p[k]
  {
    j := i;
    if k > 0 {
      var j' := WalkDescends(g, order, p, i, k - 1);
      assert Edge(g, p[k - 1], p[k - 1 + 1]);
      assert p[k] in order[..j'];
      j :| 0 <= j < j' && order[j] == p[k];
    }
  }

  /** No cycle starts inside a duplicate-free order whose edges all go back. */
  lemma OrderHasNoCycle<N(!new)>(g: map<N, seq<N>>, order: seq<N>, c: seq<N>)
    requires EdgesGoBack(g, order) && NoDuplicates(order) && IsCycle(g, c)
    ensures c[0] !in order
  {
    if c[0] in order {
      var i :| 0 <= i < |order| && order[i] == c[0];
      var j := WalkDescends(g, order, c, i, |c| - 1);
      assert false;
    }
  }
}
