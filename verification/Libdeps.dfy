/**
 The library dependency resolver of site_scons/libdeps.py.

 `Visit`, `VisitAll` and `Resolve` give the meaning of the depth-first walk on an adjacency-list
 graph; `LibdepsNodes` (LibdepsNodes.dfy) is the stateful resolver that refines them.
 */
module Libdeps {
  import opened Sequences
  import opened Digraphs
  import Text

  /** A SCons node. `name` is what str(node) gives, and is all that sorting looks at. */
  datatype Node = Node(id: nat, name: string)

  datatype Visibility = Public | Private | Interface

  datatype Dependency = Dependency(target: Node, kind: Visibility)

  // ---------- Reading the direct dependencies of one node ----------

  /** sorted(deps, key=str(target_node)): Python's sort is stable. */
  function SortByName(deps: seq<Dependency>): seq<Dependency> {
    if deps == [] then [] else InsertByName(deps[0], SortByName(deps[1..]))
  }

  function InsertByName(d: Dependency, deps: seq<Dependency>): seq<Dependency> {
    if deps == [] || Text.AtMost(d.target.name, deps[0].target.name) then [d] + deps
    else [deps[0]] + InsertByName(d, deps[1..])
  }

  /** The targets of the dependencies that are not of the hidden kind, in order. */
  function Targets(deps: seq<Dependency>, hidden: Visibility): seq<Node> {
    if deps == [] then []
    else if deps[0].kind == hidden then Targets(deps[1..], hidden)
    else [deps[0].target] + Targets(deps[1..], hidden)
  }

  /** What the walk follows out of an inner node. */
  function InnerTargets(deps: seq<Dependency>): seq<Node> {
    Targets(SortByName(deps), Private)
  }

  /** What the walk starts from at the node being resolved. */
  function RootTargets(deps: seq<Dependency>): seq<Node> {
    Targets(SortByName(deps), Interface)
  }

  // ---------- The walk ----------

  datatype Walk = Walk(marked: set<Node>, walking: set<Node>, tsorted: seq<Node>)

  /** CycleFound is a raised DependencyCycleError with its cycle_nodes so far. */
  datatype Outcome = Done | CycleFound(nodes: seq<Node>)

  datatype Resolution = Sorted(nodes: seq<Node>) | Cyclic(nodes: seq<Node>)

  /** What one handler on the way out does to the reported list. */
  function Unwind(n: Node, nodes: seq<Node>): seq<Node>
    requires nodes != []
  {
    if |nodes| == 1 || nodes[0] != nodes[|nodes| - 1] then [n] + nodes else nodes
  }

  function Visit(g: map<Node, seq<Node>>, n: Node, w: Walk): (r: (Outcome, Walk))
    requires Closed(g) && n in g && w.walking <= g.Keys
    ensures w.walking <= r.1.walking <= g.Keys && w.marked <= r.1.marked
    ensures r.0.CycleFound? ==> r.0.nodes != []
    decreases g.Keys - w.walking, 0
  {
    if n in w.marked then (Done, w)
    else if n in w.walking then (CycleFound([n]), w)
    else
      assert forall v :: v in g[n] ==> Edge(g, n, v);
      var (outcome, w') := VisitAll(g, g[n], w.(walking := w.walking + {n}));
      match outcome
      case Done => (Done, w'.(marked := w'.marked + {n}, tsorted := w'.tsorted + [n]))
      case CycleFound(nodes) => (CycleFound(Unwind(n, nodes)), w')
  }

  function VisitAll(g: map<Node, seq<Node>>, ns: seq<Node>, w: Walk): (r: (Outcome, Walk))
    requires Closed(g) && (forall n :: n in ns ==> n in g) && w.walking <= g.Keys
    ensures w.walking <= r.1.walking <= g.Keys && w.marked <= r.1.marked
    ensures r.0.CycleFound? ==> r.0.nodes != []
    decreases g.Keys - w.walking, |ns| + 1
  {
    if ns == [] then (Done, w)
    else
      var (outcome, w') := Visit(g, ns[0], w);
      if outcome.CycleFound? then (outcome, w') else VisitAll(g, ns[1..], w')
  }

  function Resolve(g: map<Node, seq<Node>>, roots: seq<Node>): Resolution
    requires Closed(g) && forall n :: n in roots ==> n in g
  {
    var (outcome, w) := VisitAll(g, roots, Walk({}, {}, []));
    match outcome
    case Done => Sorted(Reversed(w.tsorted))
    case CycleFound(nodes) => Cyclic(nodes)
  }

  // ---------- What every step of the walk keeps ----------

  /** `stack` is the chain of calls in progress: exactly the nodes in `walking` but not in `marked`. */
  ghost predicate Inv(g: map<Node, seq<Node>>, stack: seq<Node>, w: Walk) {
    && w.marked == Elements(w.tsorted) && NoDuplicates(w.tsorted) && EdgesGoBack(g, w.tsorted)
    && w.walking == w.marked + Elements(stack) && w.marked !! Elements(stack)
    && w.walking <= g.Keys
    && NoDuplicates(stack) && (stack != [] ==> IsPath(g, stack))
  }

  /** A call may be made for `n` from the top of the stack. */
  ghost predicate Callable(g: map<Node, seq<Node>>, stack: seq<Node>, n: Node) {
    n in g && (stack != [] ==> Edge(g, stack[|stack| - 1], n))
  }

  /** The error already carries a full cycle, reachable from `n`. */
  ghost predicate Complete(g: map<Node, seq<Node>>, n: Node, nodes: seq<Node>) {
    IsSimpleCycle(g, nodes) && Reaches(g, n, nodes[0])
  }

  /** The error carries a path from `n` that ends at the node of the stack that closes the cycle. */
  ghost predicate Partial(g: map<Node, seq<Node>>, stack: seq<Node>, n: Node, nodes: seq<Node>) {
    && IsPath(g, nodes) && nodes[0] == n && nodes[|nodes| - 1] in stack
    && NoDuplicates(nodes[..|nodes| - 1])
    && forall x :: x in nodes[..|nodes| - 1] ==> x !in stack
  }

  ghost predicate Kept(g: map<Node, seq<Node>>, stack: seq<Node>, w: Walk, w': Walk, roots: set<Node>) {
    && Inv(g, stack, w') && w.tsorted <= w'.tsorted && roots <= w'.marked
    && forall m :: m in w'.marked && m !in w.marked ==> exists r :: r in roots && Reaches(g, r, m)
  }

  lemma {:induction false} VisitKeeps(g: map<Node, seq<Node>>, stack: seq<Node>, n: Node, w: Walk)
    requires Closed(g) && Inv(g, stack, w) && Callable(g, stack, n)
    ensures var (o, w') := Visit(g, n, w);
            match o
            case Done => Kept(g, stack, w, w', {n})
            case CycleFound(nodes) => Complete(g, n, nodes) || Partial(g, stack, n, nodes)
    decreases g.Keys - w.walking, 0
  {
    if n in w.marked {
    } else if n in w.walking {
    } else {
      var stack', w0 := stack + [n], w.(walking := w.walking + {n});
      VisitPushes(g, stack, n, w);
      var (o, w1) := VisitAll(g, g[n], w0);
      VisitAllKeeps(g, stack', g[n], w0);
      match o {
        case Done =>
          VisitFinishes(g, stack, n, w, w1);
        case CycleFound(nodes) =>
          var c :| c in g[n] && (Complete(g, c, nodes) || Partial(g, stack', c, nodes));
          UnwindStep(g, stack, n, c, nodes);
      }
    }
  }

  lemma {:induction false} VisitAllKeeps(g: map<Node, seq<Node>>, stack: seq<Node>, ns: seq<Node>, w: Walk)
    requires Closed(g) && Inv(g, stack, w)
    requires forall n :: n in ns ==> n in g && Callable(g, stack, n)
    ensures var (o, w') := VisitAll(g, ns, w);
            match o
            case Done => Kept(g, stack, w, w', Elements(ns))
            case CycleFound(nodes) =>
              exists n :: n in ns && (Complete(g, n, nodes) || Partial(g, stack, n, nodes))
    decreases g.Keys - w.walking, |ns| + 1
  {
    if ns != [] {
      var (o, w1) := Visit(g, ns[0], w);
      VisitKeeps(g, stack, ns[0], w);
      if o.Done? {
        VisitAllKeeps(g, stack, ns[1..], w1);
        var (o', w2) := VisitAll(g, ns[1..], w1);
        if o'.Done? {
          KeptTwice(g, stack, w, w1, w2, ns);
        }
      }
    }
  }

  lemma VisitPushes(g: map<Node, seq<Node>>, stack: seq<Node>, n: Node, w: Walk)
    requires Inv(g, stack, w) && Callable(g, stack, n) && n !in w.walking
    ensures Inv(g, stack + [n], w.(walking := w.walking + {n}))
    ensures forall c :: c in g[n] ==> Edge(g, n, c)
  {
  }

  lemma VisitFinishes(g: map<Node, seq<Node>>, stack: seq<Node>, n: Node, w: Walk, w1: Walk)
    requires Inv(g, stack, w) && n in g && n !in w.walking
    requires Kept(g, stack + [n], w.(walking := w.walking + {n}), w1, Elements(g[n]))
    ensures Kept(g, stack, w, w1.(marked := w1.marked + {n}, tsorted := w1.tsorted + [n]), {n})
  {
    var order := w1.tsorted + [n];
    assert Elements(stack + [n]) == Elements(stack) + {n};
    assert Elements(order) == Elements(w1.tsorted) + {n};
    forall i, v | 0 <= i < |order| && Edge(g, order[i], v) ensures v in order[..i] {
      if i < |w1.tsorted| {
        assert order[..i] == w1.tsorted[..i];
      } else {
        assert order[..i] == w1.tsorted;
        assert v in Elements(g[n]);
      }
    }
    forall m | m in w1.marked + {n} && m !in w.marked ensures Reaches(g, n, m) {
      if m == n {
        ReachesSelf(g, n);
      } else {
        var r :| r in Elements(g[n]) && Reaches(g, r, m);
        ReachesStep(g, n, r, m);
      }
    }
  }

  lemma KeptTwice(g: map<Node, seq<Node>>, stack: seq<Node>, w: Walk, w1: Walk, w2: Walk, ns: seq<Node>)
    requires ns != [] && Kept(g, stack, w, w1, {ns[0]}) && Kept(g, stack, w1, w2, Elements(ns[1..]))
    ensures Kept(g, stack, w, w2, Elements(ns))
  {
  }

  lemma UnwindStep(g: map<Node, seq<Node>>, stack: seq<Node>, n: Node, c: Node, nodes: seq<Node>)
    requires Edge(g, n, c) && n !in stack
    requires Complete(g, c, nodes) || Partial(g, stack + [n], c, nodes)
    ensures var nodes' := Unwind(n, nodes); Complete(g, n, nodes') || Partial(g, stack, n, nodes')
  {
    if Complete(g, c, nodes) {
      ReachesStep(g, n, c, nodes[0]);
    } else {
      UnwindPartial(g, stack, n, c, nodes);
    }
  }

  lemma UnwindPartial(g: map<Node, seq<Node>>, stack: seq<Node>, n: Node, c: Node, nodes: seq<Node>)
    requires Edge(g, n, c) && n !in stack && Partial(g, stack + [n], c, nodes)
    ensures var nodes' := Unwind(n, nodes); Complete(g, n, nodes') || Partial(g, stack, n, nodes')
  {
    PartialIsOpen(g, stack + [n], c, nodes);
    PathInFront(g, n, nodes);
    if nodes[|nodes| - 1] == n {
      CycleClosed(g, n, stack, nodes);
    } else {
      PartialGrows(g, stack, n, c, nodes);
    }
  }

  /** A path that ends on the stack is not closed yet, so the handler adds its node. */
  lemma PartialIsOpen(g: map<Node, seq<Node>>, stack: seq<Node>, c: Node, nodes: seq<Node>)
    requires Partial(g, stack, c, nodes)
    ensures |nodes| == 1 || nodes[0] != nodes[|nodes| - 1]
  {
    assert |nodes| > 1 ==> nodes[0] in nodes[..|nodes| - 1];
  }

  lemma PathInFront(g: map<Node, seq<Node>>, n: Node, nodes: seq<Node>)
    requires IsPath(g, nodes) && Edge(g, n, nodes[0])
    ensures IsPath(g, [n] + nodes)
  {
    var nodes' := [n] + nodes;
    forall i | 0 <= i < |nodes'| - 1 ensures Edge(g, nodes'[i], nodes'[i + 1]) {
      if i > 0 {
        assert Edge(g, nodes[i - 1], nodes[i - 1 + 1]);
      }
    }
  }

  /** The nodes of the error with one more in front, without the last. */
  lemma FrontOfUnwound(n: Node, stack: seq<Node>, nodes: seq<Node>)
    requires nodes != [] && NoDuplicates(nodes[..|nodes| - 1]) && n !in stack
    requires forall x :: x in nodes[..|nodes| - 1] ==> x !in stack + [n]
    ensures ([n] + nodes)[..|nodes|] == [n] + nodes[..|nodes| - 1]
    ensures NoDuplicates([n] + nodes[..|nodes| - 1]) && forall x :: x in [n] + nodes[..|nodes| - 1] ==> x !in stack
  {
    var front := nodes[..|nodes| - 1];
    assert n in stack + [n];
    forall x | x in [n] + front ensures x !in stack {
      if x != n {
        assert x in front && x !in stack + [n];
      }
    }
  }

  lemma CycleClosed(g: map<Node, seq<Node>>, n: Node, stack: seq<Node>, nodes: seq<Node>)
    requires IsPath(g, [n] + nodes) && nodes != [] && nodes[|nodes| - 1] == n && n !in stack
    requires NoDuplicates(nodes[..|nodes| - 1]) && forall x :: x in nodes[..|nodes| - 1] ==> x !in stack + [n]
    ensures Complete(g, n, [n] + nodes)
  {
    FrontOfUnwound(n, stack, nodes);
    ReachesSelf(g, n);
  }

  lemma PartialGrows(g: map<Node, seq<Node>>, stack: seq<Node>, n: Node, c: Node, nodes: seq<Node>)
    requires Partial(g, stack + [n], c, nodes) && IsPath(g, [n] + nodes) && nodes[|nodes| - 1] != n && n !in stack
    ensures Partial(g, stack, n, [n] + nodes)
  {
    FrontOfUnwound(n, stack, nodes);
    assert nodes[|nodes| - 1] in stack + [n];
  }

  // ---------- The main results ----------

  /** A cycle the walk from `roots` can run into. */
  ghost predicate CycleReachable(g: map<Node, seq<Node>>, roots: seq<Node>, c: seq<Node>) {
    IsCycle(g, c) && exists r :: r in roots && Reaches(g, r, c[0])
  }

  /** `u` comes before `v` in a list without duplicates. */
  ghost predicate Before(s: seq<Node>, u: Node, v: Node) {
    exists i, j :: 0 <= i < j < |s| && s[i] == u && s[j] == v
  }

  /** A duplicate-free list of exactly the nodes reachable from `roots`, dependents before dependencies. */
  ghost predicate IsLinkOrder(g: map<Node, seq<Node>>, roots: seq<Node>, r: seq<Node>) {
    && NoDuplicates(r)
    && (forall m :: m in r <==> exists x :: x in roots && Reaches(g, x, m))
    && (forall u, v :: u in r && Edge(g, u, v) ==> Before(r, u, v))
  }

  lemma ResolveIsExact(g: map<Node, seq<Node>>, roots: seq<Node>)
    requires Closed(g) && forall n :: n in roots ==> n in g
    ensures match Resolve(g, roots)
            case Sorted(r) => IsLinkOrder(g, roots, r)
            case Cyclic(c) => IsSimpleCycle(g, c) && CycleReachable(g, roots, c)
    ensures Resolve(g, roots).Cyclic? <==> exists c :: CycleReachable(g, roots, c)
  {
    var w0 := Walk({}, {}, []);
    assert Inv(g, [], w0);
    VisitAllKeeps(g, [], roots, w0);
    var (o, w) := VisitAll(g, roots, w0);
    if o.Done? {
      FinishedWalkIsLinkOrder(g, roots, w);
    } else {
      var n :| n in roots && (Complete(g, n, o.nodes) || Partial(g, [], n, o.nodes));
      assert CycleReachable(g, roots, o.nodes);
    }
  }

  lemma FinishedWalkIsLinkOrder(g: map<Node, seq<Node>>, roots: seq<Node>, w: Walk)
    requires Kept(g, [], Walk({}, {}, []), w, Elements(roots))
    ensures IsLinkOrder(g, roots, Reversed(w.tsorted))
    ensures forall c :: !CycleReachable(g, roots, c)
  {
    ReversedAt(w.tsorted);
    SortedReaches(g, roots, w.tsorted);
    ReversedGoesForward(g, w.tsorted);
    forall c | IsCycle(g, c) ensures !CycleReachable(g, roots, c) {
      OrderHasNoCycle(g, w.tsorted, c);
    }
  }

  lemma SortedReaches(g: map<Node, seq<Node>>, roots: seq<Node>, order: seq<Node>)
    requires EdgesGoBack(g, order) && Elements(roots) <= Elements(order)
    requires forall m :: m in Elements(order) ==> exists r :: r in Elements(roots) && Reaches(g, r, m)
    ensures forall m :: m in order <==> exists x :: x in roots && Reaches(g, x, m)
  {
    EdgesGoBackClosed(g, order);
    forall m, x | x in roots && Reaches(g, x, m) ensures m in order {
      assert x in Elements(roots);
      ReachesStaysInside(g, Elements(order), x, m);
    }
    forall m | m in order ensures exists x :: x in roots && Reaches(g, x, m) {
      assert m in Elements(order);
      var r :| r in Elements(roots) && Reaches(g, r, m);
    }
  }

  lemma ReversedGoesForward(g: map<Node, seq<Node>>, order: seq<Node>)
    requires EdgesGoBack(g, order)
    ensures forall u, v :: u in Reversed(order) && Edge(g, u, v) ==> Before(Reversed(order), u, v)
  {
    ReversedAt(order);
    var r, k := Reversed(order), |order|;
    forall u, v | u in r && Edge(g, u, v) ensures Before(r, u, v) {
      var i :| 0 <= i < k && r[i] == u;
      assert order[k - 1 - i] == u && v in order[..k - 1 - i];
      var j :| 0 <= j < k - 1 - i && order[j] == v;
      assert r[k - 1 - j] == v;
    }
  }

  // ---------- What the walk does not look at ----------

  /** Both graphs have the same edges out of each node of `s`. */
  ghost predicate AgreeOn(g: map<Node, seq<Node>>, g': map<Node, seq<Node>>, s: set<Node>) {
    g.Keys == g'.Keys && forall k :: k in s && k in g ==> g[k] == g'[k]
  }

  lemma {:induction false} VisitIgnores(g: map<Node, seq<Node>>, g': map<Node, seq<Node>>, n: Node, w: Walk)
    requires Closed(g) && Closed(g') && n in g && w.walking <= g.Keys
    requires Visit(g, n, w).0.Done? && AgreeOn(g, g', Visit(g, n, w).1.marked)
    ensures Visit(g', n, w) == Visit(g, n, w)
    decreases g.Keys - w.walking, 0
  {
    if n !in w.marked {
      assert forall v :: v in g[n] ==> Edge(g, n, v);
      VisitAllIgnores(g, g', g[n], w.(walking := w.walking + {n}));
    }
  }

  lemma {:induction false} VisitAllIgnores(g: map<Node, seq<Node>>, g': map<Node, seq<Node>>, ns: seq<Node>, w: Walk)
    requires Closed(g) && Closed(g') && (forall n :: n in ns ==> n in g) && w.walking <= g.Keys
    requires VisitAll(g, ns, w).0.Done? && AgreeOn(g, g', VisitAll(g, ns, w).1.marked)
    ensures VisitAll(g', ns, w) == VisitAll(g, ns, w)
    decreases g.Keys - w.walking, |ns| + 1
  {
    if ns != [] {
      VisitIgnores(g, g', ns[0], w);
      VisitAllIgnores(g, g', ns[1..], Visit(g, ns[0], w).1);
    }
  }

  /** A finished resolution does not depend on the edges out of nodes it did not reach. */
  lemma UnreachedIsIgnored(g: map<Node, seq<Node>>, g': map<Node, seq<Node>>, roots: seq<Node>)
    requires Closed(g) && Closed(g') && forall n :: n in roots ==> n in g
    requires Resolve(g, roots).Sorted? && AgreeOn(g, g', Elements(Resolve(g, roots).nodes))
    ensures Resolve(g', roots) == Resolve(g, roots)
  {
    var w0 := Walk({}, {}, []);
    assert Inv(g, [], w0);
    VisitAllKeeps(g, [], roots, w0);
    ReversedAt(VisitAll(g, roots, w0).1.tsorted);
    VisitAllIgnores(g, g', roots, w0);
  }

  /** `g'` has the edges of `g` and those from `n` to `targets`; the walk starts from `starts` too. */
  ghost predicate Extends(g: map<Node, seq<Node>>, roots: seq<Node>, g': map<Node, seq<Node>>, roots': seq<Node>,
                          n: Node, targets: set<Node>, starts: set<Node>) {
    && (forall u, v :: Edge(g', u, v) <==> Edge(g, u, v) || (u == n && v in targets))
    && (forall x :: x in roots' <==> x in roots || x in starts)
  }

  /** With more edges and roots a link order stays one exactly if it holds the new roots and obeys the new edges. */
  lemma ExtendedLinkOrder(g: map<Node, seq<Node>>, roots: seq<Node>, g': map<Node, seq<Node>>, roots': seq<Node>,
                          n: Node, targets: set<Node>, starts: set<Node>, r: seq<Node>)
    requires IsLinkOrder(g, roots, r) && Extends(g, roots, g', roots', n, targets, starts)
    ensures IsLinkOrder(g', roots', r) <==>
            (forall x :: x in starts ==> x in r) && (n in r ==> forall v :: v in targets ==> Before(r, n, v))
  {
    forall x, m | Reaches(g, x, m) ensures Reaches(g', x, m) {
      var p :| IsWalk(g, x, p, m);
      assert IsWalk(g', x, p, m);
    }
    if (forall x :: x in starts ==> x in r) && (n in r ==> forall v :: v in targets ==> Before(r, n, v)) {
      ObeyedIsReached(g, roots, g', roots', n, targets, starts, r);
    }
    if IsLinkOrder(g', roots', r) {
      forall x | x in starts ensures x in r {
        ReachesSelf(g', x);
      }
      forall v | n in r && v in targets ensures Before(r, n, v) {
        assert Edge(g', n, v);
      }
    }
  }

  lemma ObeyedIsReached(g: map<Node, seq<Node>>, roots: seq<Node>, g': map<Node, seq<Node>>, roots': seq<Node>,
                        n: Node, targets: set<Node>, starts: set<Node>, r: seq<Node>)
    requires IsLinkOrder(g, roots, r) && Extends(g, roots, g', roots', n, targets, starts)
    requires forall x, m :: Reaches(g, x, m) ==> Reaches(g', x, m)
    requires (forall x :: x in starts ==> x in r) && (n in r ==> forall v :: v in targets ==> Before(r, n, v))
    ensures IsLinkOrder(g', roots', r)
  {
    forall u, v | u in r && Edge(g', u, v) ensures Before(r, u, v) {
      assert Edge(g, u, v) || (u == n && v in targets);
    }
    assert ClosedSet(g', Elements(r));
    forall m, x | x in roots' && Reaches(g', x, m) ensures m in r {
      if x in roots {
        ReachesSelf(g, x);
      }
      assert x in Elements(r);
      ReachesStaysInside(g', Elements(r), x, m);
    }
    forall m | m in r ensures exists x :: x in roots' && Reaches(g', x, m) {
      var x :| x in roots && Reaches(g, x, m);
      assert x in roots';
    }
  }

  // ---------- The order of the walk ----------

  lemma {:induction false} VisitAllSplit(g: map<Node, seq<Node>>, a: seq<Node>, b: seq<Node>, w: Walk)
    requires Closed(g) && (forall n :: n in a + b ==> n in g) && w.walking <= g.Keys
    ensures var (o, w1) := VisitAll(g, a, w); VisitAll(g, a + b, w) == if o.Done? then VisitAll(g, b, w1) else (o, w1)
    decreases |a|
  {
    if a == [] {
      assert a + b == b;
    } else {
      assert (a + b)[0] == a[0] && (a + b)[1..] == a[1..] + b;
      VisitAllSplit(g, a[1..], b, Visit(g, a[0], w).1);
    }
  }

  /** Everything reachable from the nodes of a finished loop is finished. */
  lemma KeptIsClosed(g: map<Node, seq<Node>>, stack: seq<Node>, w: Walk, w': Walk, roots: set<Node>, r: Node, x: Node)
    requires Kept(g, stack, w, w', roots) && r in roots && Reaches(g, r, x)
    ensures x in w'.tsorted
  {
    EdgesGoBackClosed(g, w'.tsorted);
    ReachesStaysInside(g, Elements(w'.tsorted), r, x);
  }

  /** What an earlier node of the list reaches is finished before what only a later one reaches. */
  lemma FinishedInOrder(g: map<Node, seq<Node>>, stack: seq<Node>, ns: seq<Node>, w: Walk, i: nat, j: nat, x: Node, y: Node)
    requires Closed(g) && Inv(g, stack, w) && (forall n :: n in ns ==> n in g && Callable(g, stack, n))
    requires VisitAll(g, ns, w).0.Done? && i < j < |ns| && y !in w.marked
    requires Reaches(g, ns[i], x) && Reaches(g, ns[j], y) && forall k :: 0 <= k < j ==> !Reaches(g, ns[k], y)
    ensures Before(VisitAll(g, ns, w).1.tsorted, x, y)
  {
    var a, b := ns[..j], ns[j..];
    assert a + b == ns;
    VisitAllSplit(g, a, b, w);
    var w1, w2 := VisitAll(g, a, w).1, VisitAll(g, ns, w).1;
    VisitAllKeeps(g, stack, a, w);
    VisitAllKeeps(g, stack, b, w1);
    assert ns[i] in a && b[0] == ns[j];
    KeptIsClosed(g, stack, w, w1, Elements(a), ns[i], x);
    KeptIsClosed(g, stack, w1, w2, Elements(b), ns[j], y);
    assert y !in w1.marked;
    LaterIsBehind(w1.tsorted, w2.tsorted, x, y);
  }

  lemma LaterIsBehind(a: seq<Node>, b: seq<Node>, x: Node, y: Node)
    requires a <= b && x in a && y in b && y !in a
    ensures Before(b, x, y)
  {
    assert forall k :: 0 <= k < |a| ==> a[k] == b[k];
    var p :| 0 <= p < |a| && a[p] == x;
    var q :| 0 <= q < |b| && b[q] == y;
    assert b[p] == x && p < q;
  }

  /** At every call of the walk, the dependencies of the node are gone through in their order. */
  lemma VisitInOrder(g: map<Node, seq<Node>>, stack: seq<Node>, u: Node, w: Walk, i: nat, j: nat, x: Node, y: Node)
    requires Closed(g) && Inv(g, stack, w) && Callable(g, stack, u) && u !in w.walking && Visit(g, u, w).0.Done?
    requires i < j < |g[u]| && y !in w.marked
    requires Reaches(g, g[u][i], x) && Reaches(g, g[u][j], y) && forall k :: 0 <= k < j ==> !Reaches(g, g[u][k], y)
    ensures Before(Visit(g, u, w).1.tsorted, x, y)
  {
    VisitPushes(g, stack, u, w);
    var w0 := w.(walking := w.walking + {u});
    FinishedInOrder(g, stack + [u], g[u], w0, i, j, x, y);
    var t := VisitAll(g, g[u], w0).1.tsorted;
    var p, q :| 0 <= p < q < |t| && t[p] == x && t[q] == y;
    assert (t + [u])[p] == x && (t + [u])[q] == y;
  }

  lemma BeforeReversed(t: seq<Node>, x: Node, y: Node)
    requires Before(t, x, y)
    ensures Before(Reversed(t), y, x)
  {
    ReversedAt(t);
    var p, q :| 0 <= p < q < |t| && t[p] == x && t[q] == y;
    assert Reversed(t)[|t| - 1 - q] == y && Reversed(t)[|t| - 1 - p] == x;
  }

  /** In the link order, what only a later root reaches comes before what an earlier one reaches. */
  lemma RootsInOrder(g: map<Node, seq<Node>>, roots: seq<Node>, r: seq<Node>, i: nat, j: nat, x: Node, y: Node)
    requires Closed(g) && (forall n :: n in roots ==> n in g) && Resolve(g, roots) == Sorted(r) && i < j < |roots|
    requires Reaches(g, roots[i], x) && Reaches(g, roots[j], y) && forall k :: 0 <= k < j ==> !Reaches(g, roots[k], y)
    ensures Before(r, y, x)
  {
    var w0 := Walk({}, {}, []);
    assert Inv(g, [], w0);
    FinishedInOrder(g, [], roots, w0, i, j, x, y);
    BeforeReversed(VisitAll(g, roots, w0).1.tsorted, x, y);
  }

  /** The same for the dependencies of an inner node. */
  lemma DependenciesInOrder(g: map<Node, seq<Node>>, u: Node, r: seq<Node>, i: nat, j: nat, x: Node, y: Node)
    requires Closed(g) && u in g && Resolve(g, [u]) == Sorted(r) && i < j < |g[u]|
    requires Reaches(g, g[u][i], x) && Reaches(g, g[u][j], y) && forall k :: 0 <= k < j ==> !Reaches(g, g[u][k], y)
    ensures Before(r, y, x)
  {
    var w0 := Walk({}, {}, []);
    assert Inv(g, [], w0) && [u][1..] == [];
    assert VisitAll(g, [u], w0) == Visit(g, u, w0);
    VisitInOrder(g, [], u, w0, i, j, x, y);
    BeforeReversed(Visit(g, u, w0).1.tsorted, x, y);
  }
}
