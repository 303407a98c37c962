/**
 How the declared dependencies determine the graph the resolver walks: the order of declaration does
 not matter, and honouring visibility only ever removes edges.
 */
module LibdepsOrder {
  import opened Sequences
  import opened Digraphs
  import opened Libdeps
  import Text

  /** The libdeps_direct attribute of each node; a node without one has no dependencies. */
  type Declared = map<Node, seq<Dependency>>

  function DirectOf(direct: Declared, n: Node): seq<Dependency> {
    if n in direct then direct[n] else []
  }

  /** Every dependency declared by a node of `nodes` names a node of `nodes`. */
  ghost predicate WithinNodes(nodes: set<Node>, direct: Declared) {
    forall n, d :: n in nodes && d in DirectOf(direct, n) ==> d.target in nodes
  }

  function InnerGraph(nodes: set<Node>, direct: Declared): map<Node, seq<Node>> {
    map n | n in nodes :: InnerTargets(DirectOf(direct, n))
  }

  /** The library dependencies of `n`, as declared. */
  function LibdepsOf(nodes: set<Node>, direct: Declared, n: Node): Resolution
    requires n in nodes && WithinNodes(nodes, direct)
  {
    InnerGraphClosed(nodes, direct);
    TargetsOfSorted(DirectOf(direct, n), Interface);
    Resolve(InnerGraph(nodes, direct), RootTargets(DirectOf(direct, n)))
  }

  lemma InnerGraphClosed(nodes: set<Node>, direct: Declared)
    requires WithinNodes(nodes, direct)
    ensures Closed(InnerGraph(nodes, direct))
  {
    var g := InnerGraph(nodes, direct);
    forall u, v | Edge(g, u, v) ensures v in g {
      TargetsOfSorted(DirectOf(direct, u), Private);
    }
  }

  // ---------- Sorting ----------

  ghost function ByName(): (Node, Node) -> bool {
    (u: Node, v: Node) => Text.AtMost(u.name, v.name)
  }

  lemma {:induction false} InsertPermutes(d: Dependency, deps: seq<Dependency>)
    ensures multiset(InsertByName(d, deps)) == multiset{d} + multiset(deps)
  {
    if deps != [] && !Text.AtMost(d.target.name, deps[0].target.name) {
      InsertPermutes(d, deps[1..]);
      assert deps == [deps[0]] + deps[1..];
    }
  }

  lemma {:induction false} SortPermutes(deps: seq<Dependency>)
    ensures multiset(SortByName(deps)) == multiset(deps)
  {
    if deps != [] {
      SortPermutes(deps[1..]);
      InsertPermutes(deps[0], SortByName(deps[1..]));
      assert deps == [deps[0]] + deps[1..];
    }
  }

  lemma {:induction false} TargetsMembers(deps: seq<Dependency>, hidden: Visibility)
    ensures forall v :: v in Targets(deps, hidden) <==>
                          exists d :: d in deps && d.kind != hidden && d.target == v
  {
    if deps != [] {
      TargetsMembers(deps[1..], hidden);
      assert forall d :: d in deps <==> d == deps[0] || d in deps[1..];
    }
  }

  lemma TargetsOfSorted(deps: seq<Dependency>, hidden: Visibility)
    ensures forall v :: v in Targets(SortByName(deps), hidden) <==>
                          exists d :: d in deps && d.kind != hidden && d.target == v
  {
    SortPermutes(deps);
    assert forall d :: d in SortByName(deps) <==> d in multiset(SortByName(deps));
    assert forall d :: d in deps <==> d in multiset(deps);
    TargetsMembers(SortByName(deps), hidden);
  }

  ghost predicate SortedDeps(deps: seq<Dependency>) {
    forall i, j :: 0 <= i < j < |deps| ==> Text.AtMost(deps[i].target.name, deps[j].target.name)
  }

  lemma {:induction false} InsertSorts(d: Dependency, deps: seq<Dependency>)
    requires SortedDeps(deps)
    ensures SortedDeps(InsertByName(d, deps))
  {
    if deps == [] {
    } else if Text.AtMost(d.target.name, deps[0].target.name) {
      forall j | 0 < j < |deps| ensures Text.AtMost(d.target.name, deps[j].target.name) {
        if d.target.name != deps[0].target.name && deps[0].target.name != deps[j].target.name {
          Text.LessIsTransitive(d.target.name, deps[0].target.name, deps[j].target.name);
        }
      }
    } else {
      InsertSorts(d, deps[1..]);
      InsertPermutes(d, deps[1..]);
      Text.LessIsTotal(d.target.name, deps[0].target.name);
      var rest := InsertByName(d, deps[1..]);
      forall j | 0 <= j < |rest| ensures Text.AtMost(deps[0].target.name, rest[j].target.name) {
        assert rest[j] in multiset(rest);
        assert rest[j] == d || rest[j] in deps[1..];
      }
    }
  }

  lemma {:induction false} SortSorts(deps: seq<Dependency>)
    ensures SortedDeps(SortByName(deps))
  {
    if deps != [] {
      SortSorts(deps[1..]);
      InsertSorts(deps[0], SortByName(deps[1..]));
    }
  }

  lemma {:induction false} TargetsSorted(deps: seq<Dependency>, hidden: Visibility)
    requires SortedDeps(deps)
    ensures SortedBy(ByName(), Targets(deps, hidden))
  {
    if deps != [] {
      TargetsSorted(deps[1..], hidden);
      TargetsMembers(deps[1..], hidden);
      forall v | v in Targets(deps[1..], hidden) ensures Text.AtMost(deps[0].target.name, v.name) {
        var k :| 0 < k < |deps| && deps[k].target == v;
      }
    }
  }

  // ---------- Permuting the declarations ----------

  ghost function Shown(hidden: Visibility): Dependency -> seq<Node> {
    (d: Dependency) => if d.kind == hidden then [] else [d.target]
  }

  lemma {:induction false} TargetsIsFlatMap(deps: seq<Dependency>, hidden: Visibility)
    ensures Targets(deps, hidden) == FlatMap(Shown(hidden), deps)
  {
    if deps != [] {
      TargetsIsFlatMap(deps[1..], hidden);
    }
  }

  /** Names tell the nodes of `nodes` apart. */
  ghost predicate NamesInjective(nodes: set<Node>) {
    forall u, v :: u in nodes && v in nodes && u.name == v.name ==> u == v
  }

  lemma SortedTargetsUnique(a: seq<Dependency>, b: seq<Dependency>, hidden: Visibility, nodes: set<Node>)
    requires multiset(a) == multiset(b) && NamesInjective(nodes) && forall d :: d in a ==> d.target in nodes
    ensures Targets(SortByName(a), hidden) == Targets(SortByName(b), hidden)
  {
    var ta, tb := Targets(SortByName(a), hidden), Targets(SortByName(b), hidden);
    SortPermutes(a);
    SortPermutes(b);
    TargetsIsFlatMap(SortByName(a), hidden);
    TargetsIsFlatMap(SortByName(b), hidden);
    FlatMapPermute(Shown(hidden), SortByName(a), SortByName(b));
    SortSorts(a);
    SortSorts(b);
    TargetsSorted(SortByName(a), hidden);
    TargetsSorted(SortByName(b), hidden);
    TargetsOfSorted(a, hidden);
    forall x, y | x in ta && y in ta && ByName()(x, y) && ByName()(y, x) ensures x == y {
      Text.AtMostIsAntisymmetric(x.name, y.name);
      assert x in nodes && y in nodes;
    }
    SortedIsUnique(ByName(), ta, tb);
  }

  /** The same dependencies at every node, perhaps declared in another order. */
  ghost predicate SameDeclarations(nodes: set<Node>, d1: Declared, d2: Declared) {
    forall m :: m in nodes ==> multiset(DirectOf(d1, m)) == multiset(DirectOf(d2, m))
  }

  lemma SameDeclarationsSameTargets(nodes: set<Node>, d1: Declared, d2: Declared, m: Node)
    requires NamesInjective(nodes) && WithinNodes(nodes, d1) && SameDeclarations(nodes, d1, d2) && m in nodes
    ensures InnerTargets(DirectOf(d1, m)) == InnerTargets(DirectOf(d2, m))
    ensures RootTargets(DirectOf(d1, m)) == RootTargets(DirectOf(d2, m))
    ensures forall d :: d in DirectOf(d2, m) ==> d.target in nodes
  {
    SortedTargetsUnique(DirectOf(d1, m), DirectOf(d2, m), Private, nodes);
    SortedTargetsUnique(DirectOf(d1, m), DirectOf(d2, m), Interface, nodes);
    assert forall d :: d in DirectOf(d2, m) ==> d in multiset(DirectOf(d1, m));
  }

  /** The link order does not depend on the order in which the dependencies were declared. */
  lemma DeclarationOrderIrrelevant(nodes: set<Node>, d1: Declared, d2: Declared, n: Node)
    requires n in nodes && NamesInjective(nodes) && WithinNodes(nodes, d1) && SameDeclarations(nodes, d1, d2)
    ensures WithinNodes(nodes, d2) && LibdepsOf(nodes, d1, n) == LibdepsOf(nodes, d2, n)
  {
    forall m | m in nodes
      ensures InnerTargets(DirectOf(d1, m)) == InnerTargets(DirectOf(d2, m))
      ensures forall d :: d in DirectOf(d2, m) ==> d.target in nodes
    {
      SameDeclarationsSameTargets(nodes, d1, d2, m);
    }
    SameDeclarationsSameTargets(nodes, d1, d2, n);
    SameTargetsSameLibdeps(nodes, d1, d2, n);
  }

  lemma SameTargetsSameLibdeps(nodes: set<Node>, d1: Declared, d2: Declared, n: Node)
    requires n in nodes && WithinNodes(nodes, d1)
    requires forall m :: m in nodes ==> InnerTargets(DirectOf(d1, m)) == InnerTargets(DirectOf(d2, m))
    requires forall m :: m in nodes ==> forall d :: d in DirectOf(d2, m) ==> d.target in nodes
    requires RootTargets(DirectOf(d1, n)) == RootTargets(DirectOf(d2, n))
    ensures WithinNodes(nodes, d2) && LibdepsOf(nodes, d1, n) == LibdepsOf(nodes, d2, n)
  {
    assert InnerGraph(nodes, d1) == InnerGraph(nodes, d2);
  }

  // ---------- Visibility ----------

  /** dependency_visibility_honored and dependency_visibility_ignored. */
  function Honored(kind: Visibility): Visibility { kind }

  function Ignored(kind: Visibility): Visibility { Public }

  function Tagged(targets: seq<Node>, kind: Visibility): (r: seq<Dependency>)
    ensures |r| == |targets| && forall i :: 0 <= i < |r| ==> r[i] == Dependency(targets[i], kind)
  {
    seq(|targets|, i requires 0 <= i < |targets| => Dependency(targets[i], kind))
  }

  /** What one target lists under LIBDEPS, LIBDEPS_INTERFACE and LIBDEPS_PRIVATE. */
  datatype Listing = Listing(libs: seq<Node>, interface: seq<Node>, private: seq<Node>) {
    /** The prerequisites the emitter attaches to the target, under a visibility map. */
    function Under(visibility: Visibility -> Visibility): seq<Dependency> {
      Tagged(libs, visibility(Public)) + Tagged(interface, visibility(Interface)) + Tagged(private, visibility(Private))
    }
  }

  function DeclaredUnder(listings: map<Node, Listing>, visibility: Visibility -> Visibility): Declared {
    map n | n in listings :: listings[n].Under(visibility)
  }

  lemma EmittedTargets(l: Listing, hidden: Visibility)
    requires hidden != Public
    ensures forall v :: v in Targets(SortByName(l.Under(Honored)), hidden) ==>
                          v in Targets(SortByName(l.Under(Ignored)), hidden)
  {
    var h, i := l.Under(Honored), l.Under(Ignored);
    assert |h| == |i| && forall k :: 0 <= k < |h| ==> i[k] == Dependency(h[k].target, Public);
    TargetsOfSorted(h, hidden);
    TargetsOfSorted(i, hidden);
    forall v | v in Targets(SortByName(h), hidden) ensures v in Targets(SortByName(i), hidden) {
      var d :| d in h && d.target == v;
      var k :| 0 <= k < |h| && h[k] == d;
      assert i[k] in i;
    }
  }

  /** Honouring visibility links no node that ignoring it would not, and introduces no cycle. */
  lemma {:induction false} HonoredWithinIgnored(nodes: set<Node>, listings: map<Node, Listing>, n: Node)
    requires n in nodes
    requires WithinNodes(nodes, DeclaredUnder(listings, Honored))
    requires WithinNodes(nodes, DeclaredUnder(listings, Ignored))
    ensures var h, i := LibdepsOf(nodes, DeclaredUnder(listings, Honored), n),
                        LibdepsOf(nodes, DeclaredUnder(listings, Ignored), n);
            && (i.Sorted? ==> h.Sorted? && Elements(h.nodes) <= Elements(i.nodes))
            && (h.Sorted? ==> forall m :: m in h.nodes ==>
                  exists x :: x in RootTargets(DirectOf(DeclaredUnder(listings, Ignored), n))
                              && Reaches(InnerGraph(nodes, DeclaredUnder(listings, Ignored)), x, m))
  {
    var dh, di := DeclaredUnder(listings, Honored), DeclaredUnder(listings, Ignored);
    var gh, gi := InnerGraph(nodes, dh), InnerGraph(nodes, di);
    var rh, ri := RootTargets(DirectOf(dh, n)), RootTargets(DirectOf(di, n));
    assert forall u, v :: Edge(gh, u, v) ==> Edge(gi, u, v) by {
      forall u, v | Edge(gh, u, v) ensures Edge(gi, u, v) {
        if u in listings { EmittedTargets(listings[u], Private); }
      }
    }
    if n in listings { EmittedTargets(listings[n], Interface); }
    assert forall x :: x in rh ==> x in ri;
    InnerGraphClosed(nodes, dh);
    InnerGraphClosed(nodes, di);
    TargetsOfSorted(DirectOf(dh, n), Interface);
    TargetsOfSorted(DirectOf(di, n), Interface);
    ResolveMonotone(gh, gi, rh, ri);
  }

  lemma ResolveMonotone(gh: map<Node, seq<Node>>, gi: map<Node, seq<Node>>, rh: seq<Node>, ri: seq<Node>)
    requires Closed(gh) && Closed(gi) && (forall n :: n in rh ==> n in gh) && (forall n :: n in ri ==> n in gi)
    requires forall u, v :: Edge(gh, u, v) ==> Edge(gi, u, v)
    requires forall x :: x in rh ==> x in ri
    ensures var h, i := Resolve(gh, rh), Resolve(gi, ri);
            && (i.Sorted? ==> h.Sorted? && Elements(h.nodes) <= Elements(i.nodes))
            && (h.Sorted? ==> forall m :: m in h.nodes ==> exists x :: x in ri && Reaches(gi, x, m))
  {
    ResolveIsExact(gh, rh);
    ResolveIsExact(gi, ri);
    var h, i := Resolve(gh, rh), Resolve(gi, ri);
    assert forall p :: IsPath(gh, p) ==> IsPath(gi, p);
    forall x, m | Reaches(gh, x, m) ensures Reaches(gi, x, m) {
      var p :| IsWalk(gh, x, p, m);
      assert IsWalk(gi, x, p, m);
    }
    if h.Cyclic? {
      assert CycleReachable(gi, ri, h.nodes);
    } else {
      forall m | m in h.nodes ensures exists x :: x in ri && Reaches(gi, x, m) {
        var x :| x in rh && Reaches(gh, x, m);
      }
    }
  }

  // ---------- Appending dependencies ----------

  function Appended(direct: Declared, n: Node, prereqs: seq<Dependency>): Declared {
    direct[n := DirectOf(direct, n) + prereqs]
  }

  function InsertNode(v: Node, ns: seq<Node>): seq<Node> {
    if ns == [] || Text.AtMost(v.name, ns[0].name) then [v] + ns else [ns[0]] + InsertNode(v, ns[1..])
  }

  /** Sorting a dependency in and then hiding some is the same as hiding first. */
  lemma {:induction false} InsertTargets(d: Dependency, deps: seq<Dependency>, hidden: Visibility)
    requires SortedDeps(deps)
    ensures Targets(InsertByName(d, deps), hidden) ==
            if d.kind == hidden then Targets(deps, hidden) else InsertNode(d.target, Targets(deps, hidden))
  {
    if deps == [] {
    } else if Text.AtMost(d.target.name, deps[0].target.name) {
      assert ([d] + deps)[1..] == deps;
      var ts := Targets(deps, hidden);
      TargetsMembers(deps, hidden);
      if ts != [] {
        InsertSorts(d, deps);
        assert ts[0] in ts;
        var k :| 0 <= k < |deps| && deps[k].target == ts[0];
        assert ([d] + deps)[0] == d && ([d] + deps)[k + 1] == deps[k];
      }
    } else {
      InsertTargets(d, deps[1..], hidden);
      assert InsertByName(d, deps)[1..] == InsertByName(d, deps[1..]);
    }
  }

  /** Appending hidden dependencies does not change what is read. */
  lemma {:induction false} HiddenAppended(deps: seq<Dependency>, more: seq<Dependency>, hidden: Visibility)
    requires forall d :: d in more ==> d.kind == hidden
    ensures Targets(SortByName(deps + more), hidden) == Targets(SortByName(deps), hidden)
  {
    if deps == [] {
      assert deps + more == more;
      var ts := Targets(SortByName(more), hidden);
      assert ts != [] ==> ts[0] in ts;
      TargetsOfSorted(more, hidden);
    } else {
      assert (deps + more)[1..] == deps[1..] + more;
      HiddenAppended(deps[1..], more, hidden);
      SortSorts(deps[1..]);
      SortSorts(deps[1..] + more);
      InsertTargets(deps[0], SortByName(deps[1..]), hidden);
      InsertTargets(deps[0], SortByName(deps[1..] + more), hidden);
    }
  }

  /** `r` is a link order of what `m` is declared to depend on. */
  ghost predicate IsOrderOf(nodes: set<Node>, direct: Declared, m: Node, r: seq<Node>) {
    IsLinkOrder(InnerGraph(nodes, direct), RootTargets(DirectOf(direct, m)), r)
  }

  /** The list `r` of `m` already holds what `n` gets as prerequisites, behind `n` if it holds `n`. */
  ghost predicate AlreadyOrdered(m: Node, r: seq<Node>, n: Node, prereqs: seq<Dependency>) {
    && (m == n ==> forall d :: d in prereqs && d.kind != Interface ==> d.target in r)
    && (n in r ==> forall d :: d in prereqs && d.kind != Private ==> Before(r, n, d.target))
  }

  /** What appending adds to the graph and to the roots of `m`. */
  lemma AppendExtends(nodes: set<Node>, direct: Declared, n: Node, prereqs: seq<Dependency>, m: Node)
    returns (targets: set<Node>, starts: set<Node>)
    requires n in nodes && m in nodes
    ensures Extends(InnerGraph(nodes, direct), RootTargets(DirectOf(direct, m)),
                    InnerGraph(nodes, Appended(direct, n, prereqs)), RootTargets(DirectOf(Appended(direct, n, prereqs), m)),
                    n, targets, starts)
    ensures targets == set d | d in prereqs && d.kind != Private :: d.target
    ensures starts == if m == n then set d | d in prereqs && d.kind != Interface :: d.target else {}
  {
    targets := set d | d in prereqs && d.kind != Private :: d.target;
    starts := if m == n then set d | d in prereqs && d.kind != Interface :: d.target else {};
    var before := DirectOf(direct, n);
    assert forall d :: d in before + prereqs <==> d in before || d in prereqs;
    TargetsOfSorted(before, Private);
    TargetsOfSorted(before + prereqs, Private);
    TargetsOfSorted(before, Interface);
    TargetsOfSorted(before + prereqs, Interface);
  }

  /** After an append a list in link order is still in link order exactly if it was ordered so already. */
  lemma AppendKeepsOrder(nodes: set<Node>, direct: Declared, n: Node, prereqs: seq<Dependency>, m: Node, r: seq<Node>)
    requires n in nodes && m in nodes && IsOrderOf(nodes, direct, m, r)
    ensures IsOrderOf(nodes, Appended(direct, n, prereqs), m, r) <==> AlreadyOrdered(m, r, n, prereqs)
  {
    var targets, starts := AppendExtends(nodes, direct, n, prereqs, m);
    ExtendedLinkOrder(InnerGraph(nodes, direct), RootTargets(DirectOf(direct, m)),
                      InnerGraph(nodes, Appended(direct, n, prereqs)), RootTargets(DirectOf(Appended(direct, n, prereqs), m)),
                      n, targets, starts, r);
  }

  /** No walk that gave the list `r` of `m` looks at any of the prerequisites that `n` gets. */
  ghost predicate Overlooks(m: Node, r: seq<Node>, n: Node, prereqs: seq<Dependency>) {
    && (m == n ==> forall d :: d in prereqs ==> d.kind == Interface)
    && (n in r ==> forall d :: d in prereqs ==> d.kind == Private)
  }

  lemma OverlookedKeepsLibdeps(nodes: set<Node>, direct: Declared, n: Node, prereqs: seq<Dependency>, m: Node)
    requires n in nodes && m in nodes && WithinNodes(nodes, direct) && WithinNodes(nodes, Appended(direct, n, prereqs))
    requires LibdepsOf(nodes, direct, m).Sorted? && Overlooks(m, LibdepsOf(nodes, direct, m).nodes, n, prereqs)
    ensures LibdepsOf(nodes, Appended(direct, n, prereqs), m) == LibdepsOf(nodes, direct, m)
  {
    var direct', r, before := Appended(direct, n, prereqs), LibdepsOf(nodes, direct, m).nodes, DirectOf(direct, n);
    if m == n {
      HiddenAppended(before, prereqs, Interface);
    }
    if n in r {
      HiddenAppended(before, prereqs, Private);
    }
    InnerGraphClosed(nodes, direct);
    InnerGraphClosed(nodes, direct');
    TargetsOfSorted(DirectOf(direct, m), Interface);
    assert AgreeOn(InnerGraph(nodes, direct), InnerGraph(nodes, direct'), Elements(r));
    UnreachedIsIgnored(InnerGraph(nodes, direct), InnerGraph(nodes, direct'), RootTargets(DirectOf(direct, m)));
  }

  /**
   A node resolved before an append resolves to the same list afterwards exactly if its walk looks at none
   of the new dependencies, provided their targets are not in the list already.
   */
  lemma AppendKeepsLibdeps(nodes: set<Node>, direct: Declared, n: Node, prereqs: seq<Dependency>, m: Node, r: seq<Node>)
    requires n in nodes && m in nodes && WithinNodes(nodes, direct) && WithinNodes(nodes, Appended(direct, n, prereqs))
    requires LibdepsOf(nodes, direct, m) == Sorted(r) && forall d :: d in prereqs ==> d.target !in r
    ensures LibdepsOf(nodes, Appended(direct, n, prereqs), m) == Sorted(r) <==> Overlooks(m, r, n, prereqs)
  {
    var direct' := Appended(direct, n, prereqs);
    if Overlooks(m, r, n, prereqs) {
      OverlookedKeepsLibdeps(nodes, direct, n, prereqs, m);
    }
    if LibdepsOf(nodes, direct', m) == Sorted(r) {
      LibdepsAreOrdered(nodes, direct, m);
      LibdepsAreOrdered(nodes, direct', m);
      AppendKeepsOrder(nodes, direct, n, prereqs, m, r);
    }
  }

  lemma LibdepsAreOrdered(nodes: set<Node>, direct: Declared, m: Node)
    requires m in nodes && WithinNodes(nodes, direct)
    ensures var r := LibdepsOf(nodes, direct, m); r.Sorted? ==> IsOrderOf(nodes, direct, m, r.nodes)
  {
    InnerGraphClosed(nodes, direct);
    TargetsOfSorted(DirectOf(direct, m), Interface);
    ResolveIsExact(InnerGraph(nodes, direct), RootTargets(DirectOf(direct, m)));
  }

  // ---------- Another order ----------

  function Finish(w: Walk, n: Node): Walk {
    Walk(w.marked + {n}, w.walking + {n}, w.tsorted + [n])
  }

  lemma VisitLeaf(g: map<Node, seq<Node>>, n: Node, w: Walk)
    requires Closed(g) && n in g && g[n] == [] && w.walking <= g.Keys && n !in w.marked && n !in w.walking
    ensures Visit(g, n, w) == (Done, Finish(w, n))
  {
  }

  lemma VisitAfter(g: map<Node, seq<Node>>, n: Node, a: Node, w: Walk)
    requires Closed(g) && n in g && a in g && g[n] == [a] && w.walking <= g.Keys && n !in w.marked && n !in w.walking
    requires a in w.marked
    ensures Visit(g, n, w) == (Done, Finish(w, n))
  {
    var w' := w.(walking := w.walking + {n});
    assert VisitAll(g, [a], w') == VisitAll(g, [a][1..], w') == (Done, w');
  }

  lemma VisitBefore(g: map<Node, seq<Node>>, n: Node, a: Node, w: Walk)
    requires Closed(g) && n in g && a in g && g[n] == [a] && g[a] == [] && w.walking <= g.Keys && n !in w.marked && n !in w.walking
    requires a != n && a !in w.marked && a !in w.walking
    ensures Visit(g, n, w).0 == Done && Visit(g, n, w).1.tsorted == w.tsorted + [a] + [n]
  {
    var w' := w.(walking := w.walking + {n});
    VisitLeaf(g, a, w');
    assert VisitAll(g, [a], w') == VisitAll(g, [a][1..], Finish(w', a)) == (Done, Finish(w', a));
  }

  /** The walk from `m` and `z`, where `z` needs `a`, and the same with `a` in front. */
  lemma ResolveThree(g: map<Node, seq<Node>>, m: Node, z: Node, a: Node)
    requires Closed(g) && m != z && m != a && z != a
    requires m in g && z in g && a in g && g[m] == [] && g[z] == [a] && g[a] == []
    ensures Resolve(g, [m, z]) == Sorted([z, a, m]) && Resolve(g, [a, m, z]) == Sorted([z, m, a])
  {
    var w0 := Walk({}, {}, []);
    assert [m, z][1..] == [z] && [z][1..] == [] && [a, m, z][1..] == [m, z];
    var wm, wa := Finish(w0, m), Finish(w0, a);
    var wam := Finish(wa, m);
    VisitLeaf(g, m, w0);
    VisitBefore(g, z, a, wm);
    assert VisitAll(g, [z], wm) == Visit(g, z, wm);
    assert VisitAll(g, [m, z], w0) == VisitAll(g, [z], wm);
    VisitLeaf(g, a, w0);
    VisitLeaf(g, m, wa);
    VisitAfter(g, z, a, wam);
    assert VisitAll(g, [z], wam) == Visit(g, z, wam);
    assert VisitAll(g, [m, z], wa) == VisitAll(g, [z], wam);
    assert VisitAll(g, [a, m, z], w0) == VisitAll(g, [m, z], wa);
    ReversedAt([m, a, z]);
    ReversedAt([a, m, z]);
    assert Reversed([m, a, z]) == [z, a, m] && Reversed([a, m, z]) == [z, m, a];
    assert [] + [m] + [a] + [z] == [m, a, z] && [] + [a] + [m] + [z] == [a, m, z];
  }

  lemma SortThree(m: Node, z: Node, a: Node)
    requires m.name == "m" && z.name == "z" && a.name == "a"
    ensures SortByName([Dependency(m, Public), Dependency(z, Public)]) == [Dependency(m, Public), Dependency(z, Public)]
    ensures SortByName([Dependency(m, Public), Dependency(z, Public), Dependency(a, Public)]) ==
            [Dependency(a, Public), Dependency(m, Public), Dependency(z, Public)]
  {
    var dm, dz, da := Dependency(m, Public), Dependency(z, Public), Dependency(a, Public);
    assert [dm, dz][1..] == [dz] && [dz][1..] == [] && [dm, dz, da][1..] == [dz, da] && [dz, da][1..] == [da] && [da][1..] == [];
    assert Text.Less("m", "z") && Text.Less("a", "m") && Text.Less("a", "z");
    assert !Text.Less("z", "a") && !Text.Less("m", "a");
    assert SortByName([dz]) == [dz] && SortByName([da]) == [da];
    assert SortByName([dz, da]) == InsertByName(dz, [da]) == [da] + InsertByName(dz, []) == [da, dz];
    assert [da, dz][1..] == [dz];
    assert InsertByName(dm, [da, dz]) == [da] + InsertByName(dm, [dz]) == [da, dm, dz];
  }

  lemma TargetsOfThree(m: Node, z: Node, a: Node)
    requires m.name == "m" && z.name == "z" && a.name == "a"
    ensures InnerTargets([]) == [] && InnerTargets([Dependency(a, Public)]) == [a]
    ensures RootTargets([Dependency(m, Public), Dependency(z, Public)]) == [m, z]
    ensures RootTargets([Dependency(m, Public), Dependency(z, Public), Dependency(a, Public)]) == [a, m, z]
  {
    var dm, dz, da := Dependency(m, Public), Dependency(z, Public), Dependency(a, Public);
    SortThree(m, z, a);
    assert [dm, dz][1..] == [dz] && [dz][1..] == [] && [da, dm, dz][1..] == [dm, dz] && [da][1..] == [];
    assert Targets([dz], Interface) == [z];
    assert Targets([dm, dz], Interface) == [m] + Targets([dz], Interface) == [m, z];
    assert Targets([da, dm, dz], Interface) == [a] + Targets([dm, dz], Interface) == [a, m, z];
    assert SortByName([da]) == [da] && Targets([da], Private) == [a];
  }

  /**
   A resolved list may stay a link order and yet not be the one that resolving gives after an append: declaring
   a dependency that is already in the list can move it.
   */
  lemma OrderMayChange(n: Node, m: Node, z: Node, a: Node)
    requires n.name == "n" && m.name == "m" && z.name == "z" && a.name == "a"
    ensures var nodes, prereqs := {n, m, z, a}, [Dependency(a, Public)];
            var direct := map[n := [Dependency(m, Public), Dependency(z, Public)], z := [Dependency(a, Public)]];
            && WithinNodes(nodes, direct) && WithinNodes(nodes, Appended(direct, n, prereqs))
            && LibdepsOf(nodes, direct, n) == Sorted([z, a, m]) && AlreadyOrdered(n, [z, a, m], n, prereqs)
            && LibdepsOf(nodes, Appended(direct, n, prereqs), n) == Sorted([z, m, a])
  {
    var nodes, prereqs := {n, m, z, a}, [Dependency(a, Public)];
    var dm, dz, da := Dependency(m, Public), Dependency(z, Public), Dependency(a, Public);
    var direct := map[n := [dm, dz], z := [da]];
    var direct' := Appended(direct, n, prereqs);
    assert [dm, dz] + prereqs == [dm, dz, da];
    TargetsOfThree(m, z, a);
    InnerGraphClosed(nodes, direct);
    InnerGraphClosed(nodes, direct');
    ResolveThree(InnerGraph(nodes, direct), m, z, a);
    ResolveThree(InnerGraph(nodes, direct'), m, z, a);
  }

  // ---------- What the sort decides ----------

  function WithName(deps: seq<Dependency>, name: string): seq<Dependency> {
    if deps == [] then [] else (if deps[0].target.name == name then [deps[0]] else []) + WithName(deps[1..], name)
  }

  lemma {:induction false} InsertIsStable(d: Dependency, deps: seq<Dependency>, name: string)
    ensures WithName(InsertByName(d, deps), name) == (if d.target.name == name then [d] else []) + WithName(deps, name)
  {
    if deps == [] || Text.AtMost(d.target.name, deps[0].target.name) {
      assert ([d] + deps)[1..] == deps;
    } else {
      InsertIsStable(d, deps[1..], name);
      var rest := WithName(deps[1..], name);
      assert InsertByName(d, deps)[0] == deps[0] && InsertByName(d, deps)[1..] == InsertByName(d, deps[1..]);
      if d.target.name == name {
        assert deps[0].target.name != name && [] + rest == rest && [] + ([d] + rest) == [d] + rest;
      } else {
        assert [] + rest == rest;
      }
    }
  }

  /** Dependencies on nodes of the same name keep the order in which they were declared. */
  lemma {:induction false} SortIsStable(deps: seq<Dependency>, name: string)
    ensures WithName(SortByName(deps), name) == WithName(deps, name)
  {
    if deps != [] {
      SortIsStable(deps[1..], name);
      InsertIsStable(deps[0], SortByName(deps[1..]), name);
    }
  }

  lemma FirstIndex(ns: seq<Node>, v: Node) returns (j: nat)
    requires v in ns
    ensures j < |ns| && ns[j] == v && forall k :: 0 <= k < j ==> ns[k] != v
  {
    j := 0;
    while ns[j] != v
      invariant j < |ns| && v in ns[j..] && forall k :: 0 <= k < j ==> ns[k] != v
      decreases |ns| - j
    {
      assert ns[j..] == [ns[j]] + ns[j + 1..];
      j := j + 1;
    }
  }

  /** A library whose name sorts later, with all that it alone brings in, is linked before one whose name sorts earlier. */
  lemma LinkOrderFollowsNames(nodes: set<Node>, direct: Declared, n: Node, r: seq<Node>, d: Dependency, e: Dependency, x: Node, y: Node)
    requires n in nodes && WithinNodes(nodes, direct) && LibdepsOf(nodes, direct, n) == Sorted(r)
    requires d in DirectOf(direct, n) && d.kind != Interface && e in DirectOf(direct, n) && e.kind != Interface
    requires Text.Less(d.target.name, e.target.name)
    requires Reaches(InnerGraph(nodes, direct), d.target, x) && Reaches(InnerGraph(nodes, direct), e.target, y)
    requires forall f :: f in DirectOf(direct, n) && f.kind != Interface && f.target != e.target && !Text.Less(e.target.name, f.target.name)
                         ==> !Reaches(InnerGraph(nodes, direct), f.target, y)
    ensures Before(r, y, x)
  {
    var deps := DirectOf(direct, n);
    var roots := RootTargets(deps);
    InnerGraphClosed(nodes, direct);
    TargetsOfSorted(deps, Interface);
    SortSorts(deps);
    TargetsSorted(SortByName(deps), Interface);
    var i := FirstIndex(roots, d.target);
    var j := FirstIndex(roots, e.target);
    assert j < i ==> ByName()(roots[j], roots[i]);
    Text.LessIsTotal(d.target.name, e.target.name);
    forall k | 0 <= k < j ensures !Reaches(InnerGraph(nodes, direct), roots[k], y) {
      assert ByName()(roots[k], roots[j]) && roots[k] in roots;
      Text.LessIsTotal(roots[k].name, e.target.name);
      var f :| f in deps && f.kind != Interface && f.target == roots[k];
    }
    RootsInOrder(InnerGraph(nodes, direct), roots, r, i, j, x, y);
  }

  /**
   Honoured, a target links what it lists publicly and privately and passes on what it lists publicly and as its
   interface; ignored, it does both with everything.
   */
  lemma VisibilityExactly(l: Listing, v: Node)
    ensures v in RootTargets(l.Under(Honored)) <==> v in l.libs || v in l.private
    ensures v in InnerTargets(l.Under(Honored)) <==> v in l.libs || v in l.interface
    ensures v in RootTargets(l.Under(Ignored)) <==> v in l.libs || v in l.interface || v in l.private
    ensures v in InnerTargets(l.Under(Ignored)) <==> v in l.libs || v in l.interface || v in l.private
  {
    UnderMembers(l, Honored);
    UnderMembers(l, Ignored);
    TargetsOfSorted(l.Under(Honored), Interface);
    TargetsOfSorted(l.Under(Honored), Private);
    TargetsOfSorted(l.Under(Ignored), Interface);
    TargetsOfSorted(l.Under(Ignored), Private);
  }

  lemma UnderMembers(l: Listing, visibility: Visibility -> Visibility)
    ensures forall v, k :: Dependency(v, k) in l.Under(visibility) <==>
              (v in l.libs && k == visibility(Public)) || (v in l.interface && k == visibility(Interface)) ||
              (v in l.private && k == visibility(Private))
  {
    TaggedMembers(l.libs, visibility(Public));
    TaggedMembers(l.interface, visibility(Interface));
    TaggedMembers(l.private, visibility(Private));
  }

  lemma TaggedMembers(targets: seq<Node>, kind: Visibility)
    ensures forall v, k :: Dependency(v, k) in Tagged(targets, kind) <==> v in targets && k == kind
  {
    var tagged := Tagged(targets, kind);
    forall v | v in targets ensures Dependency(v, kind) in tagged {
      var i :| 0 <= i < |targets| && targets[i] == v;
      assert tagged[i] == Dependency(v, kind);
    }
  }
}
