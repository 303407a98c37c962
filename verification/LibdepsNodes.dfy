/**
 The resolver as it runs in SCons: dependencies, their sorted form and the resolved list are attributes
 of the nodes, filled in on first use and never dropped.
 */
module LibdepsNodes {
  import opened Sequences
  import opened Digraphs
  import opened Libdeps
  import opened LibdepsOrder

  /** The dependencies a walk reads at `n`: a cached sorted list is reused only if it is not empty. */
  function ReadFrom(direct: Declared, sorted: Declared, n: Node): seq<Dependency> {
    if n in sorted && sorted[n] != [] then sorted[n] else SortByName(DirectOf(direct, n))
  }

  /** Walks read the same from either cache of sorted lists. */
  ghost predicate SameReads(direct: Declared, sorted: Declared, sorted': Declared) {
    forall n :: ReadFrom(direct, sorted, n) == ReadFrom(direct, sorted', n)
  }

  /** Every sorted list in the cache is that of the declared dependencies. */
  ghost predicate Fresh(direct: Declared, sorted: Declared) {
    forall n :: ReadFrom(direct, sorted, n) == SortByName(DirectOf(direct, n))
  }

  type Resolved = map<Node, seq<Node>>

  /** Every resolved list is what resolving the declared dependencies gives. */
  ghost predicate Recomputable(nodes: set<Node>, direct: Declared, cached: Resolved)
    requires WithinNodes(nodes, direct)
  {
    cached.Keys <= nodes && forall m :: m in cached ==> LibdepsOf(nodes, direct, m) == Sorted(cached[m])
  }

  /** Every resolved list is a link order of the declared dependencies, perhaps another one than resolving gives. */
  ghost predicate InOrder(nodes: set<Node>, direct: Declared, cached: Resolved) {
    cached.Keys <= nodes && forall m :: m in cached ==> IsOrderOf(nodes, direct, m, cached[m])
  }

  lemma RecomputableIsInOrder(nodes: set<Node>, direct: Declared, cached: Resolved)
    requires WithinNodes(nodes, direct) && Recomputable(nodes, direct, cached)
    ensures InOrder(nodes, direct, cached)
  {
    forall m | m in cached ensures IsOrderOf(nodes, direct, m, cached[m]) {
      LibdepsAreOrdered(nodes, direct, m);
    }
  }

  ghost predicate AllIn(ns: seq<Node>, nodes: set<Node>) {
    forall n :: n in ns ==> n in nodes
  }

  lemma TargetsFrom(deps: seq<Dependency>, hidden: Visibility, i: nat)
    requires i < |deps|
    ensures Targets(deps[i..], hidden) ==
            (if deps[i].kind == hidden then [] else [deps[i].target]) + Targets(deps[i + 1..], hidden)
  {
    assert deps[i..] == [deps[i]] + deps[i + 1..];
  }

  /** Every node in a finished list was entered by the walk. */
  lemma FinishedWasWalked(g: map<Node, seq<Node>>, roots: seq<Node>)
    requires Closed(g) && (forall n :: n in roots ==> n in g) && VisitAll(g, roots, Walk({}, {}, [])).0.Done?
    ensures var w := VisitAll(g, roots, Walk({}, {}, [])).1; forall m :: m in Reversed(w.tsorted) ==> m in w.walking
  {
    assert Inv(g, [], Walk({}, {}, []));
    VisitAllKeeps(g, [], roots, Walk({}, {}, []));
    ReversedAt(VisitAll(g, roots, Walk({}, {}, [])).1.tsorted);
  }

  // ---------- What an append does to the caches ----------

  lemma SortLength(deps: seq<Dependency>)
    ensures |SortByName(deps)| == |deps|
  {
    SortPermutes(deps);
    assert |multiset(deps)| == |deps|;
    assert |multiset(SortByName(deps))| == |SortByName(deps)|;
  }

  /** What walks read after an append. */
  lemma ReadAppended(direct: Declared, sorted: Declared, n: Node, prereqs: seq<Dependency>)
    ensures forall m :: m != n ==> ReadFrom(Appended(direct, n, prereqs), sorted, m) == ReadFrom(direct, sorted, m)
    ensures ReadFrom(Appended(direct, n, prereqs), sorted, n) ==
            if DirectOf(sorted, n) != [] then ReadFrom(direct, sorted, n) else SortByName(DirectOf(direct, n) + prereqs)
  {
  }

  /** The sorted lists stay fresh exactly if nothing is appended or no non-empty one is cached for the node. */
  lemma FreshAppended(direct: Declared, sorted: Declared, n: Node, prereqs: seq<Dependency>)
    requires Fresh(direct, sorted)
    ensures Fresh(Appended(direct, n, prereqs), sorted) <==> prereqs == [] || DirectOf(sorted, n) == []
  {
    var direct', before := Appended(direct, n, prereqs), DirectOf(direct, n);
    SortLength(before);
    SortLength(before + prereqs);
    assert prereqs == [] ==> before + prereqs == before;
    ReadAppended(direct, sorted, n, prereqs);
    assert ReadFrom(direct, sorted, n) == SortByName(before);
    assert Fresh(direct', sorted) <==> ReadFrom(direct', sorted, n) == SortByName(before + prereqs);
  }

  /** Resolved lists stay link orders exactly if each was ordered as the new dependencies ask for already. */
  lemma InOrderAppended(nodes: set<Node>, direct: Declared, cached: Resolved, n: Node, prereqs: seq<Dependency>)
    requires n in nodes && InOrder(nodes, direct, cached)
    ensures InOrder(nodes, Appended(direct, n, prereqs), cached) <==>
            AllOrdered(cached, n, prereqs)
  {
    forall m | m in cached
      ensures IsOrderOf(nodes, Appended(direct, n, prereqs), m, cached[m]) <==> AlreadyOrdered(m, cached[m], n, prereqs)
    {
      AppendKeepsOrder(nodes, direct, n, prereqs, m, cached[m]);
    }
  }

  /** None of the prerequisites is in any list resolved so far. */
  ghost predicate AllNew(cached: Resolved, prereqs: seq<Dependency>) {
    forall m, d :: m in cached && d in prereqs ==> d.target !in cached[m]
  }

  /** Resolved lists stay what resolving gives if, and for new targets only if, no walk looks at what is appended. */
  lemma RecomputableAppended(nodes: set<Node>, direct: Declared, cached: Resolved, n: Node, prereqs: seq<Dependency>)
    requires n in nodes && WithinNodes(nodes, direct) && WithinNodes(nodes, Appended(direct, n, prereqs))
    requires Recomputable(nodes, direct, cached)
    ensures AllOverlook(cached, n, prereqs) ==>
              Recomputable(nodes, Appended(direct, n, prereqs), cached)
    ensures AllNew(cached, prereqs) && Recomputable(nodes, Appended(direct, n, prereqs), cached) ==>
              AllOverlook(cached, n, prereqs)
  {
    forall m | m in cached
      ensures Overlooks(m, cached[m], n, prereqs) ==>
                LibdepsOf(nodes, Appended(direct, n, prereqs), m) == Sorted(cached[m])
      ensures AllNew(cached, prereqs) && LibdepsOf(nodes, Appended(direct, n, prereqs), m) == Sorted(cached[m]) ==>
                Overlooks(m, cached[m], n, prereqs)
    {
      if Overlooks(m, cached[m], n, prereqs) {
        OverlookedKeepsLibdeps(nodes, direct, n, prereqs, m);
      } else if AllNew(cached, prereqs) {
        AppendKeepsLibdeps(nodes, direct, n, prereqs, m, cached[m]);
      }
    }
  }

  /** Both caches agree with the declared dependencies: they hold what recomputing them would give. */
  ghost predicate Current(nodes: set<Node>, direct: Declared, sorted: Declared, cached: Resolved)
    requires WithinNodes(nodes, direct)
  {
    Fresh(direct, sorted) && Recomputable(nodes, direct, cached)
  }

  /** Both caches lead to correct answers. */
  ghost predicate Correct(nodes: set<Node>, direct: Declared, sorted: Declared, cached: Resolved) {
    Fresh(direct, sorted) && InOrder(nodes, direct, cached)
  }

  ghost predicate AllOrdered(cached: Resolved, n: Node, prereqs: seq<Dependency>) {
    forall m :: m in cached ==> AlreadyOrdered(m, cached[m], n, prereqs)
  }

  ghost predicate AllOverlook(cached: Resolved, n: Node, prereqs: seq<Dependency>) {
    forall m :: m in cached ==> Overlooks(m, cached[m], n, prereqs)
  }

  /** Walks read what is appended: no non-empty sorted list stands in the way. */
  ghost predicate Seen(sorted: Declared, n: Node, prereqs: seq<Dependency>) {
    prereqs == [] || DirectOf(sorted, n) == []
  }

  /** When both caches survive an append. */
  lemma {:induction false} CachesAppended(nodes: set<Node>, direct: Declared, sorted: Declared, cached: Resolved,
                                          n: Node, prereqs: seq<Dependency>)
    requires n in nodes && WithinNodes(nodes, direct) && WithinNodes(nodes, Appended(direct, n, prereqs))
    ensures var direct' := Appended(direct, n, prereqs);
            && (Fresh(direct, sorted) ==> (Fresh(direct', sorted) <==> Seen(sorted, n, prereqs)))
            && (Correct(nodes, direct, sorted, cached) ==>
                  (Correct(nodes, direct', sorted, cached) <==> Seen(sorted, n, prereqs) && AllOrdered(cached, n, prereqs)))
            && (Current(nodes, direct, sorted, cached) && Seen(sorted, n, prereqs) && AllOverlook(cached, n, prereqs) ==>
                  Current(nodes, direct', sorted, cached))
            && (Current(nodes, direct, sorted, cached) && AllNew(cached, prereqs) && Current(nodes, direct', sorted, cached) ==>
                  Seen(sorted, n, prereqs) && AllOverlook(cached, n, prereqs))
  {
    if Fresh(direct, sorted) {
      FreshAppended(direct, sorted, n, prereqs);
    }
    if InOrder(nodes, direct, cached) {
      InOrderAppended(nodes, direct, cached, n, prereqs);
    }
    if Recomputable(nodes, direct, cached) {
      RecomputableAppended(nodes, direct, cached, n, prereqs);
    }
  }

  lemma WithinAppended(nodes: set<Node>, direct: Declared, n: Node, prereqs: seq<Dependency>)
    requires WithinNodes(nodes, direct) && forall d :: d in prereqs ==> d.target in nodes
    ensures WithinNodes(nodes, Appended(direct, n, prereqs))
  {
  }

  /** The three collections one resolution shares between its nested calls. */
  class WalkState {
    var marked: set<Node>
    var walking: set<Node>
    var tsorted: seq<Node>

    constructor ()
      ensures Value() == Walk({}, {}, [])
    {
      marked, walking, tsorted := {}, {}, [];
    }

    ghost function Value(): Walk
      reads this
    {
      Walk(marked, walking, tsorted)
    }
  }

  class NodeAttributes {
    const nodes: set<Node>                          // the nodes of the build
    var direct: Declared                            // libdeps_direct
    var directSorted: map<Node, seq<Dependency>>    // libdeps_direct_sorted
    var cached: map<Node, seq<Node>>                // LIBDEPS_cached

    constructor (nodes: set<Node>)
      ensures Valid() && UpToDate() && this.nodes == nodes
      ensures direct == map[] && directSorted == map[] && cached == map[]
    {
      this.nodes := nodes;
      direct, directSorted, cached := map[], map[], map[];
    }

    ghost predicate Valid()
      reads `direct, `directSorted
    {
      WithinNodes(nodes, direct) && WithinNodes(nodes, directSorted)
    }

    predicate HasSorted(n: Node)
      reads `direct, `directSorted
    {
      n in directSorted && directSorted[n] != []
    }

    function Read(n: Node): seq<Dependency>
      reads `direct, `directSorted
    {
      ReadFrom(direct, directSorted, n)
    }

    /** The sorted list of `m` is in the cache. */
    ghost predicate IsStored(m: Node)
      reads `direct, `directSorted
    {
      m in directSorted && directSorted[m] == Read(m)
    }

    ghost function Graph(): map<Node, seq<Node>>
      reads `direct, `directSorted
    {
      map n | n in nodes :: Targets(Read(n), Private)
    }

    ghost function Roots(n: Node): seq<Node>
      reads `direct, `directSorted
    {
      Targets(Read(n), Interface)
    }

    /** Both caches hold what recomputing them from the declared dependencies would give. */
    ghost predicate UpToDate()
      reads this
      requires Valid()
    {
      Current(nodes, direct, directSorted, cached)
    }

    /** The sorted lists are those of the declared dependencies, and every resolved list is a link order of them. */
    ghost predicate Sound()
      reads this
    {
      Correct(nodes, direct, directSorted, cached)
    }

    lemma ReadWithin(n: Node)
      requires Valid() && n in nodes
      ensures forall d :: d in Read(n) ==> d.target in nodes
    {
      SortPermutes(DirectOf(direct, n));
      forall d | d in SortByName(DirectOf(direct, n)) ensures d in DirectOf(direct, n) {
        assert d in multiset(SortByName(DirectOf(direct, n)));
      }
      assert HasSorted(n) ==> DirectOf(directSorted, n) == directSorted[n];
    }

    ghost predicate GraphClosed()
      reads `direct, `directSorted
    {
      Closed(Graph())
    }

    ghost predicate RootsWithin(n: Node)
      reads `direct, `directSorted
    {
      forall v :: v in Roots(n) ==> v in nodes
    }

    lemma GraphIsClosed()
      requires Valid()
      ensures GraphClosed()
    {
      forall u, v | Edge(Graph(), u, v) ensures v in Graph() {
        ReadWithin(u);
        TargetsMembers(Read(u), Private);
      }
    }

    lemma RootsAreWithin(n: Node)
      requires Valid() && n in nodes
      ensures RootsWithin(n)
    {
      ReadWithin(n);
      TargetsMembers(Read(n), Interface);
    }

    method GetSortedDirect(n: Node) returns (deps: seq<Dependency>)
      requires Valid() && n in nodes
      modifies this`directSorted
      ensures ReadsKept() && deps == Read(n) && directSorted == old(directSorted)[n := deps]
    {
      ReadWithin(n);
      if n in directSorted && directSorted[n] != [] {
        deps := directSorted[n];
      } else {
        deps := SortByName(if n in direct then direct[n] else []);
        directSorted := directSorted[n := deps];
      }
    }

    /** `g` is the graph a walk reads. */
    ghost predicate Shows(g: map<Node, seq<Node>>)
      reads `direct, `directSorted
    {
      g.Keys == nodes && forall m :: m in nodes ==> Targets(Read(m), Private) == g[m]
    }

    /** No call changes what later walks read. */
    twostate predicate ReadsKept()
      reads `direct, `directSorted
    {
      Valid() && SameReads(direct, old(directSorted), directSorted)
    }

    /** Recursive visit; a returned CycleFound stands for the exception propagating to the caller. */
    method VisitNode(n: Node, ws: WalkState, ghost g: map<Node, seq<Node>>) returns (outcome: Outcome)
      requires Valid() && Shows(g) && Closed(g) && n in nodes && ws.walking <= nodes
      modifies this`directSorted, ws
      ensures ReadsKept() && (outcome, ws.Value()) == Visit(g, n, old(ws.Value()))
      ensures forall m :: old(IsStored(m)) || (m in ws.walking && m !in old(ws.walking)) ==> IsStored(m)
      decreases nodes - ws.walking, 0
    {
      if n in ws.marked {
        return Done;
      }
      if n in ws.walking {
        return CycleFound([n]);
      }
      ws.walking := ws.walking + {n};
      var children := GetSortedDirect(n);
      assert forall v :: v in g[n] ==> Edge(g, n, v);
      outcome := VisitChildren(children, Private, ws, g);
      if outcome.CycleFound? {
        if |outcome.nodes| == 1 || outcome.nodes[0] != outcome.nodes[|outcome.nodes| - 1] {
          outcome := CycleFound([n] + outcome.nodes);
        }
        return;
      }
      ws.marked := ws.marked + {n};
      ws.tsorted := ws.tsorted + [n];
    }

    /** The loop over one node's dependencies; it stops at the first exception. */
    method VisitChildren(children: seq<Dependency>, hidden: Visibility, ws: WalkState, ghost g: map<Node, seq<Node>>)
      returns (outcome: Outcome)
      requires Valid() && Shows(g) && Closed(g) && ws.walking <= nodes
      requires forall v :: v in Targets(children, hidden) ==> v in nodes
      modifies this`directSorted, ws
      ensures ReadsKept() && (outcome, ws.Value()) == VisitAll(g, Targets(children, hidden), old(ws.Value()))
      ensures forall m :: old(IsStored(m)) || (m in ws.walking && m !in old(ws.walking)) ==> IsStored(m)
      decreases nodes - ws.walking, 1
    {
      outcome := Done;
      ghost var w0 := ws.Value();
      var i := 0;
      assert children[0..] == children;
      while i < |children| && outcome.Done?
        invariant 0 <= i <= |children| && w0.walking <= ws.walking <= nodes
        invariant ReadsKept() && AllIn(Targets(children[i..], hidden), nodes)
        invariant forall m :: old(IsStored(m)) || (m in ws.walking && m !in w0.walking) ==> IsStored(m)
        invariant VisitAll(g, Targets(children, hidden), w0) ==
                  if outcome.Done? then VisitAll(g, Targets(children[i..], hidden), ws.Value()) else (outcome, ws.Value())
      {
        var child := children[i];
        TargetsFrom(children, hidden, i);
        if child.kind != hidden {
          assert Targets(children[i..], hidden)[0] == child.target;
          assert Targets(children[i..], hidden)[1..] == Targets(children[i + 1..], hidden);
          outcome := VisitNode(child.target, ws, g);
        }
        i := i + 1;
      }
    }

    /** The part of __get_libdeps that runs on a cache miss. */
    method ComputeLibdeps(n: Node) returns (r: Resolution)
      requires Valid() && n in nodes && GraphClosed() && RootsWithin(n)
      modifies this`directSorted
      ensures ReadsKept() && r == Resolve(old(Graph()), old(Roots(n)))
      ensures forall m :: old(IsStored(m)) || m == n || (r.Sorted? && m in r.nodes) ==> IsStored(m)
    {
      var ws := new WalkState();
      ghost var g := Graph();
      var children := GetSortedDirect(n);
      var outcome := VisitChildren(children, Interface, ws, g);
      if outcome.CycleFound? {
        return Cyclic(outcome.nodes);
      }
      FinishedWasWalked(g, Targets(children, Interface));
      ws.tsorted := Reversed(ws.tsorted);
      return Sorted(ws.tsorted);
    }

    method GetLibdeps(n: Node) returns (r: Resolution)
      requires Valid() && n in nodes
      modifies this`directSorted, this`cached
      ensures ReadsKept() && old(GraphClosed()) && old(RootsWithin(n))
      ensures r == if n in old(cached) then Sorted(old(cached)[n]) else Resolve(old(Graph()), old(Roots(n)))
      ensures cached == if r.Sorted? then old(cached)[n := r.nodes] else old(cached)
      ensures forall m :: old(IsStored(m)) || (n !in old(cached) && (m == n || (r.Sorted? && m in r.nodes))) ==> IsStored(m)
      ensures old(UpToDate()) ==> UpToDate() && r == LibdepsOf(nodes, direct, n)
      ensures old(Sound()) ==> Sound() && if r.Sorted? then IsOrderOf(nodes, direct, n, r.nodes) else r == LibdepsOf(nodes, direct, n)
    {
      GraphIsClosed();
      RootsAreWithin(n);
      if n in cached {
        return Sorted(cached[n]);
      }
      if Fresh(direct, directSorted) {
        FreshGraph();
        LibdepsAreOrdered(nodes, direct, n);
      }
      r := ComputeLibdeps(n);
      if r.Sorted? {
        cached := cached[n := r.nodes];
      }
    }

    /** With fresh sorted lists the walk reads exactly the declared dependencies. */
    lemma FreshGraph()
      requires Valid() && Fresh(direct, directSorted)
      ensures Graph() == InnerGraph(nodes, direct)
      ensures forall n :: Roots(n) == RootTargets(DirectOf(direct, n))
    {
    }

    /**
     Neither cache is dropped. Later walks see the new dependencies exactly if no non-empty sorted list was
     cached for `n`; the resolved lists moreover stay correct exactly if each was already ordered as the new
     dependencies ask for, and stay what resolving gives exactly if no walk behind them looks at a new one.
     */
    method AppendDirect(n: Node, prereqs: seq<Dependency>)
      requires Valid() && n in nodes && forall d :: d in prereqs ==> d.target in nodes
      modifies this`direct
      ensures Valid() && direct == Appended(old(direct), n, prereqs)
      ensures forall m :: m != n ==> Read(m) == old(Read(m))
      ensures Read(n) == if HasSorted(n) then old(Read(n)) else SortByName(DirectOf(old(direct), n) + prereqs)
      ensures Fresh(old(direct), directSorted) ==> (Fresh(direct, directSorted) <==> Seen(directSorted, n, prereqs))
      ensures old(Sound()) ==> (Sound() <==> Seen(directSorted, n, prereqs) && AllOrdered(cached, n, prereqs))
      ensures old(UpToDate()) && Seen(directSorted, n, prereqs) && AllOverlook(cached, n, prereqs) ==> UpToDate()
      ensures old(UpToDate()) && AllNew(cached, prereqs) ==>
                (UpToDate() <==> Seen(directSorted, n, prereqs) && AllOverlook(cached, n, prereqs))
    {
      WithinAppended(nodes, direct, n, prereqs);
      ReadAppended(direct, directSorted, n, prereqs);
      CachesAppended(nodes, direct, directSorted, cached, n, prereqs);
      var declared := direct;
      if n !in declared {
        declared := declared[n := []];
      }
      declared := declared[n := declared[n] + prereqs];
      assert declared == Appended(direct, n, prereqs);
      direct := declared;
    }
  }

  // ---------- An append that is never seen ----------

  lemma NothingDeclared(nodes: set<Node>, a: Node)
    requires a in nodes
    ensures WithinNodes(nodes, map[]) && LibdepsOf(nodes, map[], a) == Sorted([])
  {
  }

  /** A dependency that is not Interface is in the list of the node that declares it. */
  lemma DeclaredIsResolved(nodes: set<Node>, direct: Declared, a: Node, d: Dependency)
    requires a in nodes && WithinNodes(nodes, direct) && d in DirectOf(direct, a) && d.kind != Interface
    ensures var r := LibdepsOf(nodes, direct, a); r.Sorted? ==> d.target in r.nodes
  {
    LibdepsAreOrdered(nodes, direct, a);
    TargetsOfSorted(DirectOf(direct, a), Interface);
    ReachesSelf(InnerGraph(nodes, direct), d.target);
  }

  /**
   A node resolved before it gets its only dependency goes on answering with the empty list it has cached,
   although the sorted lists are up to date.
   */
  method AppendAfterResolve(a: Node, b: Node) returns (attributes: NodeAttributes, first: Resolution, answer: Resolution)
    requires a != b
    ensures attributes.Valid() && attributes.nodes == {a, b} && attributes.direct == map[a := [Dependency(b, Public)]]
    ensures Fresh(attributes.direct, attributes.directSorted) && first == answer == Sorted([])
    ensures LibdepsOf(attributes.nodes, attributes.direct, a) != Sorted([])
  {
    attributes := new NodeAttributes({a, b});
    NothingDeclared({a, b}, a);
    first := attributes.GetLibdeps(a);
    assert attributes.Read(a) == [];
    var prereqs := [Dependency(b, Public)];
    assert [] + prereqs == prereqs;
    attributes.AppendDirect(a, prereqs);
    DeclaredIsResolved({a, b}, attributes.direct, a, prereqs[0]);
    answer := attributes.GetLibdeps(a);
  }
}
