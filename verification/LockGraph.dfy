/** The waits-for graph and its deadlock detector, class Graph of buildscripts/gdb/mongo_lock.py. */
module LockGraph {
  import opened Sequences
  import opened Digraphs

  type Key = string

  /** A thread or a lock: its key() and its str(). */
  datatype Item = Item(key: Key, text: string)

  /** One dictionary value: the item and its next_nodes. */
  datatype Entry = Entry(item: Item, next: seq<Key>)

  function TextsOf(nodes: map<Key, Entry>, path: seq<Key>): seq<string>
    requires forall k :: k in path ==> k in nodes
  {
    seq(|path|, i requires 0 <= i < |path| => nodes[path[i]].item.text)
  }

  // ---------- Facts about finished nodes ----------

  /** Nothing leaves `f`, and no cycle passes through it. */
  ghost predicate Finished(g: map<Key, seq<Key>>, f: set<Key>) {
    ClosedSet(g, f) && forall c :: IsCycle(g, c) ==> c[0] !in f
  }

  /** A duplicate-free chain whose last node has an edge to its first. */
  ghost predicate IsDeadlock(g: map<Key, seq<Key>>, c: seq<Key>) {
    IsPath(g, c) && NoDuplicates(c) && Edge(g, c[|c| - 1], c[0])
  }

  lemma FinishNode(g: map<Key, seq<Key>>, f: set<Key>, n: Key)
    requires Finished(g, f) && forall v :: Edge(g, n, v) ==> v in f
    ensures Finished(g, f + {n})
  {
    forall c | IsCycle(g, c) ensures c[0] !in f + {n} {
      if c[0] == n {
        PathTail(g, c);
        WalkStaysInside(g, f, c[1..], |c| - 2);
      }
    }
  }

  lemma ChainIsCycle(g: map<Key, seq<Key>>, c: seq<Key>)
    requires IsDeadlock(g, c)
    ensures IsCycle(g, c + [c[0]]) && forall k :: k in c ==> k in g
  {
    forall i | 0 <= i < |c| ensures c[i] in g {
      if i < |c| - 1 {
        assert Edge(g, c[i], c[i + 1]);
      }
    }
  }

  lemma AllFinishedIsAcyclic(g: map<Key, seq<Key>>, f: set<Key>)
    requires Finished(g, f) && g.Keys <= f
    ensures Acyclic(g)
  {
    forall c ensures !IsCycle(g, c) {
      if IsCycle(g, c) {
        PathTail(g, c);
        assert false;
      }
    }
  }

  // ---------- What a search keeps ----------

  /** Between calls: `path` is live, everything else visited is finished. */
  ghost predicate Ready(g: map<Key, seq<Key>>, visited: set<Key>, path: seq<Key>) {
    && NoDuplicates(path) && Elements(path) <= visited <= g.Keys
    && (path != [] ==> IsPath(g, path))
    && Finished(g, visited - Elements(path))
  }

  lemma Push(g: map<Key, seq<Key>>, visited: set<Key>, path: seq<Key>, k: Key)
    requires Ready(g, visited, path) && k in g && k !in visited
    requires path != [] ==> Edge(g, path[|path| - 1], k)
    ensures Ready(g, visited + {k}, path + [k])
  {
  }

  lemma Pop(g: map<Key, seq<Key>>, visited: set<Key>, path: seq<Key>, k: Key)
    requires Ready(g, visited, path + [k])
    requires forall v :: Edge(g, k, v) ==> v in visited && v !in path + [k]
    ensures Ready(g, visited, path)
  {
    assert Elements(path + [k]) == Elements(path) + {k};
    var whole := path + [k];
    assert forall i :: 0 <= i < |path| ==> path[i] == whole[i] && whole[i] != whole[|path|];
    FinishNode(g, visited - Elements(path + [k]), k);
    assert visited - Elements(path) == visited - Elements(path + [k]) + {k};
    forall i | 0 <= i < |path| - 1 ensures Edge(g, path[i], path[i + 1]) {
      assert Edge(g, whole[i], whole[i + 1]);
    }
  }

  /** Searches from these nodes have come back without a cycle. */
  ghost predicate Explored(visited: set<Key>, path: seq<Key>, children: seq<Key>) {
    forall v :: v in children ==> v in visited && v !in path
  }

  // ---------- Which cycle is found ----------

  ghost predicate NoCycleFrom(g: map<Key, seq<Key>>, v: Key) {
    forall c :: IsCycle(g, c) ==> !Reaches(g, v, c[0])
  }

  /** `v` is a next node of `u`, and no cycle can be reached from the ones before it. */
  ghost predicate FirstWay(g: map<Key, seq<Key>>, u: Key, v: Key) {
    u in g && exists i :: 0 <= i < |g[u]| && g[u][i] == v && forall k :: 0 <= k < i ==> NoCycleFrom(g, g[u][k])
  }

  /** Every step of the trail is the first way that leads to a cycle. */
  ghost predicate Leftmost(g: map<Key, seq<Key>>, trail: seq<Key>) {
    forall i :: 0 <= i < |trail| - 1 ==> FirstWay(g, trail[i], trail[i + 1])
  }

  /** The trail starts at the first key from which a cycle can be reached, and ends in the cycle reported. */
  ghost predicate FoundFirst(g: map<Key, seq<Key>>, keys: seq<Key>, trail: seq<Key>, cycle: seq<Key>) {
    && trail != [] && Leftmost(g, trail)
    && (exists i :: 0 <= i < |keys| && keys[i] == trail[0] && forall k :: 0 <= k < i ==> NoCycleFrom(g, keys[k]))
    && 0 < |cycle| <= |trail| && cycle == trail[|trail| - |cycle|..] && FirstWay(g, trail[|trail| - 1], cycle[0])
  }

  /** `v` is a next node of `u`, and the ones before it are in `f`. */
  ghost predicate WayPast(g: map<Key, seq<Key>>, f: set<Key>, u: Key, v: Key) {
    u in g && exists i :: 0 <= i < |g[u]| && g[u][i] == v && forall k :: 0 <= k < i ==> g[u][k] in f
  }

  ghost predicate TrailPast(g: map<Key, seq<Key>>, f: set<Key>, trail: seq<Key>) {
    forall i :: 0 <= i < |trail| - 1 ==> WayPast(g, f, trail[i], trail[i + 1])
  }

  /** The search may go on from the end of its path to `k`. */
  ghost predicate Follows(g: map<Key, seq<Key>>, visited: set<Key>, path: seq<Key>, k: Key) {
    var f := visited - Elements(path);
    TrailPast(g, f, path) && (path != [] ==> WayPast(g, f, path[|path| - 1], k))
  }

  lemma FollowsOn(g: map<Key, seq<Key>>, visited: set<Key>, path: seq<Key>, k: Key)
    requires Follows(g, visited, path, k) && k !in visited
    ensures TrailPast(g, visited + {k} - Elements(path + [k]), path + [k]) && (path != [] ==> Edge(g, path[|path| - 1], k))
  {
    assert visited + {k} - Elements(path + [k]) == visited - Elements(path);
  }

  lemma TrailPastMore(g: map<Key, seq<Key>>, f: set<Key>, f': set<Key>, trail: seq<Key>)
    requires TrailPast(g, f, trail) && f <= f'
    ensures TrailPast(g, f', trail)
  {
    forall i | 0 <= i < |trail| - 1 ensures WayPast(g, f', trail[i], trail[i + 1]) {
      assert WayPast(g, f, trail[i], trail[i + 1]);
    }
  }

  /** The search stands at the end of `path` and is through with these of its next nodes. */
  ghost predicate Searching(g: map<Key, seq<Key>>, visited: set<Key>, path: seq<Key>, done: seq<Key>) {
    Ready(g, visited, path) && TrailPast(g, visited - Elements(path), path) && Explored(visited, path, done)
  }

  /** A search that got as far as `start` has gone on to `path` and found the cycle at its end. */
  ghost predicate Found(g: map<Key, seq<Key>>, visited: set<Key>, start: seq<Key>, path: seq<Key>, cycle: seq<Key>) {
    var f := visited - Elements(path);
    && Finished(g, f) && IsDeadlock(g, cycle) && start <= path && TrailPast(g, f, path)
    && 0 < |cycle| <= |path| && cycle == path[|path| - |cycle|..] && WayPast(g, f, path[|path| - 1], cycle[0])
  }

  lemma FoundHere(g: map<Key, seq<Key>>, visited: set<Key>, path: seq<Key>, j: nat)
    requires Ready(g, visited, path) && j < |path| && TrailPast(g, visited - Elements(path), path)
    requires WayPast(g, visited - Elements(path), path[|path| - 1], path[j])
    ensures Found(g, visited, path, path, path[j..])
  {
    CloseChain(g, path, j);
  }

  lemma FoundFurther(g: map<Key, seq<Key>>, visited: set<Key>, start: seq<Key>, k: Key, path: seq<Key>, cycle: seq<Key>)
    requires Found(g, visited, start + [k], path, cycle)
    ensures Found(g, visited, start, path, cycle)
  {
  }

  lemma ExploredIsPast(g: map<Key, seq<Key>>, visited: set<Key>, path: seq<Key>, k: Key, i: nat)
    requires k in g && i < |g[k]| && Explored(visited, path, g[k][..i])
    ensures WayPast(g, visited - Elements(path), k, g[k][i])
  {
    forall j | 0 <= j < i ensures g[k][j] in visited - Elements(path) {
      assert g[k][j] in g[k][..i];
    }
  }

  /** What is finished leads to no cycle, so the trail found is the leftmost. */
  lemma FoundIsFirst(g: map<Key, seq<Key>>, before: set<Key>, visited: set<Key>, keys: seq<Key>, i: nat, path: seq<Key>, cycle: seq<Key>)
    requires Ready(g, before, []) && i < |keys| && (forall k :: k in keys[..i] ==> k in before)
    requires Found(g, visited, [keys[i]], path, cycle)
    ensures FoundFirst(g, keys, path, cycle)
  {
    var f := visited - Elements(path);
    forall k | 0 <= k < i ensures NoCycleFrom(g, keys[k]) {
      assert keys[k] in keys[..i];
      FinishedHasNoCycle(g, before - Elements([]), keys[k]);
    }
    PastIsLeftmost(g, f, path);
    PastIsFirst(g, f, path[|path| - 1], cycle[0]);
    assert path[0] == keys[i];
  }

  lemma PastIsLeftmost(g: map<Key, seq<Key>>, f: set<Key>, path: seq<Key>)
    requires Finished(g, f) && TrailPast(g, f, path)
    ensures Leftmost(g, path)
  {
    forall i | 0 <= i < |path| - 1 ensures FirstWay(g, path[i], path[i + 1]) {
      PastIsFirst(g, f, path[i], path[i + 1]);
    }
  }

  lemma PastIsFirst(g: map<Key, seq<Key>>, f: set<Key>, u: Key, v: Key)
    requires Finished(g, f) && WayPast(g, f, u, v)
    ensures FirstWay(g, u, v)
  {
    var i :| 0 <= i < |g[u]| && g[u][i] == v && forall k :: 0 <= k < i ==> g[u][k] in f;
    forall k | 0 <= k < i ensures NoCycleFrom(g, g[u][k]) {
      FinishedHasNoCycle(g, f, g[u][k]);
    }
  }

  lemma FinishedHasNoCycle(g: map<Key, seq<Key>>, f: set<Key>, v: Key)
    requires Finished(g, f) && v in f
    ensures NoCycleFrom(g, v)
  {
    forall c | IsCycle(g, c) ensures !Reaches(g, v, c[0]) {
      if Reaches(g, v, c[0]) {
        ReachesStaysInside(g, f, v, c[0]);
        assert false;
      }
    }
  }

  lemma CloseChain(g: map<Key, seq<Key>>, path: seq<Key>, j: nat)
    requires IsPath(g, path) && NoDuplicates(path) && j < |path| && Edge(g, path[|path| - 1], path[j])
    ensures IsDeadlock(g, path[j..])
  {
  }

  // ---------- The dictionary of nodes ----------

  ghost predicate WellFormed(nodes: map<Key, Entry>) {
    forall k :: k in nodes ==>
      && nodes[k].item.key == k && NoDuplicates(nodes[k].next)
      && forall t :: t in nodes[k].next ==> t in nodes
  }

  ghost predicate HasEdge(nodes: map<Key, Entry>, u: Key, v: Key) {
    u in nodes && v in nodes[u].next
  }

  ghost predicate SameEdges(a: map<Key, Entry>, b: map<Key, Entry>) {
    forall u, v :: HasEdge(a, u, v) <==> HasEdge(b, u, v)
  }

  /** `k` has an edge in or out. */
  ghost predicate Linked(nodes: map<Key, Entry>, k: Key) {
    exists v :: HasEdge(nodes, k, v) || HasEdge(nodes, v, k)
  }

  lemma {:induction false} KeepingLinked(nodes: map<Key, Entry>, kept: map<Key, Entry>)
    requires WellFormed(nodes) && forall k :: k in kept <==> k in nodes && Linked(nodes, k)
    requires forall k :: k in kept ==> kept[k] == nodes[k]
    ensures WellFormed(kept) && SameEdges(nodes, kept)
  {
    forall u, v | HasEdge(nodes, u, v) ensures u in kept && v in kept {
      assert Linked(nodes, u) && Linked(nodes, v);
    }
    forall k, t | k in kept && t in kept[k].next ensures t in kept {
      assert HasEdge(nodes, k, t);
    }
  }

  /** The keys of nodes that have an edge, in order. */
  ghost function LinkedKeys(nodes: map<Key, Entry>, keys: seq<Key>): seq<Key> {
    if keys == [] then []
    else LinkedKeys(nodes, keys[..|keys| - 1]) + if Linked(nodes, keys[|keys| - 1]) then [keys[|keys| - 1]] else []
  }

  /** The nodes among the first `i` keys that have an edge, in order. */
  ghost predicate KeptUpTo(nodes: map<Key, Entry>, keys: seq<Key>, i: nat, kept: map<Key, Entry>, keptKeys: seq<Key>)
    requires i <= |keys|
  {
    && NoDuplicates(keptKeys) && Elements(keptKeys) == kept.Keys && keptKeys == LinkedKeys(nodes, keys[..i])
    && (forall k :: k in kept ==> k in nodes && kept[k] == nodes[k])
    && (forall k :: k in kept <==> k in keys[..i] && Linked(nodes, k))
  }

  lemma KeepNext(nodes: map<Key, Entry>, keys: seq<Key>, i: nat, kept: map<Key, Entry>, keptKeys: seq<Key>)
    requires NoDuplicates(keys) && i < |keys| && keys[i] in nodes && KeptUpTo(nodes, keys, i, kept, keptKeys)
    ensures if Linked(nodes, keys[i]) then KeptUpTo(nodes, keys, i + 1, kept[keys[i] := nodes[keys[i]]], keptKeys + [keys[i]])
            else KeptUpTo(nodes, keys, i + 1, kept, keptKeys)
  {
    var k := keys[i];
    assert k !in keys[..i] && keys[..i + 1] == keys[..i] + [k] && keys[..i + 1][..i] == keys[..i];
    assert Elements(keptKeys + [k]) == Elements(keptKeys) + {k};
    assert k !in Elements(keptKeys);
  }

  lemma AddingEdge(nodes: map<Key, Entry>, from: Key, to: Key)
    requires WellFormed(nodes) && from in nodes && to in nodes && to !in nodes[from].next
    ensures var nodes' := nodes[from := nodes[from].(next := nodes[from].next + [to])];
            && WellFormed(nodes') && nodes'.Keys == nodes.Keys && ItemsOf(nodes') == ItemsOf(nodes)
            && (forall u, v :: HasEdge(nodes', u, v) <==> HasEdge(nodes, u, v) || (u == from && v == to))
  {
  }

  function WithKey(keys: seq<Key>, k: Key): seq<Key> {
    if k in keys then keys else keys + [k]
  }

  function NextIn(nodes: map<Key, Entry>, k: Key): seq<Key> {
    if k in nodes then nodes[k].next else []
  }

  /** The next nodes after an edge to `to` was added, if it was added at this node. */
  function NextAfter(next: seq<Key>, here: bool, to: Key): seq<Key> {
    if here && to !in next then next + [to] else next
  }

  function WithNode(nodes: map<Key, Entry>, n: Item): map<Key, Entry> {
    if n.key in nodes then nodes else nodes[n.key := Entry(n, [])]
  }

  lemma BothAdded(nodes: map<Key, Entry>, both: map<Key, Entry>, from: Item, to: Item)
    requires both == WithNode(WithNode(nodes, from), to)
    ensures both.Keys == nodes.Keys + {from.key, to.key}
    ensures ItemsOf(both) == WithItem(WithItem(ItemsOf(nodes), from), to)
    ensures forall k :: NextIn(both, k) == NextIn(nodes, k)
  {
  }

  // ---------- Which item stands for a key ----------

  function ItemsOf(nodes: map<Key, Entry>): map<Key, Item> {
    map k | k in nodes :: nodes[k].item
  }

  /** A key that is there already keeps its item. */
  function WithItem(known: map<Key, Item>, n: Item): map<Key, Item> {
    if n.key in known then known else known[n.key := n]
  }

  function WithItems(given: seq<Item>): map<Key, Item> {
    if given == [] then map[] else WithItem(WithItems(given[..|given| - 1]), given[|given| - 1])
  }

  /** The first item given with key `k` has this text. */
  ghost predicate IsTextOf(given: seq<Item>, k: Key, text: string) {
    exists j :: 0 <= j < |given| && given[j] == Item(k, text) && forall h :: 0 <= h < j ==> given[h].key != k
  }

  lemma TextOfLonger(given: seq<Item>, last: Item, k: Key, text: string)
    requires IsTextOf(given, k, text)
    ensures IsTextOf(given + [last], k, text)
  {
    var j :| 0 <= j < |given| && given[j] == Item(k, text) && forall h :: 0 <= h < j ==> given[h].key != k;
    assert (given + [last])[j] == given[j];
  }

  lemma {:induction false} FirstItemKept(given: seq<Item>, k: Key)
    ensures k !in WithItems(given) ==> forall j :: 0 <= j < |given| ==> given[j].key != k
    ensures k in WithItems(given) ==> WithItems(given)[k].key == k && IsTextOf(given, k, WithItems(given)[k].text)
  {
    if given != [] {
      var front, last := given[..|given| - 1], given[|given| - 1];
      FirstItemKept(front, k);
      assert given == front + [last];
      if k in WithItems(front) {
        TextOfLonger(front, last, k, WithItems(front)[k].text);
      } else if last.key == k {
        assert given[|front|] == Item(k, last.text);
      }
    }
  }

  /** The collections that nested searches share: nodes_visited and nodes_in_cycle. */
  class Search {
    var visited: set<Key>
    var path: seq<Key>

    constructor ()
      ensures visited == {} && path == []
    {
      visited, path := {}, [];
    }
  }

  class Graph {
    var keys: seq<Key>              // the dictionary's iteration order
    var nodes: map<Key, Entry>

    ghost predicate Valid()
      reads this
    {
      NoDuplicates(keys) && Elements(keys) == nodes.Keys && WellFormed(nodes)
    }

    ghost function Next(): map<Key, seq<Key>>
      reads this
    {
      map k | k in nodes :: nodes[k].next
    }

    constructor ()
      ensures Valid() && nodes == map[] && keys == []
    {
      keys, nodes := [], map[];
    }

    method AddNode(n: Item)
      requires Valid()
      modifies this
      ensures Valid() && keys == WithKey(old(keys), n.key)
      ensures nodes == WithNode(old(nodes), n)
      ensures SameEdges(nodes, old(nodes)) && ItemsOf(nodes) == WithItem(ItemsOf(old(nodes)), n)
    {
      assert n.key in nodes <==> n.key in Elements(keys);
      if n.key !in nodes {
        keys := keys + [n.key];
        nodes := nodes[n.key := Entry(n, [])];
      }
    }

    method AddEdge(from: Item, to: Item)
      requires Valid()
      modifies this
      ensures Valid() && nodes.Keys == old(nodes).Keys + {from.key, to.key}
      ensures forall u, v :: HasEdge(nodes, u, v) <==> HasEdge(old(nodes), u, v) || (u == from.key && v == to.key)
      ensures ItemsOf(nodes) == WithItem(WithItem(ItemsOf(old(nodes)), from), to)
      ensures keys == WithKey(WithKey(old(keys), from.key), to.key)
      ensures forall k :: k in nodes ==> nodes[k].next == NextAfter(NextIn(old(nodes), k), k == from.key, to.key)
    {
      AddNode(from);
      AddNode(to);
      ghost var both := nodes;
      BothAdded(old(nodes), both, from, to);
      var next := nodes[from.key].next;
      for i := 0 to |next|
        invariant to.key !in next[..i]
      {
        if next[i] == to.key {
          return;
        }
      }
      AddingEdge(nodes, from.key, to.key);
      nodes := nodes[from.key := nodes[from.key].(next := next + [to.key])];
    }

    /** The first node, in dictionary order, with an edge to `target`. */
    method FindFromNode(target: Entry) returns (r: Option<Entry>)
      requires Valid()
      ensures r.None? <==> forall u :: !HasEdge(nodes, u, target.item.key)
      ensures r.Some? ==> HasEdge(nodes, r.value.item.key, target.item.key)
      ensures r.Some? ==>
                exists i :: 0 <= i < |keys| && keys[i] == r.value.item.key &&
                  forall k :: k in keys[..i] ==> !HasEdge(nodes, k, target.item.key)
    {
      for i := 0 to |keys|
        invariant forall k :: k in keys[..i] ==> !HasEdge(nodes, k, target.item.key)
      {
        assert keys[i] in Elements(keys);
        var node := nodes[keys[i]];
        for j := 0 to |node.next|
          invariant target.item.key !in node.next[..j]
        {
          if node.next[j] == target.item.key {
            assert HasEdge(nodes, keys[i], target.item.key);
            return Some(node);
          }
        }
      }
      forall u ensures !HasEdge(nodes, u, target.item.key) {
        if u in nodes {
          assert u in Elements(keys) && u in keys[..|keys|];
        }
      }
      return None;
    }

    /** Keeps exactly the nodes with an edge in or out, and every edge. */
    method RemoveNodesWithoutEdge()
      requires Valid()
      modifies this
      ensures Valid() && SameEdges(old(nodes), nodes)
      ensures forall k :: k in nodes <==> k in old(nodes) && Linked(old(nodes), k)
      ensures forall k :: k in nodes ==> nodes[k] == old(nodes)[k]
      ensures keys == LinkedKeys(old(nodes), old(keys))
    {
      var kept: map<Key, Entry>, keptKeys: seq<Key> := map[], [];
      for i := 0 to |keys|
        invariant nodes == old(nodes) && keys == old(keys) && KeptUpTo(nodes, keys, i, kept, keptKeys)
      {
        var k := keys[i];
        assert k in Elements(keys);
        var incoming := FindFromNode(nodes[k]);
        assert Linked(nodes, k) <==> nodes[k].next != [] || incoming.Some? by {
          assert nodes[k].next != [] ==> HasEdge(nodes, k, nodes[k].next[0]);
        }
        KeepNext(nodes, keys, i, kept, keptKeys);
        if nodes[k].next != [] || incoming.Some? {
          kept, keptKeys := kept[k := nodes[k]], keptKeys + [k];
        }
      }
      assert keys[..|keys|] == keys;
      assert forall k :: k in nodes <==> k in Elements(keys);
      KeepingLinked(nodes, kept);
      keys, nodes := keptKeys, kept;
    }

    method DepthFirstSearch(k: Key, s: Search, ghost g: map<Key, seq<Key>>) returns (r: Option<seq<Key>>)
      requires g == Next() && Closed(g) && k in nodes && k !in s.visited
      requires Ready(g, s.visited, s.path) && Follows(g, s.visited, s.path, k)
      modifies s
      ensures r.None? ==> Ready(g, s.visited, s.path) && s.path == old(s.path)
      ensures r.None? ==> old(s.visited) + {k} <= s.visited
      ensures r.Some? ==> Found(g, s.visited, old(s.path) + [k], s.path, r.value)
      decreases nodes.Keys - s.visited, 0
    {
      ghost var path := s.path;
      FollowsOn(g, s.visited, path, k);
      Push(g, s.visited, path, k);
      s.visited := s.visited + {k};
      s.path := s.path + [k];
      var next := nodes[k].next;
      assert next == g[k];
      for i := 0 to |next|
        invariant s.path == path + [k] && old(s.visited) + {k} <= s.visited && Searching(g, s.visited, path + [k], next[..i])
      {
        r := TryNext(k, i, s, g, path + [k]);
        if r.Some? {
          return;
        }
      }
      assert next[..|next|] == next;
      Pop(g, s.visited, path, k);
      s.path := s.path[..|s.path| - 1];
      return None;
    }

    /** One round of the loop over the next nodes of `k`. */
    method TryNext(k: Key, i: nat, s: Search, ghost g: map<Key, seq<Key>>, ghost path: seq<Key>) returns (r: Option<seq<Key>>)
      requires g == Next() && Closed(g) && k in nodes && i < |nodes[k].next|
      requires s.path == path && path != [] && path[|path| - 1] == k && Searching(g, s.visited, path, nodes[k].next[..i])
      modifies s
      ensures r.None? ==> s.path == path && old(s.visited) <= s.visited && Searching(g, s.visited, path, nodes[k].next[..i + 1])
      ensures r.Some? ==> Found(g, s.visited, path, s.path, r.value)
      decreases nodes.Keys - s.visited, 1
    {
      var node := nodes[k].next[i];
      assert nodes[k].next == g[k] && nodes[k].next[..i + 1] == nodes[k].next[..i] + [node];
      ExploredIsPast(g, s.visited, path, k, i);
      if node in s.path {
        var j :| 0 <= j < |s.path| && s.path[j] == node;
        FoundHere(g, s.visited, s.path, j);
        return Some(s.path[j..]);
      }
      if node !in s.visited {
        assert Edge(g, k, node);
        r := DepthFirstSearch(node, s, g);
        if r.Some? {
          FoundFurther(g, s.visited, path, node, s.path, r.value);
          return;
        }
        TrailPastMore(g, old(s.visited) - Elements(path), s.visited - Elements(path), path);
      }
      return None;
    }

    /**
     None exactly when the graph has no cycle; otherwise the texts of a simple cycle, in order: the one at the end of
     the leftmost trail from the first key that leads to a cycle.
     */
    method DetectCycle() returns (r: Option<seq<string>>, ghost path: seq<Key>, ghost trail: seq<Key>)
      requires Valid()
      ensures r.None? <==> Acyclic(Next())
      ensures r.Some? ==> IsDeadlock(Next(), path) && (forall k :: k in path ==> k in nodes)
      ensures r.Some? ==> r.value == TextsOf(nodes, path)
      ensures r.Some? ==> FoundFirst(Next(), keys, trail, path)
    {
      path, trail := [], [];
      var s := new Search();
      ghost var g := Next();
      assert Closed(g);
      for i := 0 to |keys|
        invariant Ready(g, s.visited, []) && s.path == [] && forall k :: k in keys[..i] ==> k in s.visited
      {
        var k := keys[i];
        assert k in Elements(keys);
        if k !in s.visited {
          ghost var before := s.visited;
          var cycle := DepthFirstSearch(k, s, g);
          if cycle.Some? {
            path, trail := cycle.value, s.path;
            ChainIsCycle(g, path);
            assert [] + [k] == [keys[i]];
            FoundIsFirst(g, before, s.visited, keys, i, trail, path);
            return Some(TextsOf(nodes, cycle.value)), path, trail;
          }
        }
      }
      AllFinishedIsAcyclic(g, s.visited);
      return None, path, trail;
    }
  }

  // ---------- The whole command ----------

  function KeyPairs(edges: seq<(Item, Item)>): set<(Key, Key)> {
    set e | e in edges :: (e.0.key, e.1.key)
  }

  /** The items in the order in which the command adds them: first the nodes, then the ends of the edges. */
  function Given(items: seq<Item>, edges: seq<(Item, Item)>): seq<Item> {
    if edges == [] then items
    else Given(items, edges[..|edges| - 1]) + [edges[|edges| - 1].0] + [edges[|edges| - 1].1]
  }

  /** The keys given, each where it was given first. */
  function KeysOf(given: seq<Item>): seq<Key> {
    if given == [] then [] else WithKey(KeysOf(given[..|given| - 1]), given[|given| - 1].key)
  }

  /** The nodes that `k` has edges to, each where its edge was given first. */
  function NextOf(edges: seq<(Item, Item)>, k: Key): seq<Key> {
    if edges == [] then []
    else NextAfter(NextOf(edges[..|edges| - 1], k), k == edges[|edges| - 1].0.key, edges[|edges| - 1].1.key)
  }

  lemma GivenStep(items: seq<Item>, edges: seq<(Item, Item)>, i: nat)
    requires i < |edges|
    ensures WithItems(Given(items, edges[..i + 1])) ==
            WithItem(WithItem(WithItems(Given(items, edges[..i])), edges[i].0), edges[i].1)
    ensures KeysOf(Given(items, edges[..i + 1])) == WithKey(WithKey(KeysOf(Given(items, edges[..i])), edges[i].0.key), edges[i].1.key)
  {
    var before := Given(items, edges[..i]);
    assert edges[..i + 1] == edges[..i] + [edges[i]] && edges[..i + 1][..i] == edges[..i];
    assert (before + [edges[i].0])[..|before|] == before;
    assert (before + [edges[i].0] + [edges[i].1])[..|before| + 1] == before + [edges[i].0];
  }

  ghost predicate IsCycleOf(pairs: set<(Key, Key)>, c: seq<Key>) {
    |c| >= 2 && c[0] == c[|c| - 1] && forall i :: 0 <= i < |c| - 1 ==> (c[i], c[i + 1]) in pairs
  }

  lemma CyclesOfPairs(g: map<Key, seq<Key>>, pairs: set<(Key, Key)>)
    requires forall u, v :: Edge(g, u, v) <==> (u, v) in pairs
    ensures forall c :: IsCycle(g, c) <==> IsCycleOf(pairs, c)
  {
  }

  lemma NoNodesNoCycle(g: map<Key, seq<Key>>)
    requires |g| == 0
    ensures Acyclic(g)
  {
    assert g.Keys == {};
    AllFinishedIsAcyclic(g, {});
  }

  /** Every edge given is in the graph, and no other, in the order given; each key has the first item given for it. */
  ghost predicate Collected(keys: seq<Key>, nodes: map<Key, Entry>, items: seq<Item>, edges: seq<(Item, Item)>) {
    && ItemsOf(nodes) == WithItems(Given(items, edges)) && keys == KeysOf(Given(items, edges))
    && (forall k :: NextIn(nodes, k) == NextOf(edges, k))
  }

  lemma NodeCollected(keys: seq<Key>, nodes: map<Key, Entry>, items: seq<Item>, i: nat, keys': seq<Key>, nodes': map<Key, Entry>)
    requires i < |items| && Collected(keys, nodes, items[..i], []) && keys' == WithKey(keys, items[i].key)
    requires nodes' == WithNode(nodes, items[i])
    ensures Collected(keys', nodes', items[..i + 1], [])
  {
    assert items[..i + 1][..i] == items[..i] && items[..i + 1][i] == items[i];
    assert ItemsOf(nodes') == WithItem(ItemsOf(nodes), items[i]);
  }

  lemma EdgeCollected(keys: seq<Key>, nodes: map<Key, Entry>, items: seq<Item>, edges: seq<(Item, Item)>, i: nat,
                      keys': seq<Key>, nodes': map<Key, Entry>)
    requires i < |edges| && Collected(keys, nodes, items, edges[..i])
    requires keys' == WithKey(WithKey(keys, edges[i].0.key), edges[i].1.key) && nodes'.Keys == nodes.Keys + {edges[i].0.key, edges[i].1.key}
    requires ItemsOf(nodes') == WithItem(WithItem(ItemsOf(nodes), edges[i].0), edges[i].1)
    requires forall k :: k in nodes' ==> nodes'[k].next == NextAfter(NextIn(nodes, k), k == edges[i].0.key, edges[i].1.key)
    ensures Collected(keys', nodes', items, edges[..i + 1])
  {
    GivenStep(items, edges, i);
    forall k ensures NextIn(nodes', k) == NextOf(edges[..i + 1], k) {
      NextStep(nodes, nodes', edges, i, k);
    }
  }

  lemma NextStep(nodes: map<Key, Entry>, nodes': map<Key, Entry>, edges: seq<(Item, Item)>, i: nat, k: Key)
    requires i < |edges| && NextIn(nodes, k) == NextOf(edges[..i], k)
    requires if k in nodes' then nodes'[k].next == NextAfter(NextIn(nodes, k), k == edges[i].0.key, edges[i].1.key)
             else k !in nodes && k != edges[i].0.key
    ensures NextIn(nodes', k) == NextOf(edges[..i + 1], k)
  {
    assert edges[..i + 1][..i] == edges[..i] && edges[..i + 1][i] == edges[i];
  }

  method CollectGraph(items: seq<Item>, edges: seq<(Item, Item)>) returns (graph: Graph)
    ensures fresh(graph) && graph.Valid() && Collected(graph.keys, graph.nodes, items, edges)
  {
    graph := new Graph();
    for i := 0 to |items|
      invariant fresh(graph) && graph.Valid() && Collected(graph.keys, graph.nodes, items[..i], [])
    {
      ghost var keys, nodes := graph.keys, graph.nodes;
      graph.AddNode(items[i]);
      NodeCollected(keys, nodes, items, i, graph.keys, graph.nodes);
    }
    assert items[..|items|] == items;
    for i := 0 to |edges|
      invariant fresh(graph) && graph.Valid() && Collected(graph.keys, graph.nodes, items, edges[..i])
    {
      ghost var keys, nodes := graph.keys, graph.nodes;
      graph.AddEdge(edges[i].0, edges[i].1);
      EdgeCollected(keys, nodes, items, edges, i, graph.keys, graph.nodes);
    }
    assert edges[..|edges|] == edges;
  }

  lemma {:induction false} NextOfMembers(edges: seq<(Item, Item)>, u: Key, v: Key)
    ensures v in NextOf(edges, u) <==> (u, v) in KeyPairs(edges)
  {
    if edges != [] {
      var front, last := edges[..|edges| - 1], edges[|edges| - 1];
      NextOfMembers(front, u, v);
      assert edges == front + [last];
      assert KeyPairs(edges) == KeyPairs(front) + {(last.0.key, last.1.key)};
    }
  }

  /** The edges collected are exactly the ones given. */
  lemma CollectedEdges(keys: seq<Key>, nodes: map<Key, Entry>, items: seq<Item>, edges: seq<(Item, Item)>)
    requires Collected(keys, nodes, items, edges)
    ensures forall u, v :: HasEdge(nodes, u, v) <==> (u, v) in KeyPairs(edges)
  {
    forall u, v ensures HasEdge(nodes, u, v) <==> (u, v) in KeyPairs(edges) {
      NextOfMembers(edges, u, v);
      assert NextIn(nodes, u) == NextOf(edges, u);
    }
  }

  /** `k` is an end of some edge. */
  ghost predicate IsEnd(edges: seq<(Item, Item)>, k: Key) {
    exists v :: (k, v) in KeyPairs(edges) || (v, k) in KeyPairs(edges)
  }

  /** The keys at the ends of edges, in the order given. */
  ghost function EndKeys(edges: seq<(Item, Item)>, keys: seq<Key>): seq<Key> {
    if keys == [] then []
    else EndKeys(edges, keys[..|keys| - 1]) + if IsEnd(edges, keys[|keys| - 1]) then [keys[|keys| - 1]] else []
  }

  lemma {:induction false} LinkedKeysAreEnds(nodes: map<Key, Entry>, keys: seq<Key>, edges: seq<(Item, Item)>)
    requires forall u, v :: HasEdge(nodes, u, v) <==> (u, v) in KeyPairs(edges)
    ensures LinkedKeys(nodes, keys) == EndKeys(edges, keys)
  {
    if keys != [] {
      LinkedKeysAreEnds(nodes, keys[..|keys| - 1], edges);
      assert Linked(nodes, keys[|keys| - 1]) <==> IsEnd(edges, keys[|keys| - 1]);
    }
  }

  /** The graph that is searched: the edges given, in order, between the keys at their ends. */
  ghost predicate Prepared(keys: seq<Key>, nodes: map<Key, Entry>, items: seq<Item>, edges: seq<(Item, Item)>) {
    && keys == EndKeys(edges, KeysOf(Given(items, edges)))
    && (forall k :: k in nodes ==> nodes[k].next == NextOf(edges, k) && IsTextOf(Given(items, edges), k, nodes[k].item.text))
    && (forall u, v :: HasEdge(nodes, u, v) <==> (u, v) in KeyPairs(edges))
  }

  lemma CollectedIsPrepared(keys: seq<Key>, nodes: map<Key, Entry>, items: seq<Item>, edges: seq<(Item, Item)>,
                            keys': seq<Key>, nodes': map<Key, Entry>)
    requires Collected(keys, nodes, items, edges) && keys' == LinkedKeys(nodes, keys) && SameEdges(nodes, nodes')
    requires forall k :: k in nodes' ==> k in nodes && nodes'[k] == nodes[k]
    ensures Prepared(keys', nodes', items, edges)
  {
    CollectedEdges(keys, nodes, items, edges);
    LinkedKeysAreEnds(nodes, keys, edges);
    forall k | k in nodes' ensures nodes'[k].next == NextOf(edges, k) && IsTextOf(Given(items, edges), k, nodes'[k].item.text) {
      FirstItemKept(Given(items, edges), k);
      assert k in ItemsOf(nodes) && NextIn(nodes, k) == NextOf(edges, k);
    }
  }

  method PrepareGraph(items: seq<Item>, edges: seq<(Item, Item)>) returns (graph: Graph)
    ensures fresh(graph) && graph.Valid() && Prepared(graph.keys, graph.nodes, items, edges)
  {
    graph := CollectGraph(items, edges);
    ghost var keys, nodes := graph.keys, graph.nodes;
    graph.RemoveNodesWithoutEdge();
    CollectedIsPrepared(keys, nodes, items, edges, graph.keys, graph.nodes);
  }

  /**
   Collects the waits-for edges, drops isolated nodes and looks for a deadlock among the edges given. The report
   names each node of the cycle by the text of the first item given with its key; it is the cycle at the end of the
   leftmost trail, going by the order in which keys and edges were given.
   */
  method WaitsForGraph(items: seq<Item>, edges: seq<(Item, Item)>)
    returns (r: Option<seq<string>>, ghost path: seq<Key>, ghost g: map<Key, seq<Key>>, ghost trail: seq<Key>)
    ensures r.None? <==> forall c :: !IsCycleOf(KeyPairs(edges), c)
    ensures r.Some? ==> path != [] && NoDuplicates(path) && IsCycleOf(KeyPairs(edges), path + [path[0]])
    ensures r.Some? ==> |r.value| == |path| && forall i :: 0 <= i < |path| ==> IsTextOf(Given(items, edges), path[i], r.value[i])
    ensures forall k :: k in g ==> g[k] == NextOf(edges, k)
    ensures r.Some? ==> FoundFirst(g, EndKeys(edges, KeysOf(Given(items, edges))), trail, path)
  {
    var graph := PrepareGraph(items, edges);
    g, trail := graph.Next(), [];
    PreparedCycles(graph.nodes, g, edges);
    if |graph.nodes| == 0 {
      NoNodesNoCycle(g);
      return None, [], g, trail;
    }
    r, path, trail := graph.DetectCycle();
    if r.Some? {
      ChainIsCycle(g, path);
    }
  }

  lemma PreparedCycles(nodes: map<Key, Entry>, g: map<Key, seq<Key>>, edges: seq<(Item, Item)>)
    requires g.Keys == nodes.Keys && forall k :: k in g ==> g[k] == nodes[k].next
    requires forall u, v :: HasEdge(nodes, u, v) <==> (u, v) in KeyPairs(edges)
    ensures forall c :: IsCycle(g, c) <==> IsCycleOf(KeyPairs(edges), c)
  {
    forall u, v ensures Edge(g, u, v) <==> (u, v) in KeyPairs(edges) {
      assert Edge(g, u, v) <==> HasEdge(nodes, u, v);
    }
    CyclesOfPairs(g, KeyPairs(edges));
  }
}
