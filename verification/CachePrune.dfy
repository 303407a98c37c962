/** The LRU pruner of the SCons cache, buildscripts/scons_cache_prune.py. */
module CachePrune {
  import opened Sequences

  datatype CacheItem = CacheItem(path: string, time: real, size: nat)

  /** How deleting one file ends: the rename or the removal may fail. */
  datatype Attempt = RenameFailed | RemoveFailed | Removed

  datatype Deletion = Deletion(item: CacheItem, outcome: Attempt)

  const GIGBYTES: int := 1024 * 1024 * 1024

  function Size(items: seq<CacheItem>): nat {
    if items == [] then 0 else Size(items[..|items| - 1]) + items[|items| - 1].size
  }

  /** The bytes that the deletions freed. */
  function Freed(log: seq<Deletion>): nat {
    if log == [] then 0
    else Freed(log[..|log| - 1]) + if log[|log| - 1].outcome.Removed? then log[|log| - 1].item.size else 0
  }

  function Items(log: seq<Deletion>): (r: seq<CacheItem>)
    ensures |r| == |log| && forall i :: 0 <= i < |r| ==> r[i] == log[i].item
  {
    seq(|log|, i requires 0 <= i < |log| => log[i].item)
  }

  /** contents.sort(key=time, reverse=True): latest first; equal times keep their order. */
  function LatestFirst(items: seq<CacheItem>): seq<CacheItem> {
    if items == [] then [] else Place(items[0], LatestFirst(items[1..]))
  }

  function Place(x: CacheItem, sorted: seq<CacheItem>): seq<CacheItem> {
    if sorted == [] || sorted[0].time <= x.time then [x] + sorted else [sorted[0]] + Place(x, sorted[1..])
  }

  ghost predicate FallingTimes(items: seq<CacheItem>) {
    forall i, j :: 0 <= i < j < |items| ==> items[i].time >= items[j].time
  }

  lemma {:induction false} PlacePermutes(x: CacheItem, sorted: seq<CacheItem>)
    ensures multiset(Place(x, sorted)) == multiset{x} + multiset(sorted)
  {
    if sorted != [] && !(sorted[0].time <= x.time) {
      PlacePermutes(x, sorted[1..]);
      assert sorted == [sorted[0]] + sorted[1..];
    }
  }

  lemma {:induction false} PlaceSorts(x: CacheItem, sorted: seq<CacheItem>)
    requires FallingTimes(sorted)
    ensures FallingTimes(Place(x, sorted))
  {
    if sorted != [] && !(sorted[0].time <= x.time) {
      PlaceSorts(x, sorted[1..]);
      forall j | 0 <= j < |Place(x, sorted[1..])| ensures sorted[0].time >= Place(x, sorted[1..])[j].time {
        PlaceMembers(x, sorted[1..], Place(x, sorted[1..])[j]);
      }
    }
  }

  lemma PlaceMembers(x: CacheItem, sorted: seq<CacheItem>, y: CacheItem)
    requires y in Place(x, sorted)
    ensures y == x || y in sorted
  {
    PlacePermutes(x, sorted);
    assert y in multiset(Place(x, sorted));
  }

  lemma {:induction false} LatestFirstSorts(items: seq<CacheItem>)
    ensures FallingTimes(LatestFirst(items)) && multiset(LatestFirst(items)) == multiset(items)
  {
    if items != [] {
      LatestFirstSorts(items[1..]);
      PlaceSorts(items[0], LatestFirst(items[1..]));
      PlacePermutes(items[0], LatestFirst(items[1..]));
      assert items == [items[0]] + items[1..];
    }
  }

  lemma {:induction false} SizeConcat(a: seq<CacheItem>, b: seq<CacheItem>)
    ensures Size(a + b) == Size(a) + Size(b)
  {
    if b == [] {
      assert a + b == a;
    } else {
      SizeConcat(a, b[..|b| - 1]);
      assert (a + b)[..|a + b| - 1] == a + b[..|b| - 1];
    }
  }

  lemma {:induction false} SizePermutes(a: seq<CacheItem>, b: seq<CacheItem>)
    requires multiset(a) == multiset(b)
    ensures Size(a) == Size(b)
  {
    if a == [] {
      assert |b| == |multiset(b)| == 0;
    } else {
      assert a[0] in multiset(b);
      var k :| 0 <= k < |b| && b[k] == a[0];
      SameWithout(a, 0, b, k);
      SizePermutes(Without(a, 0), Without(b, k));
      SizeWithout(a, 0);
      SizeWithout(b, k);
    }
  }

  lemma {:induction false} SizeWithout(s: seq<CacheItem>, k: nat)
    requires k < |s|
    ensures Size(s) == Size(Without(s, k)) + s[k].size
  {
    var a, b := s[..k], s[k + 1..];
    SizeConcat(a, b);
    SizeConcat(a + [s[k]], b);
    SizeConcat(a, [s[k]]);
    assert Size([s[k]]) == Size([]) + s[k].size;
    assert s == a + [s[k]] + b;
  }

  /** If every deletion succeeded, they freed the size of their files. */
  lemma {:induction false} AllFreed(log: seq<Deletion>)
    requires forall i :: 0 <= i < |log| ==> log[i].outcome.Removed?
    ensures Freed(log) == Size(Items(log))
  {
    if log != [] {
      AllFreed(log[..|log| - 1]);
      assert Items(log)[..|log| - 1] == Items(log[..|log| - 1]);
    }
  }

  /** The sorted contents, last to first, up to the point reached: the files tried, in order. */
  ghost predicate TriedFromTheEnd(sorted: seq<CacheItem>, left: seq<CacheItem>, log: seq<Deletion>) {
    && |left| + |log| == |sorted| && left <= sorted
    && forall i :: 0 <= i < |log| ==> log[i].item == sorted[|sorted| - 1 - i]
  }

  lemma {:induction false} ReversedPermutes<T>(s: seq<T>)
    ensures multiset(Reversed(s)) == multiset(s)
  {
    if s != [] {
      ReversedPermutes(s[1..]);
      assert s == [s[0]] + s[1..];
    }
  }

  lemma TriedPartition(contents: seq<CacheItem>, sorted: seq<CacheItem>, left: seq<CacheItem>, log: seq<Deletion>)
    requires TriedFromTheEnd(sorted, left, log) && multiset(sorted) == multiset(contents)
    ensures multiset(left) + multiset(Items(log)) == multiset(contents)
  {
    var tail := sorted[|left|..];
    ReversedAt(tail);
    ReversedPermutes(tail);
    assert Items(log) == Reversed(tail);
    assert sorted == left + tail;
  }

  lemma TriedAreOldest(sorted: seq<CacheItem>, left: seq<CacheItem>, log: seq<Deletion>, i: nat, x: CacheItem)
    requires TriedFromTheEnd(sorted, left, log) && FallingTimes(sorted) && i < |log| && x in left
    ensures log[i].item.time <= x.time
  {
  }

  /** If every file was tried and every deletion succeeded, nothing is left. */
  lemma {:induction false} TriedAll(contents: seq<CacheItem>, log: seq<Deletion>)
    requires multiset(Items(log)) == multiset(contents) && forall i :: 0 <= i < |log| ==> log[i].outcome.Removed?
    ensures Freed(log) == Size(contents)
  {
    AllFreed(log);
    SizePermutes(Items(log), contents);
  }

  /** With a positive target, trying every file in vain means that some deletion failed. */
  lemma {:induction false} SomeFailed(contents: seq<CacheItem>, target: real, log: seq<Deletion>)
    requires multiset([]) + multiset(Items(log)) == multiset(contents)
    requires target > 0.0 && (Size(contents) - Freed(log)) as real >= target
    ensures SomeKept(log)
  {
    if forall i :: 0 <= i < |log| ==> log[i].outcome.Removed? {
      TriedAll(contents, log);
      assert false;
    }
  }

  // ---------- Pruning ----------

  /** Every deletion was started with the total still at or above the target. */
  ghost predicate EachNeeded(total: int, target: real, log: seq<Deletion>) {
    log != [] ==>
      var before := log[..|log| - 1];
      EachNeeded(total, target, before) && (total - Freed(before)) as real >= target
  }

  lemma OneMore(total: int, target: real, log: seq<Deletion>, d: Deletion)
    requires EachNeeded(total, target, log) && (total - Freed(log)) as real >= target
    ensures EachNeeded(total, target, log + [d])
    ensures Freed(log + [d]) == Freed(log) + if d.outcome.Removed? then d.item.size else 0
  {
  }

  /** What holds whenever the loop tests its condition. */
  ghost predicate Trimming(sorted: seq<CacheItem>, total: int, target: real, outcomes: nat -> Attempt,
                           totalSize: int, left: seq<CacheItem>, log: seq<Deletion>) {
    && TriedFromTheEnd(sorted, left, log) && totalSize == total - Freed(log) && EachNeeded(total, target, log)
    && (forall i :: 0 <= i < |log| ==> log[i].outcome == outcomes(i))
    && (log != [] && !log[|log| - 1].outcome.Removed? ==> totalSize as real >= target)
  }

  /** One round: the oldest file left is tried. */
  lemma TrimStep(sorted: seq<CacheItem>, total: int, target: real, outcomes: nat -> Attempt,
                 totalSize: int, left: seq<CacheItem>, log: seq<Deletion>)
    requires Trimming(sorted, total, target, outcomes, totalSize, left, log) && totalSize as real >= target && left != []
    ensures var d := Deletion(left[|left| - 1], outcomes(|log|));
            Trimming(sorted, total, target, outcomes, totalSize - (if d.outcome.Removed? then d.item.size else 0),
                     left[..|left| - 1], log + [d])
  {
    OneMore(total, target, log, Deletion(left[|left| - 1], outcomes(|log|)));
  }

  /** `outcomes(k)` is how the k-th deletion ends. `left` are the files not tried, `log` the deletions in order. */
  method Trim(sorted: seq<CacheItem>, total: int, target: real, outcomes: nat -> Attempt)
    returns (ok: bool, totalSize: int, left: seq<CacheItem>, log: seq<Deletion>)
    ensures TriedFromTheEnd(sorted, left, log) && totalSize == total - Freed(log)
    ensures forall i :: 0 <= i < |log| ==> log[i].outcome == outcomes(i)
    ensures EachNeeded(total, target, log)
    ensures ok <==> totalSize as real < target
    ensures ok && log != [] ==> log[|log| - 1].outcome.Removed?
    ensures !ok ==> left == []
  {
    totalSize, left, log := total, sorted, [];
    while totalSize as real >= target
      invariant Trimming(sorted, total, target, outcomes, totalSize, left, log)
      decreases |left|
    {
      if left == [] {
        return false, totalSize, left, log;
      }
      TrimStep(sorted, total, target, outcomes, totalSize, left, log);
      var item, outcome := left[|left| - 1], outcomes(|log|);
      left, log := left[..|left| - 1], log + [Deletion(item, outcome)];
      if outcome.Removed? {
        totalSize := totalSize - item.size;
      }
    }
    ok := true;
  }

  /** Trims the contents to the target; the oldest files are tried first. */
  method TrimOldest(contents: seq<CacheItem>, target: real, outcomes: nat -> Attempt)
    returns (ok: bool, totalSize: int, left: seq<CacheItem>, log: seq<Deletion>)
    ensures totalSize == Size(contents) - Freed(log) && multiset(left) + multiset(Items(log)) == multiset(contents)
    ensures forall i, x :: 0 <= i < |log| && x in left ==> log[i].item.time <= x.time
    ensures forall i :: 0 <= i < |log| ==> log[i].outcome == outcomes(i)
    ensures EachNeeded(Size(contents), target, log)
    ensures ok && log != [] ==> log[|log| - 1].outcome.Removed?
    ensures ok <==> totalSize as real < target
    ensures !ok ==> left == [] && (target > 0.0 ==> SomeKept(log))
    ensures TriedFromTheEnd(LatestFirst(contents), left, log)
  {
    var sorted := LatestFirst(contents);
    LatestFirstSorts(contents);
    ok, totalSize, left, log := Trim(sorted, Size(contents), target, outcomes);
    TriedPartition(contents, sorted, left, log);
    forall i, x | 0 <= i < |log| && x in left ensures log[i].item.time <= x.time {
      TriedAreOldest(sorted, left, log, i, x);
    }
    if !ok && target > 0.0 {
      SomeFailed(contents, target, log);
    }
  }

  /** Some file could not be deleted. */
  ghost predicate SomeKept(log: seq<Deletion>) {
    exists i :: 0 <= i < |log| && !log[i].outcome.Removed?
  }

  /** The cache is trimmed if its size reaches the quota, until the size is below the quota times the ratio. */
  method PruneCache(contents: seq<CacheItem>, cacheSizeGb: int, cleanRatio: real, outcomes: nat -> Attempt)
    returns (ok: bool, totalSize: int, left: seq<CacheItem>, log: seq<Deletion>, ghost target: real)
    ensures target == (cacheSizeGb * 1073741824) as real * cleanRatio
    ensures totalSize == Size(contents) - Freed(log) && multiset(left) + multiset(Items(log)) == multiset(contents)
    ensures Size(contents) < cacheSizeGb * 1073741824 ==> ok && log == []
    ensures forall i, x :: 0 <= i < |log| && x in left ==> log[i].item.time <= x.time
    ensures forall i :: 0 <= i < |log| ==> log[i].outcome == outcomes(i)
    ensures EachNeeded(Size(contents), target, log)
    ensures ok && log != [] ==> log[|log| - 1].outcome.Removed?
    ensures Size(contents) >= cacheSizeGb * 1073741824 ==> (ok <==> totalSize as real < target)
    ensures !ok ==> left == [] && (target > 0.0 ==> SomeKept(log))
    ensures Size(contents) >= cacheSizeGb * 1073741824 ==> TriedFromTheEnd(LatestFirst(contents), left, log)
  {
    var cacheSize := cacheSizeGb * GIGBYTES;
    assert cacheSize == cacheSizeGb * 1073741824;
    target := cacheSize as real * cleanRatio;
    totalSize := Size(contents);
    if totalSize < cacheSize {
      return true, totalSize, contents, [], target;
    }
    ok, totalSize, left, log := TrimOldest(contents, cacheSize as real * cleanRatio, outcomes);
  }

  // ---------- Files of the same age ----------

  function AtTime(items: seq<CacheItem>, time: real): seq<CacheItem> {
    if items == [] then [] else (if items[0].time == time then [items[0]] else []) + AtTime(items[1..], time)
  }

  lemma {:induction false} PlaceIsStable(x: CacheItem, sorted: seq<CacheItem>, time: real)
    ensures AtTime(Place(x, sorted), time) == (if x.time == time then [x] else []) + AtTime(sorted, time)
  {
    if sorted == [] || sorted[0].time <= x.time {
      assert ([x] + sorted)[1..] == sorted;
    } else {
      PlaceIsStable(x, sorted[1..], time);
      assert Place(x, sorted)[1..] == Place(x, sorted[1..]);
      var rest := AtTime(sorted[1..], time);
      assert x.time == time ==> AtTime(sorted, time) == [] + rest == rest;
    }
  }

  /** Files with the same access time stay in the order in which they were collected, so the later ones are tried first. */
  lemma {:induction false} LatestFirstIsStable(items: seq<CacheItem>, time: real)
    ensures AtTime(LatestFirst(items), time) == AtTime(items, time)
  {
    if items != [] {
      LatestFirstIsStable(items[1..], time);
      PlaceIsStable(items[0], LatestFirst(items[1..]), time);
    }
  }
}
