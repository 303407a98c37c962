/** Sequence vocabulary shared by the models. */
module Sequences {

  datatype Option<+T> = None | Some(value: T)

  ghost predicate NoDuplicates<T>(s: seq<T>) {
    forall i, j :: 0 <= i < j < |s| ==> s[i] != s[j]
  }

  ghost function Elements<T>(s: seq<T>): set<T> {
    set x | x in s
  }

  function Reversed<T>(s: seq<T>): seq<T> {
    if s == [] then [] else Reversed(s[1..]) + [s[0]]
  }

  lemma {:induction false} ReversedAt<T>(s: seq<T>)
    ensures |Reversed(s)| == |s|
    ensures forall i :: 0 <= i < |s| ==> Reversed(s)[i] == s[|s| - 1 - i]
    ensures forall x :: x in Reversed(s) <==> x in s
  {
    if s != [] {
      ReversedAt(s[1..]);
    }
  }

  /** A sequence with one element taken out of the middle. */
  function Without<T>(s: seq<T>, k: nat): seq<T>
    requires k < |s|
  {
    s[..k] + s[k + 1..]
  }

  lemma MultisetWithout<T>(s: seq<T>, k: nat)
    requires k < |s|
    ensures multiset(s) == multiset(Without(s, k)) + multiset{s[k]}
  {
    assert s == s[..k] + [s[k]] + s[k + 1..];
  }

  lemma SameWithout<T>(a: seq<T>, i: nat, b: seq<T>, j: nat)
    requires multiset(a) == multiset(b) && i < |a| && j < |b| && a[i] == b[j]
    ensures multiset(Without(a, i)) == multiset(Without(b, j))
  {
    MultisetWithout(a, i);
    MultisetWithout(b, j);
    assert multiset(Without(a, i)) == multiset(a) - multiset{a[i]};
    assert multiset(Without(b, j)) == multiset(b) - multiset{b[j]};
  }

  lemma ConcatAssociates<T>(a: seq<T>, b: seq<T>, c: seq<T>)
    ensures a + (b + c) == (a + b) + c
  {
  }

  function Flatten<T>(ss: seq<seq<T>>): seq<T> {
    if ss == [] then [] else ss[0] + Flatten(ss[1..])
  }

  lemma {:induction false} FlattenConcat<T>(a: seq<seq<T>>, b: seq<seq<T>>)
    ensures Flatten(a + b) == Flatten(a) + Flatten(b)
  {
    if a == [] {
      assert a + b == b;
    } else {
      FlattenConcat(a[1..], b);
      assert (a + b)[0] == a[0] && (a + b)[1..] == a[1..] + b;
      ConcatAssociates(a[0], Flatten(a[1..]), Flatten(b));
    }
  }

  ghost predicate SortedBy<T>(le: (T, T) -> bool, s: seq<T>) {
    forall i, j :: 0 <= i < j < |s| ==> le(s[i], s[j])
  }

  /** A sorted arrangement is unique where the order is antisymmetric. */
  lemma {:induction false} SortedIsUnique<T>(le: (T, T) -> bool, a: seq<T>, b: seq<T>)
    requires multiset(a) == multiset(b) && SortedBy(le, a) && SortedBy(le, b)
    requires forall x, y :: x in a && y in a && le(x, y) && le(y, x) ==> x == y
    ensures a == b
  {
    if a == [] {
      assert |b| == |multiset(b)| == 0;
    } else {
      SortedHeadsAgree(le, a, b);
      SameWithout(a, 0, b, 0);
      assert Without(a, 0) == a[1..] && Without(b, 0) == b[1..];
      SortedIsUnique(le, a[1..], b[1..]);
    }
  }

  lemma SortedHeadsAgree<T>(le: (T, T) -> bool, a: seq<T>, b: seq<T>)
    requires a != [] && multiset(a) == multiset(b) && SortedBy(le, a) && SortedBy(le, b)
    requires forall x, y :: x in a && y in a && le(x, y) && le(y, x) ==> x == y
    ensures b != [] && a[0] == b[0]
  {
    assert a[0] in multiset(b);
    var i :| 0 <= i < |b| && b[i] == a[0];
    assert b[0] in multiset(a);
    var j :| 0 <= j < |a| && a[j] == b[0];
    assert j > 0 ==> le(a[0], a[j]);
    assert i > 0 ==> le(b[0], b[i]);
  }

  // ---------- Mapping each element to a sequence ----------

  function FlatMap<A, B>(f: A -> seq<B>, s: seq<A>): seq<B> {
    if s == [] then [] else f(s[0]) + FlatMap(f, s[1..])
  }

  lemma {:induction false} FlatMapConcat<A, B>(f: A -> seq<B>, a: seq<A>, b: seq<A>)
    ensures FlatMap(f, a + b) == FlatMap(f, a) + FlatMap(f, b)
  {
    if a == [] {
      assert a + b == b;
    } else {
      FlatMapConcat(f, a[1..], b);
      assert (a + b)[0] == a[0] && (a + b)[1..] == a[1..] + b;
      ConcatAssociates(f(a[0]), FlatMap(f, a[1..]), FlatMap(f, b));
    }
  }

  lemma {:induction false} FlatMapWithout<A, B>(f: A -> seq<B>, s: seq<A>, k: nat)
    requires k < |s|
    ensures multiset(FlatMap(f, s)) == multiset(FlatMap(f, Without(s, k))) + multiset(f(s[k]))
  {
    FlatMapConcat(f, s[..k], s[k + 1..]);
    FlatMapConcat(f, s[..k], s[k..]);
    assert s == s[..k] + s[k..] && s[k..][1..] == s[k + 1..];
  }

  /** Permuting the argument permutes the result. */
  lemma {:induction false} FlatMapPermute<A, B>(f: A -> seq<B>, a: seq<A>, b: seq<A>)
    requires multiset(a) == multiset(b)
    ensures multiset(FlatMap(f, a)) == multiset(FlatMap(f, b))
  {
    if a == [] {
      assert |b| == |multiset(b)| == 0;
    } else {
      assert a[0] in multiset(b);
      var k :| 0 <= k < |b| && b[k] == a[0];
      SameWithout(a, 0, b, k);
      FlatMapPermute(f, Without(a, 0), Without(b, k));
      FlatMapWithout(f, a, 0);
      FlatMapWithout(f, b, k);
    }
  }
}
