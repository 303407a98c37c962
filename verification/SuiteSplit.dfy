/**
 What divide_tests_into_suites of buildscripts/evergreen_generate_resmoke_tasks.py computes: greedy
 packing in the given order, and a round-robin deal of whatever the limit on suites leaves over.
 */
module SuiteSplit {
  import opened Sequences

  datatype Test = Test(name: string, runtime: real)

  /** max_tests_per_suite and max_suites are off when 0, as None and 0 are in the source. */
  datatype Caps = Caps(maxTime: real, maxTests: int, maxSuites: int)

  function Total(tests: seq<Test>): real {
    if tests == [] then 0.0 else Total(tests[..|tests| - 1]) + tests[|tests| - 1].runtime
  }

  predicate NewSuiteNeeded(suite: seq<Test>, t: Test, caps: Caps) {
    Total(suite) + t.runtime > caps.maxTime || (caps.maxTests != 0 && |suite| + 1 > caps.maxTests)
  }

  /** The suites made from a suite being filled and the tests still to come, with no limit on suites. */
  function Pack(current: seq<Test>, rest: seq<Test>, caps: Caps): seq<seq<Test>>
    decreases |rest|
  {
    if rest == [] then
      if current == [] then [] else [current]
    else if current != [] && NewSuiteNeeded(current, rest[0], caps) then
      [current] + Pack([rest[0]], rest[1..], caps)
    else
      Pack(current + [rest[0]], rest[1..], caps)
  }

  /** The round robin: each test to the next suite, starting at suite `i`. */
  function Deal(suites: seq<seq<Test>>, tests: seq<Test>, i: nat): (r: seq<seq<Test>>)
    requires i < |suites|
    ensures |r| == |suites|
    decreases |tests|
  {
    if tests == [] then suites
    else Deal(suites[i := suites[i] + [tests[0]]], tests[1..], if i + 1 >= |suites| then 0 else i + 1)
  }

  /** The limit a non-zero max_suites sets: it is looked at only once a suite has been closed. */
  function Limit(caps: Caps): (k: nat)
    ensures k >= 1 && (k == caps.maxSuites || (caps.maxSuites < 1 && k == 1))
  {
    if caps.maxSuites < 1 then 1 else caps.maxSuites
  }

  predicate Overflows(tests: seq<Test>, caps: Caps) {
    caps.maxSuites != 0 && |Pack([], tests, caps)| > Limit(caps)
  }

  function Divide(tests: seq<Test>, caps: Caps): seq<seq<Test>> {
    var packed, k := Pack([], tests, caps), Limit(caps);
    if Overflows(tests, caps) then Deal(packed[..k], Flatten(packed[k..]), 0) else packed
  }

  // ---------- Packing ----------

  /** Within the count cap, and within the time cap unless it is a single test. */
  ghost predicate Fits(suite: seq<Test>, caps: Caps) {
    && (|suite| <= 1 || Total(suite) <= caps.maxTime)
    && (|suite| <= 1 || caps.maxTests == 0 || |suite| <= caps.maxTests)
  }

  /** An order-preserving split of `tests` into suites that fit. */
  ghost predicate IsSplit(split: seq<seq<Test>>, tests: seq<Test>, caps: Caps) {
    Flatten(split) == tests && forall i :: 0 <= i < |split| ==> Fits(split[i], caps)
  }

  lemma {:induction false} PackKeepsOrder(current: seq<Test>, rest: seq<Test>, caps: Caps)
    ensures Flatten(Pack(current, rest, caps)) == current + rest
    decreases |rest|
  {
    if rest == [] {
      assert Flatten([current]) == current + Flatten([]);
    } else {
      assert rest == [rest[0]] + rest[1..];
      if current != [] && NewSuiteNeeded(current, rest[0], caps) {
        var packed := Pack([rest[0]], rest[1..], caps);
        PackKeepsOrder([rest[0]], rest[1..], caps);
        assert ([current] + packed)[1..] == packed;
      } else {
        PackKeepsOrder(current + [rest[0]], rest[1..], caps);
        assert current + [rest[0]] + rest[1..] == current + rest;
      }
    }
  }

  lemma {:induction false} PackFits(current: seq<Test>, rest: seq<Test>, caps: Caps)
    requires Fits(current, caps)
    ensures forall s :: s in Pack(current, rest, caps) ==> s != [] && Fits(s, caps)
    decreases |rest|
  {
    if rest != [] {
      if current != [] && NewSuiteNeeded(current, rest[0], caps) {
        PackFits([rest[0]], rest[1..], caps);
      } else {
        assert (current + [rest[0]])[..|current|] == current;
        PackFits(current + [rest[0]], rest[1..], caps);
      }
    }
  }

  lemma PackIsSplit(tests: seq<Test>, caps: Caps)
    ensures IsSplit(Pack([], tests, caps), tests, caps)
    ensures forall s :: s in Pack([], tests, caps) ==> s != []
  {
    PackKeepsOrder([], tests, caps);
    PackFits([], tests, caps);
    assert [] + tests == tests;
  }

  /** Closing suite number Limit with tests left over: the rest is what Divide deals out. */
  lemma {:induction false} LimitHit(tests: seq<Test>, caps: Caps, done: seq<seq<Test>>, t: Test, rest: seq<Test>)
    requires caps.maxSuites != 0 && |done| == Limit(caps) && done + Pack([t], rest, caps) == Pack([], tests, caps)
    ensures Overflows(tests, caps) && Divide(tests, caps) == Deal(done, [t] + rest, 0)
  {
    PackKeepsOrder([t], rest, caps);
    assert Pack([t], rest, caps) != [];
    var packed := Pack([], tests, caps);
    assert packed[..|done|] == done && packed[|done|..] == Pack([t], rest, caps);
  }

  // ---------- Greedy is optimal ----------

  ghost predicate NonNegative(tests: seq<Test>) {
    forall i :: 0 <= i < |tests| ==> tests[i].runtime >= 0.0
  }

  lemma {:induction false} TotalAppend(a: seq<Test>, b: seq<Test>)
    ensures Total(a + b) == Total(a) + Total(b)
  {
    if b == [] {
      assert a + b == a;
    } else {
      TotalAppend(a, b[..|b| - 1]);
      assert (a + b)[..|a + b| - 1] == a + b[..|b| - 1];
    }
  }

  lemma {:induction false} TotalNonNegative(tests: seq<Test>)
    requires NonNegative(tests)
    ensures Total(tests) >= 0.0
  {
    if tests != [] {
      TotalNonNegative(tests[..|tests| - 1]);
    }
  }

  /** With non-negative runtimes, a stretch of a suite that fits also fits. */
  lemma PartFits(suite: seq<Test>, lo: nat, hi: nat, caps: Caps)
    requires NonNegative(suite) && Fits(suite, caps) && lo <= hi <= |suite|
    ensures Fits(suite[lo..hi], caps)
  {
    assert suite == suite[..lo] + (suite[lo..hi] + suite[hi..]);
    TotalAppend(suite[..lo], suite[lo..hi] + suite[hi..]);
    TotalAppend(suite[lo..hi], suite[hi..]);
    TotalNonNegative(suite[..lo]);
    TotalNonNegative(suite[hi..]);
  }

  /** The split left after taking `k` tests off the front. */
  ghost function Drop(split: seq<seq<Test>>, k: nat): seq<seq<Test>> {
    if split == [] then []
    else if k >= |split[0]| then Drop(split[1..], k - |split[0]|)
    else [split[0][k..]] + split[1..]
  }

  lemma {:induction false} DropIsSplit(split: seq<seq<Test>>, tests: seq<Test>, k: nat, caps: Caps)
    requires IsSplit(split, tests, caps) && NonNegative(tests) && k <= |tests|
    ensures IsSplit(Drop(split, k), tests[k..], caps) && |Drop(split, k)| <= |split|
    ensures split != [] && k >= |split[0]| ==> |Drop(split, k)| < |split|
  {
    if split != [] {
      var head, tail := split[0], split[1..];
      assert tests[..|head|] == head && tests[|head|..] == Flatten(tail);
      if k >= |head| {
        DropIsSplit(tail, Flatten(tail), k - |head|, caps);
        assert tests[k..] == Flatten(tail)[k - |head|..];
      } else {
        PartFits(head, k, |head|, caps);
        assert head[k..|head|] == head[k..];
        assert tests[k..] == head[k..] + Flatten(tail);
        assert Flatten([head[k..]] + tail) == head[k..] + Flatten(tail);
      }
    }
  }

  /** Greedy stays ahead: no split of the same tests, in the same order, uses fewer suites. */
  lemma {:induction false} PackIsMinimal(current: seq<Test>, rest: seq<Test>, caps: Caps, split: seq<seq<Test>>)
    requires NonNegative(current + rest)
    requires IsSplit(split, current + rest, caps)
    ensures |Pack(current, rest, caps)| <= |split|
    decreases |rest|
  {
    var tests := current + rest;
    if tests == [] {
    } else if rest == [] {
      assert split != [];
    } else if current != [] && NewSuiteNeeded(current, rest[0], caps) {
      FirstSuiteIsShort(current, rest, caps, split);
      DropIsSplit(split, tests, |current|, caps);
      assert tests[|current|..] == rest == [rest[0]] + rest[1..];
      PackIsMinimal([rest[0]], rest[1..], caps, Drop(split, |current|));
    } else {
      assert (current + [rest[0]]) + rest[1..] == tests;
      PackIsMinimal(current + [rest[0]], rest[1..], caps, split);
    }
  }

  /** Where greedy closes a suite, any split's first suite ends no later. */
  lemma FirstSuiteIsShort(current: seq<Test>, rest: seq<Test>, caps: Caps, split: seq<seq<Test>>)
    requires NonNegative(current + rest)
    requires IsSplit(split, current + rest, caps)
    requires current != [] && rest != [] && NewSuiteNeeded(current, rest[0], caps)
    ensures split != [] && |split[0]| <= |current|
  {
    var tests, k := current + rest, |current| + 1;
    assert split != [];
    var head := split[0];
    if |head| > |current| {
      assert tests[..|head|] == head;
      assert head[0..k] == current + [rest[0]] && (current + [rest[0]])[..|current|] == current;
      PartFits(head, 0, k, caps);
      assert false;
    }
  }

  // ---------- Dealing ----------

  /** Every K-th test, starting with test `k`. */
  ghost function Every(tests: seq<Test>, k: nat, K: nat): seq<Test>
    requires K >= 1
    decreases |tests| - k
  {
    if k >= |tests| then [] else [tests[k]] + Every(tests, k + K, K)
  }

  lemma {:induction false} EveryShift(tests: seq<Test>, k: nat, K: nat)
    requires K >= 1 && tests != []
    ensures Every(tests[1..], k, K) == Every(tests, k + 1, K)
    decreases |tests| - k
  {
    if k + 1 < |tests| {
      EveryShift(tests, k + K, K);
      assert Every(tests[1..], k, K) == [tests[1..][k]] + Every(tests[1..], k + K, K);
      assert Every(tests, k + 1, K) == [tests[k + 1]] + Every(tests, k + K + 1, K);
    }
  }

  /** How many tests go elsewhere before a deal that starts at suite `i` reaches suite `k`. */
  function Ahead(k: nat, i: nat, K: nat): (o: nat)
    requires k < K && i < K
    ensures o < K
  {
    if k >= i then k - i else k - i + K
  }

  /** Dealing from suite `i`, suite `k` receives every K-th test from the first one that reaches it. */
  lemma {:induction false} DealAppends(suites: seq<seq<Test>>, tests: seq<Test>, i: nat, k: nat)
    requires i < |suites| && k < |suites|
    ensures Deal(suites, tests, i)[k] == suites[k] + Every(tests, Ahead(k, i, |suites|), |suites|)
    decreases |tests|
  {
    if tests != [] {
      var K := |suites|;
      var next := if i + 1 >= K then 0 else i + 1;
      var suites' := suites[i := suites[i] + [tests[0]]];
      DealAppends(suites', tests[1..], next, k);
      var o := Ahead(k, next, K);
      EveryShift(tests, o, K);
      assert Deal(suites, tests, i)[k] == suites'[k] + Every(tests, o + 1, K);
      if k == i {
        assert o + 1 == K && Every(tests, 0, K) == [tests[0]] + Every(tests, K, K);
        ConcatAssociates(suites[k], [tests[0]], Every(tests, K, K));
      } else {
        assert o + 1 == Ahead(k, i, K) && suites'[k] == suites[k];
      }
    }
  }

  lemma {:induction false} EveryAt(tests: seq<Test>, k: nat, K: nat, m: nat)
    requires K >= 1
    ensures m < |Every(tests, k, K)| <==> k + m * K < |tests|
    ensures m < |Every(tests, k, K)| ==> Every(tests, k, K)[m] == tests[k + m * K]
    decreases m
  {
    if k < |tests| && m > 0 {
      EveryAt(tests, k + K, K, m - 1);
      assert (m - 1) * K == m * K - K;
    } else if k >= |tests| {
      assert m * K >= 0;
    }
  }

  lemma OneMoreRound(m: nat, K: nat)
    ensures (m + 1) * K == m * K + K
  {
  }

  lemma EveryBalanced(tests: seq<Test>, a: nat, b: nat, K: nat)
    requires a <= b < K
    ensures |Every(tests, b, K)| <= |Every(tests, a, K)| <= |Every(tests, b, K)| + 1
  {
    var ea, eb := |Every(tests, a, K)|, |Every(tests, b, K)|;
    if ea < eb {
      EveryAt(tests, a, K, ea);
      EveryAt(tests, b, K, ea);
    }
    if eb + 1 < ea {
      EveryAt(tests, a, K, eb + 1);
      EveryAt(tests, b, K, eb);
      OneMoreRound(eb, K);
    }
  }

  /** Overflow test `j` lands in suite `j mod K`, behind the `j / K` overflow tests dealt there before. */
  lemma DealPlaces(suites: seq<seq<Test>>, tests: seq<Test>, j: nat, k: nat, m: nat)
    requires k < |suites| && j == m * |suites| + k && j < |tests|
    ensures var s := Deal(suites, tests, 0)[k]; |suites[k]| + m < |s| && s[|suites[k]| + m] == tests[j]
  {
    DealAppends(suites, tests, 0, k);
    EveryAt(tests, k, |suites|, m);
  }

  lemma {:induction false} FlattenUpdate(suites: seq<seq<Test>>, i: nat, t: Test)
    requires i < |suites|
    ensures multiset(Flatten(suites[i := suites[i] + [t]])) == multiset(Flatten(suites)) + multiset{t}
  {
    var a, b := suites[..i], suites[i + 1..];
    assert suites == a + ([suites[i]] + b);
    assert suites[i := suites[i] + [t]] == a + ([suites[i] + [t]] + b);
    FlattenConcat(a, [suites[i]] + b);
    FlattenConcat(a, [suites[i] + [t]] + b);
    assert Flatten([suites[i]] + b) == suites[i] + Flatten(b);
    assert Flatten([suites[i] + [t]] + b) == suites[i] + [t] + Flatten(b);
  }

  lemma {:induction false} DealConserves(suites: seq<seq<Test>>, tests: seq<Test>, i: nat)
    requires i < |suites|
    ensures multiset(Flatten(Deal(suites, tests, i))) == multiset(Flatten(suites)) + multiset(tests)
    decreases |tests|
  {
    if tests != [] {
      FlattenUpdate(suites, i, tests[0]);
      DealConserves(suites[i := suites[i] + [tests[0]]], tests[1..], if i + 1 >= |suites| then 0 else i + 1);
      assert tests == [tests[0]] + tests[1..];
    }
  }

  // ---------- The main results ----------

  /** Every test is in exactly one suite, and the limit on suites is kept. */
  lemma DivideConserves(tests: seq<Test>, caps: Caps)
    ensures multiset(Flatten(Divide(tests, caps))) == multiset(tests)
    ensures caps.maxSuites >= 1 ==> |Divide(tests, caps)| <= caps.maxSuites
  {
    var packed, k := Pack([], tests, caps), Limit(caps);
    PackIsSplit(tests, caps);
    if Overflows(tests, caps) {
      DealConserves(packed[..k], Flatten(packed[k..]), 0);
      FlattenCut(packed, k);
    }
  }

  lemma FlattenCut(suites: seq<seq<Test>>, k: nat)
    requires k <= |suites|
    ensures Flatten(suites[..k]) + Flatten(suites[k..]) == Flatten(suites)
  {
    var a, b := suites[..k], suites[k..];
    assert a + b == suites;
    FlattenConcat(a, b);
  }

  lemma DivideLeavesNoneEmpty(tests: seq<Test>, caps: Caps, i: nat)
    requires i < |Divide(tests, caps)|
    ensures Divide(tests, caps)[i] != []
  {
    var packed, k := Pack([], tests, caps), Limit(caps);
    PackIsSplit(tests, caps);
    assert packed[i] in packed;
    if Overflows(tests, caps) {
      DealAppends(packed[..k], Flatten(packed[k..]), 0, i);
    }
  }

  /** If the limit on suites is not hit, the caps hold and the order is kept. */
  lemma DivideKeepsCaps(tests: seq<Test>, caps: Caps)
    requires !Overflows(tests, caps)
    ensures IsSplit(Divide(tests, caps), tests, caps)
  {
    PackIsSplit(tests, caps);
  }

  /** Without a limit on suites, the split has the fewest suites of all. */
  lemma DivideIsMinimal(tests: seq<Test>, caps: Caps, split: seq<seq<Test>>)
    requires NonNegative(tests) && caps.maxSuites == 0 && IsSplit(split, tests, caps)
    ensures IsSplit(Divide(tests, caps), tests, caps) && |Divide(tests, caps)| <= |split|
  {
    DivideKeepsCaps(tests, caps);
    assert [] + tests == tests;
    PackIsMinimal([], tests, caps, split);
  }

  /** The limit on suites is hit exactly when every split that fits needs more suites than it allows. */
  lemma OverflowsIffNeeded(tests: seq<Test>, caps: Caps)
    requires NonNegative(tests) && caps.maxSuites != 0
    ensures Overflows(tests, caps) <==> forall split :: IsSplit(split, tests, caps) ==> |split| > Limit(caps)
  {
    PackIsSplit(tests, caps);
    assert [] + tests == tests;
    forall split | IsSplit(split, tests, caps) ensures |Pack([], tests, caps)| <= |split| {
      PackIsMinimal([], tests, caps, split);
    }
  }

  /** A deal into empty suites leaves no two suites more than one test apart. */
  lemma DealIsBalanced(suites: seq<seq<Test>>, tests: seq<Test>, a: nat, b: nat)
    requires a <= b < |suites| && suites[a] == suites[b] == []
    ensures var r := Deal(suites, tests, 0); |r[b]| <= |r[a]| <= |r[b]| + 1
  {
    DealAppends(suites, tests, 0, a);
    DealAppends(suites, tests, 0, b);
    EveryBalanced(tests, a, b, |suites|);
  }

  // ---------- The packing is determined ----------

  /** The first test of the next suite would have broken a cap of this one. */
  ghost predicate ClosedLate(suite: seq<Test>, next: seq<Test>, caps: Caps) {
    next != [] && (Total(suite) + next[0].runtime > caps.maxTime || (caps.maxTests != 0 && |suite| + 1 > caps.maxTests))
  }

  lemma {:induction false} PackIsGreedy(current: seq<Test>, rest: seq<Test>, caps: Caps)
    ensures var p := Pack(current, rest, caps);
            && (current != [] ==> p != [] && current <= p[0])
            && (current == [] && rest != [] ==> p != [] && p[0] != [] && p[0][0] == rest[0])
            && forall i :: 0 <= i < |p| - 1 ==> ClosedLate(p[i], p[i + 1], caps)
    decreases |rest|
  {
    if rest != [] {
      if current != [] && NewSuiteNeeded(current, rest[0], caps) {
        PackIsGreedy([rest[0]], rest[1..], caps);
        var packed := Pack([rest[0]], rest[1..], caps);
        assert packed[0][0] == [rest[0]][0];
        forall i | 0 <= i < |packed| ensures ClosedLate(([current] + packed)[i], ([current] + packed)[i + 1], caps) {
          assert i > 0 ==> ClosedLate(packed[i - 1], packed[i - 1 + 1], caps);
        }
      } else {
        PackIsGreedy(current + [rest[0]], rest[1..], caps);
        assert (current + [rest[0]])[|current|] == rest[0];
      }
    }
  }

  /** A suite is closed only when the next test would break a cap; all suites but dealt-out tests are such. */
  lemma DivideIsGreedy(tests: seq<Test>, caps: Caps, i: nat)
    requires !Overflows(tests, caps) && i + 1 < |Divide(tests, caps)|
    ensures ClosedLate(Divide(tests, caps)[i], Divide(tests, caps)[i + 1], caps)
  {
    PackIsGreedy([], tests, caps);
    assert ClosedLate(Pack([], tests, caps)[i], Pack([], tests, caps)[i + 1], caps);
  }

  /**
   If the limit of K suites is hit, the first K suites are packed as without it, and the j-th test after these is
   dealt to suite j mod K, behind its packed tests and the j / K tests dealt there before.
   */
  lemma DividePlaces(tests: seq<Test>, caps: Caps, packed: seq<seq<Test>>, K: nat, j: nat, k: nat, m: nat)
    requires Overflows(tests, caps) && packed == Pack([], tests, caps) && K == Limit(caps) && k < K && j == m * K + k
    ensures |Divide(tests, caps)| == K < |packed|
    ensures IsDealt(packed[..K], tests, Divide(tests, caps), j, k, m)
  {
    PackIsSplit(tests, caps);
    FlattenCut(packed, K);
    PlacesOf(packed[..K], Flatten(packed[K..]), tests, j, k, m);
  }

  /** Suite `k` begins as packed, and its m-th test behind that is the j-th test behind all that were packed. */
  ghost predicate IsDealt(first: seq<seq<Test>>, tests: seq<Test>, d: seq<seq<Test>>, j: nat, k: nat, m: nat)
    requires k < |first| == |d|
  {
    var taken := |Flatten(first)|;
    && first[k] <= d[k] && taken <= |tests|
    && (taken + j < |tests| ==> |first[k]| + m < |d[k]| && d[k][|first[k]| + m] == tests[taken + j])
    && (taken + j >= |tests| ==> |d[k]| <= |first[k]| + m)
  }

  /** Where the tests behind a packed prefix are dealt to. */
  lemma PlacesOf(first: seq<seq<Test>>, rest: seq<Test>, tests: seq<Test>, j: nat, k: nat, m: nat)
    requires k < |first| && tests == Flatten(first) + rest && j == m * |first| + k
    ensures IsDealt(first, tests, Deal(first, rest, 0), j, k, m)
  {
    DealtAt(first, rest, j, k, m);
    BehindPrefix(Flatten(first), rest, j);
  }

  /** What a deal leaves at one place of a suite. */
  lemma DealtAt(suites: seq<seq<Test>>, tests: seq<Test>, j: nat, k: nat, m: nat)
    requires k < |suites| && j == m * |suites| + k
    ensures var d := Deal(suites, tests, 0)[k];
            && suites[k] <= d
            && (j < |tests| ==> |suites[k]| + m < |d| && d[|suites[k]| + m] == tests[j])
            && (j >= |tests| ==> |d| <= |suites[k]| + m)
  {
    DealAppends(suites, tests, 0, k);
    EveryAt(tests, k, |suites|, m);
  }

  lemma BehindPrefix(a: seq<Test>, b: seq<Test>, j: nat)
    ensures j < |b| <==> |a| + j < |a + b|
    ensures j < |b| ==> (a + b)[|a| + j] == b[j]
  {
  }
}
