/** Suite objects and the methods that fill them, buildscripts/evergreen_generate_resmoke_tasks.py. */
module Suites {
  import opened Sequences
  import opened SuiteSplit
  import opened TaskName
  import Text

  function Names(tests: seq<Test>): seq<string> {
    seq(|tests|, i requires 0 <= i < |tests| => tests[i].name)
  }

  function Longest(tests: seq<Test>): real {
    if tests == [] then 0.0
    else
      var rest, last := Longest(tests[..|tests| - 1]), tests[|tests| - 1].runtime;
      if last > rest then last else rest
  }

  /** How many tests have a recorded runtime. */
  function Timed(tests: seq<Test>): (k: nat)
    ensures k <= |tests|
  {
    if tests == [] then 0
    else Timed(tests[..|tests| - 1]) + if tests[|tests| - 1].runtime != 0.0 then 1 else 0
  }

  lemma {:induction false} TimedIsAll(tests: seq<Test>)
    ensures Timed(tests) == |tests| <==> forall t :: t in tests ==> t.runtime != 0.0
  {
    if tests != [] {
      var front, last := tests[..|tests| - 1], tests[|tests| - 1];
      TimedIsAll(front);
      assert tests == front + [last];
    }
  }

  /** The class attribute Suite._current_index. */
  class IndexCounter {
    var current: nat

    constructor ()
      ensures current == 0
    {
      current := 0;
    }
  }

  class Suite {
    var tests: seq<string>
    var totalRuntime: real
    var maxRuntime: real
    var testsWithRuntimeInfo: nat
    const sourceName: string
    const index: nat
    ghost var contents: seq<Test>     // the tests added, with their runtimes

    ghost predicate Valid()
      reads this
    {
      && tests == Names(contents) && totalRuntime == Total(contents)
      && maxRuntime == Longest(contents) && testsWithRuntimeInfo == Timed(contents)
    }

    constructor (sourceName: string, counter: IndexCounter)
      modifies counter
      ensures Valid() && contents == [] && this.sourceName == sourceName
      ensures index == old(counter.current) && counter.current == old(counter.current) + 1
    {
      tests, totalRuntime, maxRuntime, testsWithRuntimeInfo := [], 0.0, 0.0, 0;
      this.sourceName, index, contents := sourceName, counter.current, [];
      new;
      counter.current := counter.current + 1;
    }

    method AddTest(test: string, runtime: real)
      requires Valid()
      modifies this
      ensures Valid() && contents == old(contents) + [Test(test, runtime)]
    {
      tests := tests + [test];
      totalRuntime := totalRuntime + runtime;
      if runtime != 0.0 {
        testsWithRuntimeInfo := testsWithRuntimeInfo + 1;
      }
      if runtime > maxRuntime {
        maxRuntime := runtime;
      }
      contents := contents + [Test(test, runtime)];
      assert contents[..|contents| - 1] == old(contents);
    }

    /** The timeout may be overridden only if every test has a recorded runtime. */
    function ShouldOverwriteTimeout(): (r: bool)
      reads this
      requires Valid()
      ensures r <==> forall t :: t in contents ==> t.runtime != 0.0
    {
      TimedIsAll(contents);
      |tests| == testsWithRuntimeInfo
    }

    function Name(counter: IndexCounter): string
      reads this, counter
      requires index < counter.current
    {
      NameGeneratedTask(sourceName, index, counter.current, None)
    }
  }

  /** Distinct suites, numbered from `first`, that hold the given groups of tests. */
  ghost predicate Hold(suites: seq<Suite>, groups: seq<seq<Test>>, sourceName: string, first: nat)
    reads suites
  {
    && NoDuplicates(suites) && |suites| == |groups|
    && forall i :: 0 <= i < |suites| ==>
         && suites[i].Valid() && suites[i].contents == groups[i]
         && suites[i].sourceName == sourceName && suites[i].index == first + i
  }

  lemma HoldAppend(suites: seq<Suite>, groups: seq<seq<Test>>, sourceName: string, first: nat, s: Suite)
    requires Hold(suites, groups, sourceName, first) && s !in suites
    requires s.Valid() && s.sourceName == sourceName && s.index == first + |suites|
    ensures Hold(suites + [s], groups + [s.contents], sourceName, first)
  {
  }

  /** The names of the suites, as they are read when the counter has its final value, are sorted and distinct. */
  ghost predicate NamesRise(suites: seq<Suite>, counter: IndexCounter)
    reads suites, counter
  {
    && (forall i :: 0 <= i < |suites| ==> suites[i].index < counter.current)
    && (forall i, j :: 0 <= i < j < |suites| ==> Text.Less(suites[i].Name(counter), suites[j].Name(counter)))
  }

  lemma HeldNamesRise(suites: seq<Suite>, groups: seq<seq<Test>>, sourceName: string, first: nat, counter: IndexCounter)
    requires Hold(suites, groups, sourceName, first) && first + |suites| <= counter.current
    ensures NamesRise(suites, counter)
  {
    forall i, j | 0 <= i < j < |suites| ensures Text.Less(suites[i].Name(counter), suites[j].Name(counter)) {
      NamesFollowIndices(sourceName, None, counter.current, first + i, first + j);
    }
  }

  /** Adds a test to one of the suites. */
  method AddToSuite(suites: seq<Suite>, k: nat, t: Test,
                    ghost groups: seq<seq<Test>>, ghost sourceName: string, ghost first: nat)
    requires k < |suites| && Hold(suites, groups, sourceName, first)
    modifies suites[k]
    ensures Hold(suites, groups[k := groups[k] + [t]], sourceName, first)
  {
    suites[k].AddTest(t.name, t.runtime);
  }

  /** Adds a test to a suite that is not yet in the list. */
  method AddToCurrent(suites: seq<Suite>, current: Suite, t: Test, ghost groups: seq<seq<Test>>, ghost sourceName: string)
    requires Hold(suites, groups, sourceName, 0) && current !in suites && current.Valid()
    modifies current
    ensures Hold(suites, groups, sourceName, 0) && current.Valid() && current.contents == old(current.contents) + [t]
  {
    current.AddTest(t.name, t.runtime);
  }

  /** Closes the current suite and starts the next one. */
  method CloseSuite(suites: seq<Suite>, current: Suite, sourceName: string, counter: IndexCounter, ghost groups: seq<seq<Test>>)
    returns (suites': seq<Suite>, next: Suite)
    requires Hold(suites, groups, sourceName, 0) && current !in suites && current.Valid()
    requires current.sourceName == sourceName && current.index == |suites|
    modifies counter
    ensures suites' == suites + [current] && Hold(suites', groups + [current.contents], sourceName, 0)
    ensures fresh(next) && next !in suites' && next.Valid() && next.contents == []
    ensures next.sourceName == sourceName && next.index == old(counter.current) && counter.current == old(counter.current) + 1
  {
    HoldAppend(suites, groups, sourceName, 0, current);
    suites' := suites + [current];
    next := new Suite(sourceName, counter);
  }

  /** Deals the tests out, one suite after the other. */
  method DivideRemainingTests(tests: seq<Test>, suites: seq<Suite>,
                              ghost groups: seq<seq<Test>>, ghost sourceName: string, ghost first: nat)
    requires suites != [] && Hold(suites, groups, sourceName, first)
    modifies suites
    ensures Hold(suites, Deal(groups, tests, 0), sourceName, first)
  {
    var suiteIndex := 0;
    ghost var now := groups;
    for j := 0 to |tests|
      invariant 0 <= suiteIndex < |suites| && Hold(suites, now, sourceName, first)
      invariant Deal(groups, tests, 0) == Deal(now, tests[j..], suiteIndex)
    {
      assert tests[j..] == [tests[j]] + tests[j + 1..];
      AddToSuite(suites, suiteIndex, tests[j], now, sourceName, first);
      now := now[suiteIndex := now[suiteIndex] + [tests[j]]];
      suiteIndex := suiteIndex + 1;
      if suiteIndex >= |suites| {
        suiteIndex := 0;
      }
    }
  }

  /** The suite being filled, next to the closed ones: it would get the next number. */
  ghost predicate Filling(suites: seq<Suite>, current: Suite, done: seq<seq<Test>>, sourceName: string, counter: IndexCounter)
    reads suites, current, counter
  {
    && Hold(suites, done, sourceName, 0) && current !in suites && current.Valid()
    && current.sourceName == sourceName && current.index == |suites| && counter.current == |suites| + 1
  }

  /** One round of the loop: the test goes into the current suite or the next one, or the limit on suites is hit. */
  method PlaceTest(suites: seq<Suite>, current: Suite, t: Test, caps: Caps, sourceName: string, counter: IndexCounter,
                   ghost done: seq<seq<Test>>, ghost rest: seq<Test>)
    returns (suites': seq<Suite>, current': Suite, limitHit: bool, ghost done': seq<seq<Test>>)
    requires Filling(suites, current, done, sourceName, counter)
    modifies current, counter
    ensures Filling(suites', current', done', sourceName, counter)
    ensures (suites' == suites && current' == current) || (suites' == suites + [current] && fresh(current'))
    ensures !limitHit ==> current'.contents != [] && (|suites'| == |suites| || caps.maxSuites == 0 || |suites'| < caps.maxSuites)
    ensures !limitHit ==> done' + Pack(current'.contents, rest, caps) == done + Pack(old(current.contents), [t] + rest, caps)
    ensures limitHit ==> caps.maxSuites != 0 && |suites'| == |suites| + 1 >= caps.maxSuites && current'.contents == []
    ensures limitHit ==> done' + Pack([t], rest, caps) == done + Pack(old(current.contents), [t] + rest, caps)
  {
    suites', current', limitHit, done' := suites, current, false, done;
    ghost var group := current.contents;
    assert ([t] + rest)[1..] == rest;
    if current.totalRuntime + t.runtime > caps.maxTime
       || (caps.maxTests != 0 && |current.tests| + 1 > caps.maxTests)
    {
      if |current.tests| > 0 {
        suites', current' := CloseSuite(suites, current, sourceName, counter, done);
        done' := done + [group];
        if caps.maxSuites != 0 && |suites'| >= caps.maxSuites {
          limitHit := true;
          return;
        }
      }
    }
    AddToCurrent(suites', current', t, done', sourceName);
  }

  /** Where the loop stands: the tests left are still to be packed, or the first of them hit the limit on suites. */
  ghost predicate Packing(caps: Caps, packed: seq<seq<Test>>, done: seq<seq<Test>>, current: seq<Test>, rest: seq<Test>,
                          closed: nat, started: bool, limitHit: bool) {
    if limitHit then
      && rest != [] && current == [] && closed == Limit(caps) && caps.maxSuites != 0
      && done + Pack([rest[0]], rest[1..], caps) == packed
    else
      && done + Pack(current, rest, caps) == packed
      && (caps.maxSuites != 0 ==> closed < Limit(caps)) && (started ==> current != [])
  }

  /** One test placed, as `PlaceTest` does it. */
  lemma PackingStep(caps: Caps, packed: seq<seq<Test>>, done: seq<seq<Test>>, current: seq<Test>, t: Test, rest: seq<Test>,
                    closed: nat, started: bool, done': seq<seq<Test>>, current': seq<Test>, closed': nat, limitHit: bool)
    requires Packing(caps, packed, done, current, [t] + rest, closed, started, false)
    requires !limitHit ==> current' != [] && (closed' == closed || caps.maxSuites == 0 || closed' < caps.maxSuites)
    requires !limitHit ==> done' + Pack(current', rest, caps) == done + Pack(current, [t] + rest, caps)
    requires limitHit ==> caps.maxSuites != 0 && closed' == closed + 1 >= caps.maxSuites && current' == []
    requires limitHit ==> done' + Pack([t], rest, caps) == done + Pack(current, [t] + rest, caps)
    ensures Packing(caps, packed, done', current', if limitHit then [t] + rest else rest, closed', true, limitHit)
  {
    assert ([t] + rest)[1..] == rest;
  }

  /** The loop has packed all tests, or stopped at the first one beyond the limit on suites. */
  ghost predicate LoopDone(caps: Caps, tests: seq<Test>, done: seq<seq<Test>>, current: seq<Test>,
                            closed: nat, processed: nat, limitHit: bool)
  {
    if limitHit then
      && processed < |tests| && current == [] && closed == Limit(caps) && caps.maxSuites != 0
      && done + Pack([tests[processed]], tests[processed + 1..], caps) == Pack([], tests, caps)
    else
      && done + Pack(current, [], caps) == Pack([], tests, caps)
      && (caps.maxSuites != 0 ==> closed < Limit(caps)) && (tests != [] ==> current != [])
  }

  lemma PackingEnds(caps: Caps, tests: seq<Test>, done: seq<seq<Test>>, current: seq<Test>, closed: nat, processed: nat, limitHit: bool)
    requires processed <= |tests| && (!limitHit ==> processed == |tests|)
    requires Packing(caps, Pack([], tests, caps), done, current, tests[processed..], closed, processed > 0, limitHit)
    ensures LoopDone(caps, tests, done, current, closed, processed, limitHit)
  {
    var rest := tests[processed..];
    if limitHit {
      assert rest[0] == tests[processed] && rest[1..] == tests[processed + 1..];
    } else {
      assert rest == [];
    }
  }

  /** The loop over the tests. It leaves the last suite open, and stops early if the limit on suites is hit. */
  method FillSuites(suiteName: string, tests: seq<Test>, caps: Caps, counter: IndexCounter)
    returns (suites: seq<Suite>, current: Suite, processed: nat, limitHit: bool, ghost done: seq<seq<Test>>)
    modifies counter
    ensures fresh(suites) && fresh(current) && Filling(suites, current, done, suiteName, counter)
    ensures LoopDone(caps, tests, done, current.contents, |suites|, processed, limitHit)
  {
    suites := [];
    counter.current := 0;
    current := new Suite(suiteName, counter);
    processed, limitHit, done := 0, false, [];
    ghost var packed := Pack([], tests, caps);
    assert tests[0..] == tests;
    while processed < |tests| && !limitHit
      invariant 0 <= processed <= |tests| && fresh(suites) && fresh(current)
      invariant Filling(suites, current, done, suiteName, counter)
      invariant Packing(caps, packed, done, current.contents, tests[processed..], |suites|, processed > 0, limitHit)
      decreases |tests| - processed, !limitHit
    {
      ghost var rest := tests[processed + 1..];
      assert tests[processed..] == [tests[processed]] + rest;
      ghost var done0, current0, closed0 := done, current.contents, |suites|;
      suites, current, limitHit, done :=
        PlaceTest(suites, current, tests[processed], caps, suiteName, counter, done, rest);
      PackingStep(caps, packed, done0, current0, tests[processed], rest, closed0, processed > 0,
                  done, current.contents, |suites|, limitHit);
      if !limitHit {
        processed := processed + 1;
      }
    }
    PackingEnds(caps, tests, done, current.contents, |suites|, processed, limitHit);
  }

  method DivideTestsIntoSuites(suiteName: string, tests: seq<Test>, caps: Caps, counter: IndexCounter)
    returns (suites: seq<Suite>)
    modifies counter
    ensures fresh(suites) && Hold(suites, Divide(tests, caps), suiteName, 0)
    ensures counter.current == |suites| + if tests == [] || Overflows(tests, caps) then 1 else 0
    ensures NamesRise(suites, counter)
  {
    var current, processed, limitHit;
    ghost var done;
    suites, current, processed, limitHit, done := FillSuites(suiteName, tests, caps, counter);
    ghost var open := current.contents;
    DivisionOf(tests, caps, done, open, |suites|, processed, limitHit);
    if |current.tests| > 0 {
      HoldAppend(suites, done, suiteName, 0, current);
      suites := suites + [current];
    }
    if limitHit {
      DivideRemainingTests(tests[processed..], suites, done, suiteName, 0);
    }
    HeldNamesRise(suites, Divide(tests, caps), suiteName, 0, counter);
  }

  /** What the division is, given how the loop ended. */
  lemma DivisionOf(tests: seq<Test>, caps: Caps, done: seq<seq<Test>>, current: seq<Test>, closed: nat, processed: nat, limitHit: bool)
    requires LoopDone(caps, tests, done, current, closed, processed, limitHit) && closed == |done|
    ensures Overflows(tests, caps) <==> limitHit
    ensures limitHit ==> done != [] && Divide(tests, caps) == Deal(done, tests[processed..], 0)
    ensures !limitHit ==> Divide(tests, caps) == if current == [] then done else done + [current]
    ensures !limitHit && current == [] ==> tests == []
  {
    if limitHit {
      LimitHit(tests, caps, done, tests[processed], tests[processed + 1..]);
      assert tests[processed..] == [tests[processed]] + tests[processed + 1..];
    } else {
      assert done + [] == done;
    }
  }

  /** The split used without test history: a deal into a fixed number of suites. */
  method CalculateFallbackSuites(suiteName: string, tests: seq<string>, fallback: nat, maxSuites: nat, counter: IndexCounter)
    returns (suites: seq<Suite>)
    requires fallback >= 1 && maxSuites >= 1
    modifies counter
    ensures fresh(suites) && counter.current == old(counter.current) + |suites|
    ensures |suites| == Min(fallback, Min(|tests|, maxSuites))
    ensures tests != [] ==> suites != [] && Hold(suites, Deal(Empty(|suites|), Untimed(tests), 0), suiteName, old(counter.current))
    ensures NamesRise(suites, counter)
  {
    var count := Min(fallback, Min(|tests|, maxSuites));
    suites := [];
    for i := 0 to count
      invariant fresh(suites) && Hold(suites, Empty(i), suiteName, old(counter.current))
      invariant counter.current == old(counter.current) + |suites|
    {
      var suite := new Suite(suiteName, counter);
      HoldAppend(suites, Empty(i), suiteName, old(counter.current), suite);
      assert Empty(i + 1) == Empty(i) + [[]];
      suites := suites + [suite];
    }
    DealUntimed(tests, suites, suiteName, old(counter.current));
    if suites != [] {
      HeldNamesRise(suites, Deal(Empty(count), Untimed(tests), 0), suiteName, old(counter.current), counter);
    }
  }

  /** Test number `j` goes to suite j mod count. */
  method DealUntimed(tests: seq<string>, suites: seq<Suite>, ghost sourceName: string, ghost first: nat)
    requires Hold(suites, Empty(|suites|), sourceName, first) && (tests != [] ==> suites != [])
    modifies suites
    ensures suites != [] ==> Hold(suites, Deal(Empty(|suites|), Untimed(tests), 0), sourceName, first)
  {
    ghost var untimed, now := Untimed(tests), Empty(|suites|);
    var count := |suites|;
    for j := 0 to |tests|
      invariant Hold(suites, now, sourceName, first)
      invariant count >= 1 ==> Deal(Empty(count), untimed, 0) == Deal(now, untimed[j..], j % count)
    {
      var k := j % count;
      assert untimed[j..] == [untimed[j]] + untimed[j + 1..];
      AddToSuite(suites, k, Test(tests[j], 0.0), now, sourceName, first);
      now := now[k := now[k] + [untimed[j]]];
      NextIndex(j, count);
    }
  }

  function Min(a: nat, b: nat): nat { if a < b then a else b }

  ghost function Empty(count: nat): (r: seq<seq<Test>>)
    ensures |r| == count && forall i :: 0 <= i < count ==> r[i] == []
  {
    seq(count, _ => [])
  }

  function Untimed(tests: seq<string>): seq<Test> {
    seq(|tests|, i requires 0 <= i < |tests| => Test(tests[i], 0.0))
  }

  lemma {:induction false} NextIndex(j: nat, count: nat)
    requires count >= 1
    ensures (j + 1) % count == if j % count + 1 >= count then 0 else j % count + 1
  {
    var q, r := j / count, j % count;
    assert j == q * count + r;
    if r + 1 >= count {
      assert j + 1 == (q + 1) * count;
      ModUnique(j + 1, q + 1, 0, count);
    } else {
      ModUnique(j + 1, q, r + 1, count);
    }
  }

  lemma {:induction false} ModUnique(n: nat, q: nat, r: nat, count: nat)
    requires r < count && n == q * count + r
    ensures n % count == r
  {
    var q', r' := n / count, n % count;
    assert n == q' * count + r';
    assert (q' - q) * count == r - r';
    assert q' - q >= 1 ==> (q' - q) * count >= count;
    assert q - q' >= 1 ==> (q - q') * count >= count;
  }

  /** The longest runtime bounds all others, and is that of a test or zero. */
  lemma {:induction false} LongestIsMaximum(tests: seq<Test>)
    ensures Longest(tests) >= 0.0 && forall t :: t in tests ==> t.runtime <= Longest(tests)
    ensures Longest(tests) == 0.0 || exists t :: t in tests && t.runtime == Longest(tests)
  {
    if tests != [] {
      var front, last := tests[..|tests| - 1], tests[|tests| - 1];
      LongestIsMaximum(front);
      assert tests == front + [last];
      assert last in tests;
    }
  }
}
