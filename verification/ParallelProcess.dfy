/**
 parallel_process of buildscripts/linter/parallel.py as an interleaved step system: the main thread and
 its workers each take one step at a time, in any order, on the shared queue, event, lock and result.
 `func` is any total function: each call may return true or false.
 */
module ParallelProcess {
  import opened Sequences

  type Item = string

  /** Where a worker stands; the comments name what it does next. */
  datatype Pc =
    | Idle                  // not started yet
    | AtWhile               // test the event
    | AtGet                 // take an item from the queue
    | SawEmpty              // the queue was empty: set the event and exit
    | InCall(item: Item)    // func(item) is running
    | Called(ok: bool)      // look at what func returned
    | WantLock              // acquire the lock
    | HoldLock              // set the result to False
    | WroteFalse            // release the lock
    | SetEvent              // set the event and exit
    | Exited

  /** Where the main thread stands. */
  datatype Main =
    | Starting(k: nat)      // start worker k, or begin to wait
    | Waiting               // wait for the event
    | Joining(k: nat)       // join worker k, or return
    | Returned(value: bool)

  /** One call of func that has returned. */
  datatype Call = Call(item: Item, ok: bool)

  datatype State = State(
    queue: seq<Item>, event: bool, result: bool, lock: Option<nat>,
    workers: seq<Pc>, main: Main, calls: seq<Call>)

  datatype Step = Work(w: nat, ok: bool) | Advance | Timeout

  function Init(items: seq<Item>, cpus: nat): State {
    State(items, false, true, None, seq(cpus, _ => Idle), Starting(0), [])
  }

  // ---------- Steps ----------

  predicate WorkerEnabled(s: State, w: nat) {
    w < |s.workers| && !s.workers[w].Idle? && !s.workers[w].Exited? && (s.workers[w].WantLock? ==> s.lock.None?)
  }

  function At(s: State, w: nat, pc: Pc): State
    requires w < |s.workers|
  {
    s.(workers := s.workers[w := pc])
  }

  /** One step of worker `w`; `ok` is what func returns if this step ends a call. */
  function WorkerStep(s: State, w: nat, ok: bool): State
    requires WorkerEnabled(s, w)
  {
    match s.workers[w]
    case AtWhile => At(s, w, if s.event then Exited else AtGet)
    case AtGet => if s.queue == [] then At(s, w, SawEmpty) else At(s, w, InCall(s.queue[0])).(queue := s.queue[1..])
    case SawEmpty => At(s, w, Exited).(event := true)
    case InCall(item) => At(s, w, Called(ok)).(calls := s.calls + [Call(item, ok)])
    case Called(returned) => At(s, w, if returned then AtWhile else WantLock)
    case WantLock => At(s, w, HoldLock).(lock := Some(w))
    case HoldLock => At(s, w, WroteFalse).(result := false)
    case WroteFalse => At(s, w, SetEvent).(lock := None)
    case SetEvent => At(s, w, Exited).(event := true)
  }

  predicate MainEnabled(s: State) {
    match s.main
    case Starting(k) => true
    case Waiting => s.event
    case Joining(k) => k < |s.workers| ==> s.workers[k].Exited?
    case Returned(_) => false
  }

  function MainStep(s: State): State
    requires MainEnabled(s)
  {
    match s.main
    case Starting(k) =>
      if k < |s.workers| then At(s, k, AtWhile).(main := Starting(k + 1)) else s.(main := Waiting)
    case Waiting => s.(main := Joining(0))
    case Joining(k) => s.(main := if k < |s.workers| then Joining(k + 1) else Returned(s.result))
  }

  predicate Enabled(s: State, step: Step) {
    match step
    case Work(w, _) => WorkerEnabled(s, w)
    case Advance => MainEnabled(s)
    case Timeout => s.main.Waiting? && !s.event
  }

  function Apply(s: State, step: Step): State
    requires Enabled(s, step)
  {
    match step
    case Work(w, ok) => WorkerStep(s, w, ok)
    case Advance => MainStep(s)
    case Timeout => s
  }

  /** `steps` is an interleaving that leads from `s` to `t`. */
  ghost predicate Runs(s: State, steps: seq<Step>, t: State)
    decreases |steps|
  {
    if steps == [] then s == t
    else Enabled(s, steps[0]) && Runs(Apply(s, steps[0]), steps[1..], t)
  }

  // ---------- The invariant ----------

  /** How many workers are in a call on `x`. */
  function InCallOn(workers: seq<Pc>, x: Item): nat {
    if workers == [] then 0
    else (if workers[0] == InCall(x) then 1 else 0) + InCallOn(workers[1..], x)
  }

  /** How many calls on `x` have returned. */
  function CallsOn(calls: seq<Call>, x: Item): nat {
    if calls == [] then 0
    else (if calls[|calls| - 1].item == x then 1 else 0) + CallsOn(calls[..|calls| - 1], x)
  }

  /** Queued, in a call, or done: each item as often as it was given. */
  ghost predicate Conserved(s: State, items: seq<Item>) {
    forall x :: multiset(s.queue)[x] + InCallOn(s.workers, x) + CallsOn(s.calls, x) == multiset(items)[x]
  }

  ghost predicate Failed(s: State) {
    exists c :: c in s.calls && !c.ok
  }

  /** A worker that knows of a failure and has not recorded it yet. */
  predicate Pending(pc: Pc) {
    pc == Called(false) || pc.WantLock? || pc.HoldLock?
  }

  ghost predicate WorkerInv(s: State, w: nat)
    requires w < |s.workers|
  {
    var pc := s.workers[w];
    && (pc.SawEmpty? ==> s.queue == [])
    && (Pending(pc) ==> Failed(s))
    && (pc.WroteFalse? || pc.SetEvent? ==> !s.result)
    && (pc.HoldLock? || pc.WroteFalse? <==> s.lock == Some(w))
    && (pc.Exited? ==> s.event)
    && (pc.Idle? <==> s.main.Starting? && w >= s.main.k)
    && (s.main.Joining? && w < s.main.k ==> pc.Exited?)
    && (s.main.Returned? ==> pc.Exited?)
  }

  ghost predicate SharedInv(s: State) {
    && (s.event ==> s.queue == [] || !s.result)
    && (!s.result ==> Failed(s))
    && (Failed(s) ==> !s.result || exists w :: 0 <= w < |s.workers| && Pending(s.workers[w]))
    && (s.lock.Some? ==> s.lock.value < |s.workers|)
    && (s.main.Joining? || s.main.Returned? ==> s.event)
    && (s.main.Starting? || s.main.Joining? ==> s.main.k <= |s.workers|)
    && (s.main.Returned? ==> s.main.value == s.result)
  }

  ghost predicate Inv(s: State) {
    SharedInv(s) && forall w :: 0 <= w < |s.workers| ==> WorkerInv(s, w)
  }

  lemma StepKeepsFailure(s: State, w: nat, ok: bool)
    requires WorkerEnabled(s, w)
    ensures Failed(s) || (s.workers[w].InCall? && !ok) <==> Failed(WorkerStep(s, w, ok))
  {
  }

  /** A worker moves itself only, and never the main thread. */
  lemma StepShape(s: State, w: nat, ok: bool)
    requires WorkerEnabled(s, w)
    ensures var t := WorkerStep(s, w, ok);
            |t.workers| == |s.workers| && t.workers == s.workers[w := t.workers[w]] && t.main == s.main
  {
  }

  lemma OwnInvKept(s: State, w: nat, ok: bool)
    requires WorkerEnabled(s, w) && WorkerInv(s, w)
    ensures w < |WorkerStep(s, w, ok).workers| && WorkerInv(WorkerStep(s, w, ok), w)
  {
    StepShape(s, w, ok);
    StepKeepsFailure(s, w, ok);
  }

  lemma OtherInvKept(s: State, w: nat, ok: bool, v: nat)
    requires WorkerEnabled(s, w) && v < |s.workers| && v != w && WorkerInv(s, w) && WorkerInv(s, v)
    ensures v < |WorkerStep(s, w, ok).workers| && WorkerInv(WorkerStep(s, w, ok), v)
  {
    StepShape(s, w, ok);
    StepKeepsFailure(s, w, ok);
  }

  lemma PendingKept(s: State, w: nat, ok: bool)
    requires Inv(s) && WorkerEnabled(s, w)
    ensures var t := WorkerStep(s, w, ok);
            Failed(t) ==> !t.result || exists v :: 0 <= v < |t.workers| && Pending(t.workers[v])
  {
    var t := WorkerStep(s, w, ok);
    StepKeepsFailure(s, w, ok);
    if Failed(t) && t.result && !Pending(t.workers[w]) {
      var v :| 0 <= v < |s.workers| && Pending(s.workers[v]);
      assert Pending(t.workers[v]);
    }
  }

  lemma WorkerStepKeepsInv(s: State, w: nat, ok: bool)
    requires Inv(s) && WorkerEnabled(s, w)
    ensures Inv(WorkerStep(s, w, ok))
  {
    var t := WorkerStep(s, w, ok);
    StepShape(s, w, ok);
    forall v | 0 <= v < |t.workers| ensures WorkerInv(t, v) {
      assert WorkerInv(s, w) && WorkerInv(s, v);
      if v == w { OwnInvKept(s, w, ok); } else { OtherInvKept(s, w, ok, v); }
    }
    assert WorkerInv(s, w);
    StepKeepsFailure(s, w, ok);
    PendingKept(s, w, ok);
  }

  lemma MainStepKeepsInv(s: State)
    requires Inv(s) && MainEnabled(s)
    ensures Inv(MainStep(s))
  {
    var t := MainStep(s);
    assert Failed(s) <==> Failed(t);
    forall v | 0 <= v < |t.workers| ensures WorkerInv(t, v) {
      assert WorkerInv(s, v);
    }
    if Failed(t) && t.result {
      var v :| 0 <= v < |s.workers| && Pending(s.workers[v]);
      assert WorkerInv(s, v);
      assert Pending(t.workers[v]);
    }
  }

  lemma {:induction false} InCallUpdate(workers: seq<Pc>, w: nat, pc: Pc, x: Item)
    requires w < |workers|
    ensures InCallOn(workers[w := pc], x) ==
            InCallOn(workers, x) - (if workers[w] == InCall(x) then 1 else 0) + if pc == InCall(x) then 1 else 0
  {
    if w > 0 {
      InCallUpdate(workers[1..], w - 1, pc, x);
      assert workers[w := pc][1..] == workers[1..][w - 1 := pc];
    } else {
      assert workers[w := pc][1..] == workers[1..];
    }
  }

  lemma QueuePop(queue: seq<Item>, x: Item)
    requires queue != []
    ensures multiset(queue)[x] == multiset(queue[1..])[x] + if queue[0] == x then 1 else 0
  {
    assert queue == [queue[0]] + queue[1..];
  }

  /** An item moves from the queue into a call, or from a call to the calls made, or none moves. */
  ghost predicate Moves(s: State, t: State, w: nat)
    requires w < |s.workers| == |t.workers|
  {
    var before, after := s.workers[w], t.workers[w];
    && t.workers == s.workers[w := after]
    && (|| (s.queue != [] && !before.InCall? && after == InCall(s.queue[0]) && t.queue == s.queue[1..] && t.calls == s.calls)
        || (before.InCall? && !after.InCall? && t.queue == s.queue && exists ok :: t.calls == s.calls + [Call(before.item, ok)])
        || (!before.InCall? && !after.InCall? && t.queue == s.queue && t.calls == s.calls))
  }

  lemma MovesConserves(s: State, t: State, w: nat, x: Item)
    requires w < |s.workers| == |t.workers| && Moves(s, t, w)
    ensures multiset(t.queue)[x] + InCallOn(t.workers, x) + CallsOn(t.calls, x) ==
            multiset(s.queue)[x] + InCallOn(s.workers, x) + CallsOn(s.calls, x)
  {
    InCallUpdate(s.workers, w, t.workers[w], x);
    if t.workers[w].InCall? {
      QueuePop(s.queue, x);
    } else if s.workers[w].InCall? {
      assert t.calls[..|t.calls| - 1] == s.calls;
    }
  }

  lemma WorkerStepMoves(s: State, w: nat, ok: bool)
    requires WorkerEnabled(s, w)
    ensures |WorkerStep(s, w, ok).workers| == |s.workers| && Moves(s, WorkerStep(s, w, ok), w)
  {
  }

  lemma MainStepConserves(s: State, x: Item)
    requires Inv(s) && MainEnabled(s)
    ensures InCallOn(MainStep(s).workers, x) == InCallOn(s.workers, x)
  {
    if s.main.Starting? && s.main.k < |s.workers| {
      InCallUpdate(s.workers, s.main.k, AtWhile, x);
      assert WorkerInv(s, s.main.k);
    }
  }

  lemma StepConserves(s: State, step: Step, items: seq<Item>)
    requires Inv(s) && Enabled(s, step) && Conserved(s, items)
    ensures Conserved(Apply(s, step), items)
  {
    var t := Apply(s, step);
    forall x ensures multiset(t.queue)[x] + InCallOn(t.workers, x) + CallsOn(t.calls, x) == multiset(items)[x] {
      match step {
        case Work(w, ok) =>
          WorkerStepMoves(s, w, ok);
          MovesConserves(s, t, w, x);
        case Advance => MainStepConserves(s, x);
        case Timeout =>
      }
    }
  }

  lemma StepKeepsInv(s: State, step: Step, items: seq<Item>)
    requires Inv(s) && Enabled(s, step) && Conserved(s, items)
    ensures Inv(Apply(s, step)) && Conserved(Apply(s, step), items)
    ensures |Apply(s, step).workers| == |s.workers|
  {
    match step {
      case Work(w, ok) =>
        WorkerStepKeepsInv(s, w, ok);
      case Advance =>
        MainStepKeepsInv(s);
      case Timeout =>
    }
    StepConserves(s, step, items);
  }

  lemma InitInv(items: seq<Item>, cpus: nat)
    ensures Inv(Init(items, cpus)) && Conserved(Init(items, cpus), items)
  {
    var idle := Init(items, cpus).workers;
    forall x ensures InCallOn(idle, x) == 0 {
      NoneInCall(idle, x);
    }
  }

  lemma {:induction false} NoneInCall(workers: seq<Pc>, x: Item)
    requires forall w :: 0 <= w < |workers| ==> !workers[w].InCall?
    ensures InCallOn(workers, x) == 0
  {
    if workers != [] {
      NoneInCall(workers[1..], x);
    }
  }

  lemma {:induction false} RunsKeepInv(s: State, steps: seq<Step>, t: State, items: seq<Item>)
    requires Runs(s, steps, t) && Inv(s) && Conserved(s, items)
    ensures Inv(t) && Conserved(t, items) && |t.workers| == |s.workers|
    decreases |steps|
  {
    if steps != [] {
      StepKeepsInv(s, steps[0], items);
      RunsKeepInv(Apply(s, steps[0]), steps[1..], t, items);
    }
  }

  // ---------- Safety ----------

  /** In every interleaving, the items queued, in a call and done are at all times the items given. */
  lemma ItemsConserved(items: seq<Item>, cpus: nat, steps: seq<Step>, s: State)
    requires Runs(Init(items, cpus), steps, s)
    ensures Conserved(s, items)
    ensures s.event ==> s.queue == [] || !s.result
  {
    InitInv(items, cpus);
    RunsKeepInv(Init(items, cpus), steps, s, items);
  }

  /**
   In every interleaving: False is returned exactly if some call that was made returned false, and True
   only if each item was passed to func exactly once and every call returned true.
   */
  lemma ReturnIsCorrect(items: seq<Item>, cpus: nat, steps: seq<Step>, s: State)
    requires cpus >= 1 && Runs(Init(items, cpus), steps, s) && s.main.Returned?
    ensures !s.main.value <==> exists c :: c in s.calls && !c.ok
    ensures s.main.value ==> forall c :: c in s.calls ==> c.ok
    ensures s.main.value ==> forall x :: CallsOn(s.calls, x) == multiset(items)[x]
    ensures forall w :: 0 <= w < |s.workers| ==> s.workers[w].Exited?
  {
    InitInv(items, cpus);
    RunsKeepInv(Init(items, cpus), steps, s, items);
    forall w | 0 <= w < |s.workers| ensures s.workers[w].Exited? {
      assert WorkerInv(s, w);
    }
    forall x ensures InCallOn(s.workers, x) == 0 {
      NoneInCall(s.workers, x);
    }
  }

  // ---------- Progress and termination ----------

  /** As long as a started worker has not exited, some worker can take a step. */
  lemma SomeWorkerCanStep(s: State, w: nat)
    requires Inv(s) && w < |s.workers| && !s.workers[w].Idle? && !s.workers[w].Exited?
    ensures exists v :: WorkerEnabled(s, v)
  {
    if WorkerEnabled(s, w) {
    } else {
      var v := s.lock.value;
      assert WorkerInv(s, v);
      assert WorkerEnabled(s, v);
    }
  }

  /** Until parallel_process has returned, some thread can take a step other than a timed-out wait. */
  lemma NeverStuck(items: seq<Item>, cpus: nat, steps: seq<Step>, s: State)
    requires cpus >= 1 && Runs(Init(items, cpus), steps, s) && !s.main.Returned?
    ensures MainEnabled(s) || exists w :: WorkerEnabled(s, w)
    ensures (forall w :: 0 <= w < |s.workers| ==> s.workers[w].Exited?) ==> s.event
  {
    InitInv(items, cpus);
    RunsKeepInv(Init(items, cpus), steps, s, items);
    assert WorkerInv(s, 0);
    if !MainEnabled(s) {
      var w := if s.main.Joining? then s.main.k else 0;
      assert WorkerInv(s, w);
      SomeWorkerCanStep(s, w);
    }
  }

  function Weight(pc: Pc): nat {
    match pc
    case Idle => 4
    case AtWhile => 3
    case AtGet => 2
    case SawEmpty => 1
    case InCall(_) => 6
    case Called(_) => 5
    case WantLock => 4
    case HoldLock => 3
    case WroteFalse => 2
    case SetEvent => 1
    case Exited => 0
  }

  function WorkersRank(workers: seq<Pc>): nat {
    if workers == [] then 0 else Weight(workers[0]) + WorkersRank(workers[1..])
  }

  function MainRank(main: Main, cpus: nat): int {
    match main
    case Starting(k) => 2 * cpus + 3 - k
    case Waiting => cpus + 2
    case Joining(k) => cpus + 1 - k
    case Returned(_) => 0
  }

  function Rank(s: State): int {
    5 * |s.queue| + WorkersRank(s.workers) + MainRank(s.main, |s.workers|)
  }

  lemma {:induction false} RankUpdate(workers: seq<Pc>, w: nat, pc: Pc)
    requires w < |workers|
    ensures WorkersRank(workers[w := pc]) == WorkersRank(workers) - Weight(workers[w]) + Weight(pc)
  {
    if w > 0 {
      RankUpdate(workers[1..], w - 1, pc);
      assert workers[w := pc][1..] == workers[1..][w - 1 := pc];
    } else {
      assert workers[w := pc][1..] == workers[1..];
    }
  }

  lemma {:induction false} InitRank(cpus: nat)
    ensures WorkersRank(seq(cpus, _ => Idle)) == 4 * cpus
  {
    if cpus > 0 {
      InitRank(cpus - 1);
      assert seq(cpus, _ => Idle)[1..] == seq(cpus - 1, _ => Idle);
    }
  }

  /** The worker's own weight goes down, by enough to pay for an item taken from the queue. */
  lemma StepWeighsLess(s: State, w: nat, ok: bool)
    requires WorkerEnabled(s, w)
    ensures var t := WorkerStep(s, w, ok);
            w < |t.workers| && 5 * |t.queue| + Weight(t.workers[w]) < 5 * |s.queue| + Weight(s.workers[w])
  {
  }

  lemma WorkerStepDescends(s: State, w: nat, ok: bool)
    requires WorkerEnabled(s, w)
    ensures Rank(WorkerStep(s, w, ok)) < Rank(s)
  {
    var t := WorkerStep(s, w, ok);
    StepShape(s, w, ok);
    StepWeighsLess(s, w, ok);
    RankUpdate(s.workers, w, t.workers[w]);
  }

  lemma MainStepDescends(s: State)
    requires Inv(s) && MainEnabled(s)
    ensures Rank(MainStep(s)) < Rank(s)
  {
    if s.main.Starting? && s.main.k < |s.workers| {
      assert WorkerInv(s, s.main.k);
      RankUpdate(s.workers, s.main.k, AtWhile);
    }
  }

  lemma StepDescends(s: State, step: Step)
    requires Inv(s) && Enabled(s, step)
    ensures Rank(Apply(s, step)) <= Rank(s) - if step.Timeout? then 0 else 1
  {
    match step {
      case Work(w, ok) => WorkerStepDescends(s, w, ok);
      case Advance => MainStepDescends(s);
      case Timeout =>
    }
  }

  function ProgressSteps(steps: seq<Step>): nat {
    if steps == [] then 0 else (if steps[0].Timeout? then 0 else 1) + ProgressSteps(steps[1..])
  }

  lemma {:induction false} RunsDescend(s: State, steps: seq<Step>, t: State, items: seq<Item>)
    requires Runs(s, steps, t) && Inv(s) && Conserved(s, items)
    ensures Rank(t) + ProgressSteps(steps) <= Rank(s) && Rank(t) >= 0
    decreases |steps|
  {
    if steps == [] {
      assert MainRank(s.main, |s.workers|) >= 0;
    } else {
      StepDescends(s, steps[0]);
      StepKeepsInv(s, steps[0], items);
      RunsDescend(Apply(s, steps[0]), steps[1..], t, items);
    }
  }

  /** No interleaving takes more than this many steps, timed-out waits of the main thread aside. */
  lemma RunsAreBounded(items: seq<Item>, cpus: nat, steps: seq<Step>, s: State)
    requires Runs(Init(items, cpus), steps, s)
    ensures ProgressSteps(steps) <= 5 * |items| + 6 * cpus + 3
  {
    InitInv(items, cpus);
    InitRank(cpus);
    RunsDescend(Init(items, cpus), steps, s, items);
  }

  // ---------- Order, and stopping early ----------

  /** The queue hands its items out in the order in which they were given. */
  lemma {:induction false} QueueIsSuffix(s: State, steps: seq<Step>, t: State)
    requires Runs(s, steps, t)
    ensures |t.queue| <= |s.queue| && t.queue == s.queue[|s.queue| - |t.queue|..]
    decreases |steps|
  {
    if steps != [] {
      var next := Apply(s, steps[0]);
      assert next.queue == s.queue || (s.queue != [] && next.queue == s.queue[1..]);
      QueueIsSuffix(next, steps[1..], t);
    }
  }

  /** In every interleaving the items in a call or done are the first ones given, and the rest wait in order. */
  lemma TakenInOrder(items: seq<Item>, cpus: nat, steps: seq<Step>, s: State)
    requires Runs(Init(items, cpus), steps, s)
    ensures |s.queue| <= |items|
    ensures var taken := |items| - |s.queue|;
            s.queue == items[taken..] && forall x :: InCallOn(s.workers, x) + CallsOn(s.calls, x) == multiset(items[..taken])[x]
  {
    QueueIsSuffix(Init(items, cpus), steps, s);
    ItemsConserved(items, cpus, steps, s);
    var taken := |items| - |s.queue|;
    assert items == items[..taken] + items[taken..];
  }

  /** How many workers are about to take an item. */
  function Taking(workers: seq<Pc>): nat {
    if workers == [] then 0 else (if workers[0].AtGet? then 1 else 0) + Taking(workers[1..])
  }

  lemma {:induction false} TakingUpdate(workers: seq<Pc>, w: nat, pc: Pc)
    requires w < |workers|
    ensures Taking(workers[w := pc]) == Taking(workers) - (if workers[w].AtGet? then 1 else 0) + if pc.AtGet? then 1 else 0
  {
    if w > 0 {
      TakingUpdate(workers[1..], w - 1, pc);
      assert workers[w := pc][1..] == workers[1..][w - 1 := pc];
    } else {
      assert workers[w := pc][1..] == workers[1..];
    }
  }

  /** With the event set, an item is taken only by a worker that was about to, and no worker gets there any more. */
  lemma StepAfterEvent(s: State, step: Step)
    requires s.event && Enabled(s, step)
    ensures var t := Apply(s, step); t.event && |s.queue| - |t.queue| <= Taking(s.workers) - Taking(t.workers)
  {
    match step {
      case Work(w, ok) =>
        StepShape(s, w, ok);
        TakingUpdate(s.workers, w, WorkerStep(s, w, ok).workers[w]);
      case Advance =>
        if s.main.Starting? && s.main.k < |s.workers| {
          TakingUpdate(s.workers, s.main.k, AtWhile);
        }
      case Timeout =>
    }
  }

  /** Once the event is set, at most one more call is begun for each worker that had already looked at it. */
  lemma {:induction false} StopsEarly(s: State, steps: seq<Step>, t: State)
    requires s.event && Runs(s, steps, t)
    ensures t.event && |s.queue| - |t.queue| <= Taking(s.workers) - Taking(t.workers) <= |s.workers|
    ensures forall i :: 0 <= i < |steps| ==> !steps[i].Timeout?
    decreases |steps|
  {
    TakingBound(s.workers);
    if steps != [] {
      StepAfterEvent(s, steps[0]);
      StopsEarly(Apply(s, steps[0]), steps[1..], t);
    }
  }

  lemma {:induction false} TakingBound(workers: seq<Pc>)
    ensures Taking(workers) <= |workers|
  {
    if workers != [] {
      TakingBound(workers[1..]);
    }
  }
}
