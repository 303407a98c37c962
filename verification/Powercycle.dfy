/** The powercycle loop of pytests/powertest.py: crash, recover, and look for the canary written before the crash. */
module Powercycle {
  import opened Text

  // ---------- Backup paths ----------

  function ReplaceSuffix(s: string, suffix: string, replacement: string): string {
    if EndsWith(s, suffix) then s[..|s| - |suffix|] + replacement else s
  }

  /** re.sub("-{n-1}$", "-{n}", path) */
  function GetBackupPath(path: string, loopNum: nat): string
    requires loopNum >= 1
  {
    ReplaceSuffix(path, "-" + Str(loopNum - 1), "-" + Str(loopNum))
  }

  /** The backup path that loop `n` ends with. */
  function PathOf(base: string, n: nat): string {
    base + ("-" + Str(n))
  }

  /** The path that loop `n` finds: the one of the loop before, or "-1" in the first loop. */
  function PathBefore(base: string, n: nat): string
    requires n >= 1
  {
    PathOf(base, if n == 1 then 1 else n - 1)
  }

  lemma BackupPathOfLoop(base: string, n: nat)
    requires n >= 1
    ensures GetBackupPath(PathBefore(base, n), n) == PathOf(base, n)
  {
  }

  // ---------- Documents ----------

  type Fields = map<string, int>

  /** A document as the client holds it: inserting it adds an _id in place. */
  class Document {
    var fields: Fields

    constructor (fields: Fields)
      ensures this.fields == fields
    {
      this.fields := fields;
    }

    method DeepCopy() returns (copy: Document)
      ensures fresh(copy) && copy.fields == fields
    {
      copy := new Document(fields);
    }

    method InsertOne(id: int)
      modifies this
      ensures fields == old(fields)["_id" := id]
    {
      fields := fields["_id" := id];
    }
  }

  // ---------- One remote call ----------

  datatype Operation =
    RsyncData | RemoveLockFile | StartMongod | SetFcv | ValidateCollections | ValidateCanary | SeedDocs

  ghost predicate AllZero(results: nat -> int, count: nat) {
    forall k :: 0 <= k < count ==> results(k) == 0
  }

  /** `results(k)` is the return code of the k-th operation. The handler stops at the first failure. */
  method RemoteHandler(operations: seq<Operation>, results: nat -> int) returns (ret: int, executed: nat)
    ensures executed <= |operations| && (forall k :: 0 <= k < executed - 1 ==> results(k) == 0)
    ensures ret == 0 ==> executed == |operations| && forall k :: 0 <= k < |operations| ==> results(k) == 0
    ensures ret != 0 ==> executed >= 1 && ret == results(executed - 1)
  {
    for i := 0 to |operations|
      invariant forall k :: 0 <= k < i ==> results(k) == 0
    {
      ret := results(i);
      if ret != 0 {
        return ret, i + 1;
      }
    }
    return 0, |operations|;
  }

  // ---------- The loop ----------

  /** Where an optional check is made. */
  datatype Where = Off | Local | Remote

  datatype Config = Config(
    canary: Where, validate: Where, rsync: bool, removeLockFile: bool, setFcv: bool, seedDocs: bool,
    backupBefore: string, backupAfter: string, numLoops: int, testTime: int)

  /** What the environment does in one loop: the clock, the id the driver picks, and how each step ends. */
  datatype Surroundings = Surroundings(
    clock: int, id: int, startResults: nat -> int, localFound: bool, localCollections: int, shutdown: int,
    restart: int, crashRaises: bool, testTime: int)

  datatype Event =
    | Inserted(loop: nat, doc: Fields)                  // passed to the insert right before the crash
    | Validated(loop: nat, doc: Fields, found: bool)    // looked for after recovery
    | Backup(loop: nat, base: string, from: string, to: string)

  /** Running: the environment given ends before the loop does. */
  datatype Status = Success(loops: nat) | Failed(loop: nat) | Running

  const UNLIMITED: int := 999999

  function CanaryOf(env: seq<Surroundings>, loop: nat): Fields
    requires 1 <= loop <= |env|
  {
    map["x" := env[loop - 1].clock]
  }

  function When(condition: bool, op: Operation): seq<Operation> {
    if condition then [op] else []
  }

  function StartOperations(c: Config, loopNum: nat): seq<Operation> {
    StartMongodOperations(c) + AfterStartOperations(c, loopNum)
  }

  function StartMongodOperations(c: Config): seq<Operation> {
    When(c.rsync, RsyncData) + When(c.removeLockFile, RemoveLockFile) + [StartMongod]
  }

  function AfterStartOperations(c: Config, loopNum: nat): seq<Operation> {
    When(c.setFcv && loopNum == 1, SetFcv)
    + When(c.validate == Remote, ValidateCollections)
    + When(c.canary == Remote && loopNum > 1, ValidateCanary)
    + When(c.seedDocs && loopNum == 1, SeedDocs)
  }

  function Rank(op: Operation): nat {
    match op
    case RsyncData => 0
    case RemoveLockFile => 1
    case StartMongod => 2
    case SetFcv => 3
    case ValidateCollections => 4
    case ValidateCanary => 5
    case SeedDocs => 6
  }

  /** The condition under which a start holds an operation. */
  ghost predicate Needed(c: Config, n: nat, op: Operation) {
    match op
    case RsyncData => c.rsync
    case RemoveLockFile => c.removeLockFile
    case StartMongod => true
    case SetFcv => c.setFcv && n == 1
    case ValidateCollections => c.validate == Remote
    case ValidateCanary => c.canary == Remote && n > 1
    case SeedDocs => c.seedDocs && n == 1
  }

  /** Operations in their order, with ranks from `low` to below `high`. */
  ghost predicate Rising(ops: seq<Operation>, low: nat, high: nat) {
    && (forall i :: 0 <= i < |ops| ==> low <= Rank(ops[i]) < high)
    && (forall i, j :: 0 <= i < j < |ops| ==> Rank(ops[i]) < Rank(ops[j]))
  }

  lemma StartMongodExactly(c: Config, n: nat, op: Operation)
    ensures Rising(StartMongodOperations(c), 0, 3)
    ensures op in StartMongodOperations(c) <==> Rank(op) < 3 && Needed(c, n, op)
  {
  }

  lemma AfterStartRises(c: Config, n: nat)
    ensures Rising(AfterStartOperations(c, n), 3, 7)
  {
  }

  lemma AfterStartExactly(c: Config, n: nat, op: Operation)
    ensures op in AfterStartOperations(c, n) <==> Rank(op) >= 3 && Needed(c, n, op)
  {
  }

  /** A start holds exactly the operations needed, each once: data is copied and the lock removed before mongod starts. */
  lemma StartOperationsExactly(c: Config, n: nat, op: Operation)
    ensures op in StartOperations(c, n) <==> Needed(c, n, op)
    ensures forall i, j :: 0 <= i < j < |StartOperations(c, n)| ==> Rank(StartOperations(c, n)[i]) < Rank(StartOperations(c, n)[j])
  {
    StartMongodExactly(c, n, op);
    AfterStartRises(c, n);
    AfterStartExactly(c, n, op);
  }

  // ---------- When a loop, and a test, ends well ----------

  /** The start, the checks made locally and the shutdown of loop `n` go well. */
  ghost predicate RecoveryOk(c: Config, env: seq<Surroundings>, n: nat)
    requires 1 <= n <= |env|
  {
    var here := env[n - 1];
    && AllZero(here.startResults, |StartOperations(c, n)|)
    && (c.canary == Local && n > 1 ==> here.localFound)
    && (c.validate == Local ==> here.localCollections == 0)
    && here.shutdown == 0
  }

  /** No step of loop `n` fails. */
  ghost predicate LoopOk(c: Config, env: seq<Surroundings>, n: nat)
    requires 1 <= n <= |env|
  {
    RecoveryOk(c, env, n) && env[n - 1].restart == 0 && !env[n - 1].crashRaises
  }

  /** A test time, if given, overrides the number of loops. */
  ghost predicate LimitReached(c: Config, env: seq<Surroundings>, n: nat)
    requires 1 <= n <= |env|
  {
    if c.testTime != 0 then n == UNLIMITED || env[n - 1].testTime >= c.testTime
    else n == c.numLoops || env[n - 1].testTime >= UNLIMITED
  }

  /** Loop `n` is begun: all loops before it went well and none of them was the last. */
  ghost predicate Begun(c: Config, env: seq<Surroundings>, n: nat) {
    1 <= n <= |env| && forall m :: 1 <= m < n ==> LoopOk(c, env, m) && !LimitReached(c, env, m)
  }

  // ---------- What happens in a loop ----------

  /** An event says what it should: the document validated is the one inserted a loop earlier. */
  ghost predicate EventOk(c: Config, env: seq<Surroundings>, e: Event) {
    match e
    case Inserted(n, doc) => c.canary != Off && 1 <= n <= |env| && doc == CanaryOf(env, n)
    case Validated(n, doc, _) => c.canary != Off && 2 <= n <= |env| && doc == CanaryOf(env, n - 1)
    case Backup(n, base, from, to) =>
      c.rsync && 1 <= n && (base == c.backupBefore || base == c.backupAfter) &&
      from == PathBefore(base, n) && to == PathOf(base, n)
  }

  /** Whether the canary is looked for, and with what result: remotely by the last operation of the start, or locally after it. */
  ghost function CanaryEvents(c: Config, env: seq<Surroundings>, n: nat): seq<Event>
    requires 1 <= n <= |env|
  {
    var here, last := env[n - 1], |StartOperations(c, n)| - 1;
    if c.canary == Off || n == 1 then []
    else if c.canary == Remote then
      if AllZero(here.startResults, last) then [Validated(n, CanaryOf(env, n - 1), here.startResults(last) == 0)] else []
    else
      if AllZero(here.startResults, last + 1) then [Validated(n, CanaryOf(env, n - 1), here.localFound)] else []
  }

  ghost function BackupEvents(c: Config, base: string, n: nat): seq<Event>
    requires n >= 1
  {
    if c.rsync then [Backup(n, base, PathBefore(base, n), PathOf(base, n))] else []
  }

  /** What happens in loop `n`, up to its end or the first failing step. */
  ghost function LoopEvents(c: Config, env: seq<Surroundings>, n: nat): seq<Event>
    requires 1 <= n <= |env|
  {
    BackupEvents(c, c.backupBefore, n) + CanaryEvents(c, env, n)
    + (if RecoveryOk(c, env, n) then BackupEvents(c, c.backupAfter, n) else [])
    + (if RecoveryOk(c, env, n) && env[n - 1].restart == 0 && c.canary != Off then [Inserted(n, CanaryOf(env, n))] else [])
  }

  /** A loop that goes well copies the data, finds the last canary, copies again and inserts the next canary. */
  lemma GoodLoop(c: Config, env: seq<Surroundings>, n: nat)
    requires 1 <= n <= |env| && LoopOk(c, env, n)
    ensures LoopEvents(c, env, n) ==
            BackupEvents(c, c.backupBefore, n) + (if c.canary != Off && n > 1 then [Validated(n, CanaryOf(env, n - 1), true)] else [])
            + BackupEvents(c, c.backupAfter, n) + (if c.canary != Off then [Inserted(n, CanaryOf(env, n))] else [])
  {
    assert CanaryEvents(c, env, n) == if c.canary != Off && n > 1 then [Validated(n, CanaryOf(env, n - 1), true)] else [];
  }

  /** Starts mongod remotely; the canary is validated there if the mode is Remote. */
  method StartRemotely(c: Config, env: seq<Surroundings>, n: nat, doc: Fields) returns (ret: int, events: seq<Event>)
    requires 1 <= n <= |env| && (c.canary != Off && n > 1 ==> doc == CanaryOf(env, n - 1))
    ensures ret == 0 <==> AllZero(env[n - 1].startResults, |StartOperations(c, n)|)
    ensures events == if c.canary == Remote then CanaryEvents(c, env, n) else []
  {
    var operations := StartOperations(c, n);
    var executed;
    ret, executed := RemoteHandler(operations, env[n - 1].startResults);
    events := [];
    if c.canary == Remote && n > 1 {
      var k := |operations| - 1;
      assert operations[k] == ValidateCanary;
      if k < executed {
        events := [Validated(n, doc, env[n - 1].startResults(k) == 0)];
      }
    }
  }

  /** Everything between recovery and the restart; `ok` is false on the first failure. */
  method Recover(c: Config, env: seq<Surroundings>, n: nat, doc: Fields) returns (ok: bool, events: seq<Event>)
    requires 1 <= n <= |env| && (c.canary != Off && n > 1 ==> doc == CanaryOf(env, n - 1))
    ensures ok <==> RecoveryOk(c, env, n)
    ensures events == CanaryEvents(c, env, n)
  {
    var here, ret := env[n - 1], 0;
    ret, events := StartRemotely(c, env, n, doc);
    if ret != 0 {
      return false, events;
    }
    if c.canary == Local && n > 1 {
      events := events + [Validated(n, doc, here.localFound)];
      if !here.localFound {
        return false, events;
      }
    }
    if c.validate == Local && here.localCollections != 0 {
      return false, events;
    }
    if here.shutdown != 0 {
      return false, events;
    }
    return true, events;
  }

  /**
   Inserts the canary of this loop right before the crash, and keeps a copy for the next one. `held` is the document
   passed to the insert: made locally, the insert adds an id to it.
   */
  method PlantCanary(c: Config, env: seq<Surroundings>, n: nat) returns (held: Document, next: Document, events: seq<Event>)
    requires 1 <= n <= |env| && c.canary != Off
    ensures events == [Inserted(n, CanaryOf(env, n))] && next.fields == CanaryOf(env, n)
    ensures held.fields == if c.canary == Local then CanaryOf(env, n)["_id" := env[n - 1].id] else CanaryOf(env, n)
  {
    var here := env[n - 1];
    held := new Document(map["x" := here.clock]);
    var original := held.DeepCopy();
    events := [Inserted(n, held.fields)];
    if c.canary == Local {
      held.InsertOne(here.id);
    }
    next := original.DeepCopy();
  }

  /** Copies the data if asked to, to the path of this loop. */
  method BackUp(c: Config, n: nat, base: string, path: string) returns (path': string, events: seq<Event>)
    requires n >= 1 && (c.rsync ==> path == PathBefore(base, n))
    ensures events == BackupEvents(c, base, n)
    ensures c.rsync ==> path' == PathOf(base, n)
  {
    path', events := path, [];
    if c.rsync {
      BackupPathOfLoop(base, n);
      path' := GetBackupPath(path, n);
      events := [Backup(n, base, path, path')];
    }
  }

  /**
   One loop, from recovery to crash. `doc` is the canary to look for; a result that is not `ok` stands for
   an exit or an exception on the way.
   */
  method RunLoop(c: Config, env: seq<Surroundings>, n: nat, doc: Document, before: string, after: string)
    returns (ok: bool, next: Document, before': string, after': string, events: seq<Event>)
    requires 1 <= n <= |env| && (c.canary != Off && n > 1 ==> doc.fields == CanaryOf(env, n - 1))
    requires c.rsync ==> before == PathBefore(c.backupBefore, n) && after == PathBefore(c.backupAfter, n)
    ensures ok <==> LoopOk(c, env, n)
    ensures events == LoopEvents(c, env, n) && EventsFit(c, env, n, events)
    ensures ok && c.canary != Off ==> next.fields == CanaryOf(env, n)
    ensures ok && c.rsync ==> before' == PathBefore(c.backupBefore, n + 1) && after' == PathBefore(c.backupAfter, n + 1)
  {
    LoopEventsFit(c, env, n);
    ok, next, after' := false, doc, after;
    before', events := BackUp(c, n, c.backupBefore, before);
    var recovered, happened := Recover(c, env, n, doc.fields);
    events := events + happened;
    if !recovered {
      return;
    }
    after', happened := BackUp(c, n, c.backupAfter, after);
    events := events + happened;
    if env[n - 1].restart != 0 {
      return;
    }
    if c.canary != Off {
      var held, inserted;
      held, next, inserted := PlantCanary(c, env, n);
      events := events + inserted;
    }
    ok := !env[n - 1].crashRaises;
  }

  /** How many loops were begun. */
  function Loops(env: seq<Surroundings>, status: Status): nat {
    match status
    case Success(n) => n
    case Failed(n) => n
    case Running => |env|
  }

  /** In loop `n` each document validated is the one inserted a loop earlier, and if it is not found the loop fails. */
  ghost predicate EventsFit(c: Config, env: seq<Surroundings>, n: nat, events: seq<Event>)
    requires 1 <= n <= |env|
  {
    forall e :: e in events ==> EventOk(c, env, e) && e.loop == n && (e.Validated? && !e.found ==> !LoopOk(c, env, n))
  }

  lemma LoopEventsFit(c: Config, env: seq<Surroundings>, n: nat)
    requires 1 <= n <= |env|
    ensures EventsFit(c, env, n, LoopEvents(c, env, n))
  {
    forall e | e in LoopEvents(c, env, n)
      ensures EventOk(c, env, e) && e.loop == n && (e.Validated? && !e.found ==> !LoopOk(c, env, n))
    {
      if e in CanaryEvents(c, env, n) {
        CanaryEventOk(c, env, n, e);
      } else {
        assert e in BackupEvents(c, c.backupBefore, n) || e in BackupEvents(c, c.backupAfter, n) || e == Inserted(n, CanaryOf(env, n));
      }
    }
  }

  lemma CanaryEventOk(c: Config, env: seq<Surroundings>, n: nat, e: Event)
    requires 1 <= n <= |env| && e in CanaryEvents(c, env, n)
    ensures EventOk(c, env, e) && e.loop == n && e.Validated? && (!e.found ==> !RecoveryOk(c, env, n))
  {
  }

  /** What loop `n` hands to the next one. */
  ghost predicate CarriedOn(c: Config, env: seq<Surroundings>, n: nat, doc: Fields, before: string, after: string)
    requires n <= |env|
  {
    && (c.canary != Off && n > 0 ==> doc == CanaryOf(env, n))
    && (c.rsync ==> before == PathBefore(c.backupBefore, n + 1) && after == PathBefore(c.backupAfter, n + 1))
  }

  ghost predicate PassedAll(c: Config, env: seq<Surroundings>, n: nat)
    requires n <= |env|
  {
    forall m :: 1 <= m <= n ==> LoopOk(c, env, m) && !LimitReached(c, env, m)
  }

  /** The events of every loop the environment is given for. */
  ghost function Logs(c: Config, env: seq<Surroundings>): (logs: seq<seq<Event>>)
    ensures |logs| == |env| && forall i :: 0 <= i < |logs| ==> logs[i] == LoopEvents(c, env, i + 1)
  {
    seq(|env|, i requires 0 <= i < |env| => LoopEvents(c, env, i + 1))
  }

  /** One list of events for each loop begun. */
  ghost predicate IsLog(c: Config, env: seq<Surroundings>, log: seq<seq<Event>>) {
    log <= Logs(c, env)
  }

  ghost predicate LogFits(c: Config, env: seq<Surroundings>, log: seq<seq<Event>>) {
    |log| <= |env| && forall i :: 0 <= i < |log| ==> EventsFit(c, env, i + 1, log[i])
  }

  lemma PrefixGrows(log: seq<seq<Event>>, logs: seq<seq<Event>>)
    requires log <= logs && |log| < |logs|
    ensures log + [logs[|log|]] <= logs
  {
  }

  /** In every loop each document validated is the one inserted a loop earlier, and one not found ends the test there. */
  ghost predicate CanariesKept(c: Config, env: seq<Surroundings>, log: seq<seq<Event>>, status: Status) {
    forall i, e :: 0 <= i < |log| && e in log[i] ==>
      EventOk(c, env, e) && e.loop == i + 1 && (e.Validated? && !e.found ==> status == Failed(i + 1))
  }

  /** The loop in which the test ends, and how. */
  ghost predicate EndsIn(c: Config, env: seq<Surroundings>, status: Status) {
    match status
    case Success(n) => 1 <= n <= |env| && PassedAll(c, env, n - 1) && LoopOk(c, env, n) && LimitReached(c, env, n)
    case Failed(n) => 1 <= n <= |env| && PassedAll(c, env, n - 1) && !LoopOk(c, env, n)
    case Running => PassedAll(c, env, |env|)
  }

  lemma EndIsUnique(c: Config, env: seq<Surroundings>, status: Status)
    requires EndsIn(c, env, status)
    ensures forall n: nat :: status == Success(n) <==> Begun(c, env, n) && LoopOk(c, env, n) && LimitReached(c, env, n)
    ensures forall n: nat :: status == Failed(n) <==> Begun(c, env, n) && !LoopOk(c, env, n)
  {
    if !status.Running? {
      assert Begun(c, env, Loops(env, status));
      OneEnd(c, env, Loops(env, status));
    }
  }

  lemma CanariesOfLog(c: Config, env: seq<Surroundings>, log: seq<seq<Event>>, status: Status)
    requires LogFits(c, env, log) && |log| == Loops(env, status) && EndsIn(c, env, status)
    ensures CanariesKept(c, env, log, status)
  {
    forall i, e | 0 <= i < |log| && e in log[i]
      ensures EventOk(c, env, e) && e.loop == i + 1 && (e.Validated? && !e.found ==> status == Failed(i + 1))
    {
      assert EventsFit(c, env, i + 1, log[i]);
    }
  }

  /**
   The whole test, for as many loops as the environment is given for: it succeeds after the first loop that reaches
   a limit if no step has failed, and fails in the first loop that has a failing step. Each document validated is
   the one inserted a loop earlier, and a validation that found nothing ends the test in its loop.
   */
  method RunPowercycle(c: Config, env: seq<Surroundings>) returns (status: Status, log: seq<seq<Event>>)
    ensures forall n: nat :: status == Success(n) <==> Begun(c, env, n) && LoopOk(c, env, n) && LimitReached(c, env, n)
    ensures forall n: nat :: status == Failed(n) <==> Begun(c, env, n) && !LoopOk(c, env, n)
    ensures IsLog(c, env, log) && |log| == Loops(env, status)
    ensures CanariesKept(c, env, log, status)
  {
    status, log := RunLoops(c, env);
    EndIsUnique(c, env, status);
    CanariesOfLog(c, env, log, status);
  }

  method RunLoops(c: Config, env: seq<Surroundings>) returns (status: Status, log: seq<seq<Event>>)
    ensures EndsIn(c, env, status) && LogFits(c, env, log)
    ensures IsLog(c, env, log) && |log| == Loops(env, status)
  {
    var doc := new Document(map[]);
    var before, after := c.backupBefore + "-1", c.backupAfter + "-1";
    var numLoops, testTime := c.numLoops, c.testTime;
    if testTime != 0 {
      numLoops := UNLIMITED;
    } else {
      testTime := UNLIMITED;
    }
    var loopNum := 0;
    log := [];
    assert Str(1) == "1";
    while loopNum < |env|
      invariant 0 <= loopNum <= |env| && |log| == loopNum && IsLog(c, env, log) && LogFits(c, env, log)
      invariant CarriedOn(c, env, loopNum, doc.fields, before, after) && PassedAll(c, env, loopNum)
    {
      loopNum := loopNum + 1;
      var ok, happened;
      ok, doc, before, after, happened := RunLoop(c, env, loopNum, doc, before, after);
      PrefixGrows(log, Logs(c, env));
      log := log + [happened];
      if !ok {
        return Failed(loopNum), log;
      }
      if loopNum == numLoops || env[loopNum - 1].testTime >= testTime {
        return Success(loopNum), log;
      }
    }
    return Running, log;
  }

  /** A loop that fails or reaches the limit is the only one to end the test. */
  lemma OneEnd(c: Config, env: seq<Surroundings>, n: nat)
    requires Begun(c, env, n) && (!LoopOk(c, env, n) || LimitReached(c, env, n))
    ensures forall m: nat :: Begun(c, env, m) && (!LoopOk(c, env, m) || LimitReached(c, env, m)) ==> m == n
  {
  }
}
