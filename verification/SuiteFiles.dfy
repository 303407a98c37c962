/** From a division into suites to the configuration files on disk, and their later rewrite. */
module SuiteFiles {
  import opened Sequences
  import opened Text
  import opened TaskName
  import opened Selectors

  // ---------- File names ----------

  /** os.path.basename */
  function Basename(path: string): string {
    if '/' in path then Basename(path[1..]) else path
  }

  function SuiteFile(suiteName: string, index: nat, total: nat): string
    requires total >= 1
  {
    Basename(NameGeneratedTask(suiteName, index, total, None)) + ".yml"
  }

  function MiscFile(suiteName: string): string {
    Basename(suiteName) + "_misc.yml"
  }

  lemma {:induction false} BasenameAppend(a: string, b: string)
    requires '/' !in b
    ensures Basename(a + b) == Basename(a) + b
  {
    if '/' in a {
      assert (a + b)[1..] == a[1..] + b;
      BasenameAppend(a[1..], b);
    }
  }

  lemma SuiteFileShape(suiteName: string, index: nat, total: nat)
    requires index < total
    ensures var w := if total == 1 then 1 else IndexWidth(total);
            && w >= 1 && index < Pow10(w)
            && SuiteFile(suiteName, index, total) == Basename(suiteName) + "_" + Padded(index, w) + ".yml"
  {
    NumeralsArePadded(index, total);
    var w := if total == 1 then 1 else IndexWidth(total);
    var numeral := Padded(index, w);
    assert '/' !in "_" + numeral;
    BasenameAppend(suiteName, "_" + numeral);
    ConcatAssociates(suiteName, "_", numeral);
    ConcatAssociates(Basename(suiteName), "_", numeral);
    assert suiteName + "_" + numeral + "" == suiteName + "_" + numeral;
  }

  lemma SuiteFilesAreDistinct(suiteName: string, total: nat, i: nat, j: nat)
    requires i < total && j < total
    ensures SuiteFile(suiteName, i, total) == SuiteFile(suiteName, j, total) <==> i == j
  {
    SuiteFileShape(suiteName, i, total);
    SuiteFileShape(suiteName, j, total);
    var w := if total == 1 then 1 else IndexWidth(total);
    PaddedOrder(i, j, w);
    LessInContext(Basename(suiteName) + "_", Padded(i, w), Padded(j, w), ".yml");
  }

  /** A file whose name ends in a digit and ".yml" does not look like a misc file. */
  lemma DigitYml(prefix: string, numeral: string)
    requires numeral != "" && IsDigits(numeral)
    ensures var f := prefix + numeral + ".yml"; EndsWith(f, ".yml") && !EndsWith(f, "misc.yml")
  {
    var f := prefix + numeral + ".yml";
    assert f[|f| - 4..] == ".yml";
    assert f[|f| - 5] == numeral[|numeral| - 1];
    assert |f| >= 8 ==> f[|f| - 8..][3] == f[|f| - 5];
    assert "misc.yml"[3] == 'c';
  }

  lemma SuiteFileIsYml(suiteName: string, index: nat, total: nat)
    requires index < total
    ensures EndsWith(SuiteFile(suiteName, index, total), ".yml") && !EndsWith(SuiteFile(suiteName, index, total), "misc.yml")
  {
    SuiteFileShape(suiteName, index, total);
    DigitYml(Basename(suiteName) + "_", Padded(index, if total == 1 then 1 else IndexWidth(total)));
  }

  lemma MiscYml(prefix: string)
    ensures EndsWith(prefix + "_misc.yml", "misc.yml")
  {
  }

  // ---------- The files of a split ----------

  /** The suites of one division: consecutive numbers from `first`, below `total`; `given` are all their tests. */
  datatype Layout = Layout(suiteName: string, first: nat, total: nat, roots: seq<seq<string>>, given: seq<string>) {
    predicate Numbered() {
      first + |roots| <= total
    }

    ghost predicate Valid() {
      && Numbered() && given != [] && NoDuplicates(given)
      && multiset(Flatten(roots)) == multiset(given)
      && forall i :: 0 <= i < |roots| ==> roots[i] != []
    }

    function File(i: nat): string
      requires i < |roots| && Numbered()
    {
      SuiteFile(suiteName, first + i, total)
    }

    function Misc(): string {
      MiscFile(suiteName)
    }
  }

  /** One file per suite with that suite's tests as roots, and the misc file that excludes them all. */
  ghost predicate IsRendered(files: map<string, Selector>, source: Selector, l: Layout)
    requires l.Numbered()
  {
    && (forall i :: 0 <= i < |l.roots| ==> l.File(i) in files && files[l.File(i)] == Updated(source, l.roots[i], []))
    && l.Misc() in files && files[l.Misc()] == Updated(source, [], l.given)
    && (forall f :: f in files ==> f == l.Misc() || exists i :: 0 <= i < |l.roots| && f == l.File(i))
  }

  /** Exactly one of the files runs `t`. */
  ghost predicate RunsOnce(files: map<string, Selector>, tagged: set<string>, t: string) {
    exists f :: f in files && RunsIn(files[f], tagged, t) &&
      forall f' :: f' in files && RunsIn(files[f'], tagged, t) ==> f' == f
  }

  ghost predicate RunsIn(s: Selector, tagged: set<string>, t: string) {
    Select(s, tagged).Selected? && t in Select(s, tagged).tests
  }

  lemma {:induction false} InFlatten<T>(ss: seq<seq<T>>, x: T)
    ensures x in Flatten(ss) <==> exists i :: 0 <= i < |ss| && x in ss[i]
  {
    if ss != [] {
      InFlatten(ss[1..], x);
      if i :| 0 <= i < |ss| && x in ss[i] {
        assert i > 0 ==> x in ss[1..][i - 1];
      }
      if i :| 0 <= i < |ss[1..]| && x in ss[1..][i] {
        assert x in ss[i + 1];
      }
    }
  }

  lemma {:induction false} CountInFlatten<T>(ss: seq<seq<T>>, x: T, i: nat, j: nat)
    requires i < j < |ss| && x in ss[i] && x in ss[j]
    ensures multiset(Flatten(ss))[x] >= 2
  {
    assert Flatten(ss) == ss[0] + Flatten(ss[1..]);
    if i == 0 {
      InFlatten(ss[1..], x);
      assert x in ss[1..][j - 1];
      assert x in multiset(Flatten(ss[1..]));
    } else {
      CountInFlatten(ss[1..], x, i - 1, j - 1);
    }
  }

  lemma {:induction false} NoDuplicatesCount<T>(s: seq<T>, x: T)
    requires NoDuplicates(s)
    ensures multiset(s)[x] <= 1
  {
    if s != [] {
      NoDuplicatesCount(s[1..], x);
      assert s == [s[0]] + s[1..];
    }
  }

  lemma PartitionUnique(l: Layout, x: string)
    requires l.Valid()
    ensures x in l.given <==> exists i :: 0 <= i < |l.roots| && x in l.roots[i]
    ensures forall i, j :: 0 <= i < j < |l.roots| && x in l.roots[i] ==> x !in l.roots[j]
  {
    InFlatten(l.roots, x);
    assert x in l.given <==> x in multiset(l.given);
    NoDuplicatesCount(l.given, x);
    forall i, j | 0 <= i < j < |l.roots| && x in l.roots[i] ensures x !in l.roots[j] {
      if x in l.roots[j] {
        CountInFlatten(l.roots, x, i, j);
        assert false;
      }
    }
  }

  /** The source configuration runs `tests`, the ones given among them. */
  ghost predicate IsSource(source: Selector, l: Layout, tagged: set<string>, tests: set<string>) {
    l.Valid() && Runs(source, tagged, tests) && Elements(l.given) <= tests
  }

  /** What each file of the split runs. */
  lemma RenderedRuns(files: map<string, Selector>, source: Selector, l: Layout, tagged: set<string>, tests: set<string>)
    requires IsSource(source, l, tagged, tests) && IsRendered(files, source, l)
    ensures forall i :: 0 <= i < |l.roots| ==> Runs(files[l.File(i)], tagged, Elements(l.roots[i]))
    ensures Runs(files[l.Misc()], tagged, if source.includeFiles == [] then tests - Elements(l.given) else tests)
  {
    forall i | 0 <= i < |l.roots| ensures Runs(files[l.File(i)], tagged, Elements(l.roots[i])) {
      forall t | t in l.roots[i] ensures t in tests {
        PartitionUnique(l, t);
        assert t in Elements(l.given);
      }
      SubSuiteRuns(source, tagged, tests, l.roots[i]);
    }
    MiscSuiteRuns(source, tagged, tests, l.given);
  }

  /** The file that holds `t`: its suite's, or else the misc file. */
  ghost function FileOf(l: Layout, t: string): string
    requires l.Valid()
  {
    if i :| 0 <= i < |l.roots| && t in l.roots[i] then l.File(i) else l.Misc()
  }

  /** No two suites share a file, and only the misc file is taken for one. */
  lemma FilesOfLayout(l: Layout, i: nat, j: nat)
    requires l.Numbered() && i < |l.roots| && j < |l.roots|
    ensures l.File(i) == l.File(j) <==> i == j
    ensures EndsWith(l.File(i), ".yml") && !EndsWith(l.File(i), "misc.yml")
    ensures EndsWith(l.Misc(), "misc.yml") && l.File(i) != l.Misc()
  {
    SuiteFilesAreDistinct(l.suiteName, l.total, l.first + i, l.first + j);
    SuiteFileIsYml(l.suiteName, l.first + i, l.total);
    MiscYml(Basename(l.suiteName));
  }

  lemma FileOfIsUnique(l: Layout, t: string, i: nat)
    requires l.Valid() && i < |l.roots|
    ensures l.File(i) == FileOf(l, t) <==> t in l.roots[i]
    ensures l.Misc() == FileOf(l, t) <==> t !in l.given
  {
    PartitionUnique(l, t);
    if k :| 0 <= k < |l.roots| && t in l.roots[k] && FileOf(l, t) == l.File(k) {
      FilesOfLayout(l, i, k);
      FilesOfLayout(l, k, k);
    } else {
      FilesOfLayout(l, i, i);
    }
  }

  /** With no include_files, a test of the source suite runs in its own file and nowhere else. */
  lemma OnlyFileOfRuns(files: map<string, Selector>, source: Selector, l: Layout, tagged: set<string>, tests: set<string>,
                       t: string, f: string)
    requires IsSource(source, l, tagged, tests) && IsRendered(files, source, l)
    requires source.includeFiles == [] && f in files
    ensures RunsIn(files[f], tagged, t) <==> t in tests && f == FileOf(l, t)
    ensures FileOf(l, t) in files
  {
    RenderedRuns(files, source, l, tagged, tests);
    PartitionUnique(l, l.given[0]);
    FileOfIsUnique(l, t, 0);
    if f == l.Misc() {
    } else {
      var i :| 0 <= i < |l.roots| && f == l.File(i);
      FileOfIsUnique(l, t, i);
      PartitionUnique(l, t);
      assert t in l.given ==> t in Elements(l.given);
    }
  }

  /** Every test of the source suite runs in exactly one generated file if and only if include_files is empty. */
  lemma SplitRunsEachTestOnce(files: map<string, Selector>, source: Selector, l: Layout, tagged: set<string>, tests: set<string>)
    requires IsSource(source, l, tagged, tests) && IsRendered(files, source, l)
    ensures (forall t :: t in tests ==> RunsOnce(files, tagged, t)) <==> source.includeFiles == []
  {
    if source.includeFiles == [] {
      forall t | t in tests ensures RunsOnce(files, tagged, t) {
        var f := FileOf(l, t);
        OnlyFileOfRuns(files, source, l, tagged, tests, t, l.Misc());
        forall f' | f' in files ensures RunsIn(files[f'], tagged, t) <==> f' == f {
          OnlyFileOfRuns(files, source, l, tagged, tests, t, f');
        }
        assert f in files && RunsIn(files[f], tagged, t);
      }
    } else {
      var t := l.given[0];
      RenderedRuns(files, source, l, tagged, tests);
      PartitionUnique(l, t);
      var i :| 0 <= i < |l.roots| && t in l.roots[i];
      FilesOfLayout(l, i, i);
      assert t in Elements(l.roots[i]) && t in Elements(l.given);
      assert RunsIn(files[l.File(i)], tagged, t) && RunsIn(files[l.Misc()], tagged, t);
      assert !RunsOnce(files, tagged, t);
    }
  }

  // ---------- The exclusion rewrite ----------

  function RewrittenFile(name: string, s: Selector, excludes: seq<string>): Selector {
    if EndsWith(name, "misc.yml") then ExcludeFromMisc(s, excludes)
    else if EndsWith(name, ".yml") then ExcludeFromSub(s, excludes)
    else s
  }

  function RewrittenFiles(files: map<string, Selector>, excludes: seq<string>): map<string, Selector> {
    map f | f in files :: RewrittenFile(f, files[f], excludes)
  }

  /** When the rewrite takes exactly the excluded tests out of what a file runs. */
  lemma {:induction false} RewriteRuns(files: map<string, Selector>, source: Selector, l: Layout, tagged: set<string>, tests: set<string>,
                    excludes: seq<string>, f: string)
    requires IsSource(source, l, tagged, tests) && IsRendered(files, source, l) && excludes != [] && f in files
    ensures Select(files[f], tagged).Selected?
    ensures Runs(RewrittenFile(f, files[f], excludes), tagged, Select(files[f], tagged).tests - Elements(excludes)) <==>
            && (f == l.Misc() ==> forall x :: x in excludes ==> x in source.roots)
            && (source.includeFiles == [] || Select(files[f], tagged).tests !! Elements(excludes))
  {
    RenderedRuns(files, source, l, tagged, tests);
    var ran := Select(files[f], tagged).tests;
    if f == l.Misc() {
      MiscYml(Basename(l.suiteName));
      MiscExclusionRuns(files[f], tagged, ran, excludes);
    } else {
      var i :| 0 <= i < |l.roots| && f == l.File(i);
      FilesOfLayout(l, i, i);
      SubExclusionRuns(files[f], tagged, ran, excludes);
    }
  }

  /** No file raises, each test that is not excluded runs in exactly one file, and no excluded test runs. */
  ghost predicate RunAllBut(files: map<string, Selector>, tagged: set<string>, tests: set<string>, excludes: seq<string>) {
    && (forall f :: f in files ==> Select(files[f], tagged).Selected?)
    && (forall t :: t in tests ==>
          if t in excludes then forall f :: f in files ==> !RunsIn(files[f], tagged, t) else RunsOnce(files, tagged, t))
  }

  /** A test named by include_files runs in every file that has it as a root, whatever is excluded. */
  lemma ForcedRuns(name: string, s: Selector, tagged: set<string>, excludes: seq<string>, t: string)
    requires t in s.roots && t in s.includeFiles && Select(RewrittenFile(name, s, excludes), tagged).Selected?
    ensures RunsIn(RewrittenFile(name, s, excludes), tagged, t)
  {
  }

  lemma ForcedRunsTwice(files: map<string, Selector>, source: Selector, l: Layout, tagged: set<string>, tests: set<string>,
                        excludes: seq<string>)
    requires IsSource(source, l, tagged, tests) && IsRendered(files, source, l) && source.includeFiles != []
    ensures !RunAllBut(RewrittenFiles(files, excludes), tagged, tests, excludes)
  {
    var files', t := RewrittenFiles(files, excludes), l.given[0];
    PartitionUnique(l, t);
    var i :| 0 <= i < |l.roots| && t in l.roots[i];
    FilesOfLayout(l, i, i);
    assert t in Elements(l.given);
    var f, misc := l.File(i), l.Misc();
    if Select(files'[f], tagged).Selected? && Select(files'[misc], tagged).Selected? {
      ForcedRuns(f, files[f], tagged, excludes, t);
      ForcedRuns(misc, files[misc], tagged, excludes, t);
      assert RunsIn(files'[f], tagged, t) && RunsIn(files'[misc], tagged, t) && f != misc;
      assert !RunsOnce(files', tagged, t);
    }
  }

  lemma UnknownRaises(files: map<string, Selector>, source: Selector, l: Layout, tagged: set<string>, excludes: seq<string>, x: string)
    requires l.Valid() && IsRendered(files, source, l) && x in excludes && x !in source.roots
    ensures !Select(RewrittenFiles(files, excludes)[l.Misc()], tagged).Selected?
  {
    MiscYml(Basename(l.suiteName));
    MiscExcluded(files[l.Misc()], excludes);
  }

  /** With no include_files and no unknown test, the rewrite takes out the excluded tests and nothing else. */
  lemma ExcludesTaken(files: map<string, Selector>, source: Selector, l: Layout, tagged: set<string>, tests: set<string>,
                      excludes: seq<string>)
    requires IsSource(source, l, tagged, tests) && IsRendered(files, source, l) && source.includeFiles == []
    requires excludes != [] && forall x :: x in excludes ==> x in source.roots
    ensures RunAllBut(RewrittenFiles(files, excludes), tagged, tests, excludes)
  {
    var files' := RewrittenFiles(files, excludes);
    SplitRunsEachTestOnce(files, source, l, tagged, tests);
    forall f | f in files
      ensures Select(files'[f], tagged).Selected?
      ensures forall t :: RunsIn(files'[f], tagged, t) <==> RunsIn(files[f], tagged, t) && t !in excludes
    {
      RewriteRuns(files, source, l, tagged, tests, excludes, f);
      TakenOut(files[f], files'[f], tagged, excludes);
    }
    forall t | t in tests && t !in excludes ensures RunsOnce(files', tagged, t) {
      OnceStays(files, files', tagged, t);
    }
  }

  lemma TakenOut(s: Selector, s': Selector, tagged: set<string>, excludes: seq<string>)
    requires Select(s, tagged).Selected? && Runs(s', tagged, Select(s, tagged).tests - Elements(excludes))
    ensures forall t :: RunsIn(s', tagged, t) <==> RunsIn(s, tagged, t) && t !in excludes
  {
  }

  lemma OnceStays(files: map<string, Selector>, files': map<string, Selector>, tagged: set<string>, t: string)
    requires RunsOnce(files, tagged, t) && files'.Keys == files.Keys
    requires forall f :: f in files ==> (RunsIn(files'[f], tagged, t) <==> RunsIn(files[f], tagged, t))
    ensures RunsOnce(files', tagged, t)
  {
  }

  /** What the exclusion step makes of the files; without tests to exclude it leaves them alone. */
  function AfterExclusion(files: map<string, Selector>, excludes: seq<string>): map<string, Selector> {
    if excludes == [] then files else RewrittenFiles(files, excludes)
  }

  /**
   Split, then exclude: each remaining test of the source suite runs in exactly one file and an excluded test
   in none, if and only if the source has no include_files and knows every excluded test.
   */
  lemma {:induction false} SplitThenExclude(files: map<string, Selector>, source: Selector, l: Layout, tagged: set<string>,
                                            tests: set<string>, excludes: seq<string>)
    requires IsSource(source, l, tagged, tests) && IsRendered(files, source, l)
    ensures RunAllBut(AfterExclusion(files, excludes), tagged, tests, excludes) <==>
            source.includeFiles == [] && forall x :: x in excludes ==> x in source.roots
  {
    if excludes == [] {
      SplitRunsEachTestOnce(files, source, l, tagged, tests);
      RenderedRuns(files, source, l, tagged, tests);
    } else if source.includeFiles != [] {
      ForcedRunsTwice(files, source, l, tagged, tests, excludes);
    } else if x :| x in excludes && x !in source.roots {
      UnknownRaises(files, source, l, tagged, excludes, x);
    } else {
      ExcludesTaken(files, source, l, tagged, tests, excludes);
    }
  }

  /** The part of a path behind its last slash. */
  lemma {:induction false} BasenameExactly(path: string)
    ensures '/' !in Basename(path) && EndsWith(path, Basename(path))
    ensures |Basename(path)| < |path| ==> path[|path| - |Basename(path)| - 1] == '/'
  {
    if '/' in path {
      BasenameExactly(path[1..]);
      if '/' !in path[1..] {
        assert Basename(path) == path[1..] && path[0] == '/';
      } else {
        assert |Basename(path[1..])| < |path[1..]|;
      }
    }
  }
}
