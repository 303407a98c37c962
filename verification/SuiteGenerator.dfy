/** Writing and rewriting the configuration files of a split suite. */
module SuiteGenerator {
  import opened Sequences
  import opened Text
  import opened SuiteSplit
  import opened Suites
  import opened Selectors
  import opened SuiteFiles

  /** A configuration read from disk, updated in place. */
  class SuiteConfig {
    var selector: Selector

    constructor (selector: Selector)
      ensures this.selector == selector
    {
      this.selector := selector;
    }

    method Update(roots: seq<string>, excludes: seq<string>)
      modifies this
      ensures selector == Updated(old(selector), roots, excludes)
    {
      if roots != [] {
        selector := selector.(roots := roots);
      }
      if excludes != [] {
        if selector.excludeFiles.Some? && selector.excludeFiles.value != [] {
          selector := selector.(excludeFiles := Some(selector.excludeFiles.value + excludes));
        } else {
          selector := selector.(excludeFiles := Some(excludes));
        }
      } else {
        selector := selector.(excludeFiles := None);
      }
    }

    method DeepCopy() returns (copy: SuiteConfig)
      ensures fresh(copy) && copy.selector == selector
    {
      copy := new SuiteConfig(selector);
    }
  }

  function NamesOf(groups: seq<seq<Test>>): (r: seq<seq<string>>)
    ensures |r| == |groups| && forall i :: 0 <= i < |r| ==> r[i] == Names(groups[i])
  {
    seq(|groups|, i requires 0 <= i < |groups| => Names(groups[i]))
  }

  /** The configuration written to one file: a copy of the source, updated. */
  method GenerateSuiteConfig(source: SuiteConfig, roots: seq<string>, excludes: seq<string>) returns (s: Selector)
    ensures s == Updated(source.selector, roots, excludes)
  {
    var config := source.DeepCopy();
    config.Update(roots, excludes);
    s := config.selector;
  }

  ghost function FileNames(l: Layout): (names: seq<string>)
    requires l.Numbered()
    ensures |names| == |l.roots| && forall i :: 0 <= i < |names| ==> names[i] == l.File(i)
  {
    seq(|l.roots|, i requires 0 <= i < |l.roots| => l.File(i))
  }

  ghost function FileContents(l: Layout, source: Selector): (contents: seq<Selector>)
    ensures |contents| == |l.roots| && forall i :: 0 <= i < |contents| ==> contents[i] == Updated(source, l.roots[i], [])
  {
    seq(|l.roots|, i requires 0 <= i < |l.roots| => Updated(source, l.roots[i], []))
  }

  lemma FileNamesDiffer(l: Layout)
    requires l.Numbered()
    ensures NoDuplicates(FileNames(l)) && l.Misc() !in FileNames(l)
  {
    forall i, j | 0 <= i < j < |l.roots| ensures FileNames(l)[i] != FileNames(l)[j] {
      FilesOfLayout(l, i, j);
    }
    forall i | 0 <= i < |l.roots| ensures FileNames(l)[i] != l.Misc() {
      FilesOfLayout(l, i, i);
    }
  }

  /** The first `i` files, and no others. */
  ghost predicate RenderedTo(files: map<string, Selector>, names: seq<string>, contents: seq<Selector>, i: nat)
    requires i <= |names| == |contents|
  {
    && (forall k :: 0 <= k < i ==> names[k] in files && files[names[k]] == contents[k])
    && (forall f :: f in files ==> exists k :: 0 <= k < i && f == names[k])
  }

  lemma RenderNext(files: map<string, Selector>, names: seq<string>, contents: seq<Selector>, i: nat)
    requires i < |names| == |contents| && NoDuplicates(names) && RenderedTo(files, names, contents, i)
    ensures RenderedTo(files[names[i] := contents[i]], names, contents, i + 1)
  {
  }

  lemma RenderLast(files: map<string, Selector>, names: seq<string>, contents: seq<Selector>, name: string, s: Selector)
    requires |names| == |contents| && name !in names && RenderedTo(files, names, contents, |names|)
    ensures var files' := files[name := s];
            && (forall k :: 0 <= k < |names| ==> names[k] in files' && files'[names[k]] == contents[k])
            && (forall f :: f in files' ==> f == name || f in names)
  {
  }

  lemma RenderMisc(files: map<string, Selector>, source: Selector, l: Layout)
    requires l.Numbered() && RenderedTo(files, FileNames(l), FileContents(l, source), |l.roots|)
    ensures IsRendered(files[l.Misc() := Updated(source, [], l.given)], source, l)
  {
    FileNamesDiffer(l);
    var names, contents := FileNames(l), FileContents(l, source);
    RenderLast(files, names, contents, l.Misc(), Updated(source, [], l.given));
    NamedIsRendered(files[l.Misc() := Updated(source, [], l.given)], source, l, names, contents);
  }

  lemma NamedIsRendered(files: map<string, Selector>, source: Selector, l: Layout, names: seq<string>, contents: seq<Selector>)
    requires l.Numbered() && names == FileNames(l) && contents == FileContents(l, source)
    requires forall k :: 0 <= k < |names| ==> names[k] in files && files[names[k]] == contents[k]
    requires forall f :: f in files ==> f == l.Misc() || f in names
    requires l.Misc() in files && files[l.Misc()] == Updated(source, [], l.given)
    ensures IsRendered(files, source, l)
  {
    forall i | 0 <= i < |l.roots| ensures l.File(i) in files && files[l.File(i)] == Updated(source, l.roots[i], []) {
      assert names[i] == l.File(i);
    }
    forall f | f in files && f != l.Misc() ensures exists i :: 0 <= i < |l.roots| && f == l.File(i) {
      var k :| 0 <= k < |names| && names[k] == f;
      assert f == l.File(k);
    }
  }

  /** One file per suite, and the misc file. The source configuration is left as it was. */
  method RenderSuiteFiles(suites: seq<Suite>, suiteName: string, testList: seq<string>, source: SuiteConfig,
                          counter: IndexCounter, ghost groups: seq<seq<Test>>, ghost first: nat)
    returns (files: map<string, Selector>)
    requires Hold(suites, groups, suiteName, first) && first + |suites| <= counter.current
    ensures IsRendered(files, source.selector, Layout(suiteName, first, counter.current, NamesOf(groups), testList))
  {
    ghost var l := Layout(suiteName, first, counter.current, NamesOf(groups), testList);
    ghost var names, contents := FileNames(l), FileContents(l, source.selector);
    FileNamesDiffer(l);
    files := map[];
    for i := 0 to |suites|
      invariant RenderedTo(files, names, contents, i)
    {
      var config := GenerateSuiteConfig(source, suites[i].tests, []);
      var name := Basename(suites[i].Name(counter)) + ".yml";
      assert name == names[i] && config == contents[i];
      RenderNext(files, names, contents, i);
      files := files[name := config];
    }
    RenderMisc(files, source.selector, l);
    var misc := GenerateSuiteConfig(source, [], testList);
    files := files[MiscFile(suiteName) := misc];
  }

  /** The rewrite of one file; `changed` says whether it is written back. */
  method ExcludeFromFile(name: string, s: Selector, excludes: seq<string>) returns (changed: bool, s': Selector)
    requires EndsWith(name, "misc.yml") ==> s.excludeFiles.Some?
    ensures s' == RewrittenFile(name, s, excludes) && (!changed ==> s' == s)
    ensures changed <==> EndsWith(name, "misc.yml") || (EndsWith(name, ".yml") && exists x :: x in s.roots && x in excludes)
  {
    var config := new SuiteConfig(s);
    changed := false;
    if EndsWith(name, "misc.yml") {
      var exclude := s.excludeFiles.value;
      exclude := exclude + Absent(excludes, exclude);
      config.selector := config.selector.(excludeFiles := Some(exclude));
      config.Update([], exclude);
      changed := true;
    } else if EndsWith(name, ".yml") {
      var selected := Common(s.roots, excludes);
      assert selected != [] ==> selected[0] in selected;
      if selected != [] {
        config.Update([], selected);
        changed := true;
      }
    }
    s' := config.selector;
  }

  /** Rewrites the generated files so that they no longer run the excluded tests. `listing` is the directory listing. */
  method GenerateExcludeYaml(files: map<string, Selector>, listing: seq<string>, excludes: seq<string>)
    returns (files': map<string, Selector>)
    requires NoDuplicates(listing) && Elements(listing) == files.Keys
    requires forall f :: f in files && EndsWith(f, "misc.yml") ==> files[f].excludeFiles.Some?
    ensures files' == AfterExclusion(files, excludes)
  {
    if excludes == [] {
      return files;
    }
    var updates: map<string, Selector> := map[];
    ghost var goal := RewrittenFiles(files, excludes);
    for i := 0 to |listing|
      invariant UpdatedTo(files, goal, updates, listing, i)
    {
      var name := listing[i];
      assert name in Elements(listing);
      var changed, rewritten := ExcludeFromFile(name, files[name], excludes);
      UpdateNext(files, goal, updates, listing, i, changed, rewritten);
      if changed {
        updates := updates[name := rewritten];
      }
    }
    AllUpdated(files, goal, updates, listing);
    files' := files + updates;
  }

  /** What is to be written back for the first `i` files listed. */
  ghost predicate UpdatedTo(files: map<string, Selector>, goal: map<string, Selector>, updates: map<string, Selector>,
                            listing: seq<string>, i: nat)
    requires i <= |listing| && goal.Keys == files.Keys
  {
    && (forall f :: f in updates ==> f in files && updates[f] == goal[f])
    && (forall j :: 0 <= j < i ==> listing[j] in updates || (listing[j] in files && files[listing[j]] == goal[listing[j]]))
  }

  lemma UpdateNext(files: map<string, Selector>, goal: map<string, Selector>, updates: map<string, Selector>,
                   listing: seq<string>, i: nat, changed: bool, rewritten: Selector)
    requires i < |listing| && goal.Keys == files.Keys && UpdatedTo(files, goal, updates, listing, i) && listing[i] in files
    requires rewritten == goal[listing[i]] && (!changed ==> rewritten == files[listing[i]])
    ensures UpdatedTo(files, goal, if changed then updates[listing[i] := rewritten] else updates, listing, i + 1)
  {
  }

  lemma AllUpdated(files: map<string, Selector>, goal: map<string, Selector>, updates: map<string, Selector>, listing: seq<string>)
    requires goal.Keys == files.Keys && UpdatedTo(files, goal, updates, listing, |listing|) && Elements(listing) == files.Keys
    ensures files + updates == goal
  {
    forall f | f in files ensures (files + updates)[f] == goal[f] {
      assert f in Elements(listing);
      var j :| 0 <= j < |listing| && listing[j] == f;
    }
  }

  // ---------- The whole generator ----------

  lemma {:induction false} NamesIsFlatMap(tests: seq<Test>)
    ensures Names(tests) == FlatMap((t: Test) => [t.name], tests)
  {
    if tests != [] {
      NamesIsFlatMap(tests[1..]);
      assert Names(tests) == [tests[0].name] + Names(tests[1..]);
    }
  }

  lemma {:induction false} FlattenNames(groups: seq<seq<Test>>)
    ensures Flatten(NamesOf(groups)) == Names(Flatten(groups))
  {
    if groups != [] {
      FlattenNames(groups[1..]);
      assert NamesOf(groups)[1..] == NamesOf(groups[1..]);
      assert Names(groups[0] + Flatten(groups[1..])) == Names(groups[0]) + Names(Flatten(groups[1..]));
    }
  }

  /** The suites of a division partition the names of the tests divided. */
  lemma DivisionPartitions(suiteName: string, total: nat, tests: seq<Test>, caps: Caps)
    requires tests != [] && NoDuplicates(Names(tests)) && |Divide(tests, caps)| <= total
    ensures Layout(suiteName, 0, total, NamesOf(Divide(tests, caps)), Names(tests)).Valid()
  {
    var groups := Divide(tests, caps);
    DivideConserves(tests, caps);
    FlattenNames(groups);
    NamesIsFlatMap(Flatten(groups));
    NamesIsFlatMap(tests);
    FlatMapPermute((t: Test) => [t.name], Flatten(groups), tests);
    forall i | 0 <= i < |groups| ensures NamesOf(groups)[i] != [] {
      DivideLeavesNoneEmpty(tests, caps, i);
    }
  }

  /**
   Dividing by runtime and writing the files: with no include_files in the source, every test the source
   suite runs is run by exactly one of the files written, whatever the caps are.
   */
  method GenerateSuiteFiles(suiteName: string, tests: seq<Test>, caps: Caps, source: SuiteConfig, counter: IndexCounter,
                            ghost tagged: set<string>, ghost runs: set<string>)
    returns (files: map<string, Selector>, ghost l: Layout)
    requires tests != [] && NoDuplicates(Names(tests)) && Elements(Names(tests)) <= runs
    requires Runs(source.selector, tagged, runs)
    modifies counter
    ensures IsSource(source.selector, l, tagged, runs) && IsRendered(files, source.selector, l)
    ensures (forall t :: t in runs ==> RunsOnce(files, tagged, t)) <==> source.selector.includeFiles == []
  {
    var suites := DivideTestsIntoSuites(suiteName, tests, caps, counter);
    ghost var groups := Divide(tests, caps);
    var testList := Names(tests);
    files := RenderSuiteFiles(suites, suiteName, testList, source, counter, groups, 0);
    DivisionPartitions(suiteName, counter.current, tests, caps);
    l := Layout(suiteName, 0, counter.current, NamesOf(groups), testList);
    SplitRunsEachTestOnce(files, source.selector, l, tagged, runs);
  }

  // ---------- Without test history ----------

  lemma {:induction false} EmptyFlattens(count: nat)
    ensures Flatten(Empty(count)) == []
  {
    if count > 0 {
      EmptyFlattens(count - 1);
      assert Empty(count)[1..] == Empty(count - 1);
    }
  }

  /** The fallback suites partition the tests of the suite. */
  lemma FallbackPartitions(suiteName: string, first: nat, tests: seq<string>, count: nat)
    requires NoDuplicates(tests) && 1 <= count <= |tests|
    ensures Layout(suiteName, first, first + count, NamesOf(Deal(Empty(count), Untimed(tests), 0)), tests).Valid()
  {
    var untimed, groups := Untimed(tests), Deal(Empty(count), Untimed(tests), 0);
    DealConserves(Empty(count), untimed, 0);
    EmptyFlattens(count);
    FlattenNames(groups);
    NamesIsFlatMap(Flatten(groups));
    NamesIsFlatMap(untimed);
    FlatMapPermute((t: Test) => [t.name], Flatten(groups), untimed);
    assert Names(untimed) == tests;
    forall i | 0 <= i < count ensures NamesOf(groups)[i] != [] {
      DealtIsNonempty(untimed, count, i);
    }
  }

  /** With no more suites than tests, each suite is dealt a test. */
  lemma DealtIsNonempty(tests: seq<Test>, count: nat, i: nat)
    requires i < count <= |tests|
    ensures Deal(Empty(count), tests, 0)[i] != []
  {
    DealAppends(Empty(count), tests, 0, i);
    EveryAt(tests, i, count, 0);
  }

  /** The same for a suite without test history, whose every test is dealt out. */
  method GenerateFallbackFiles(suiteName: string, tests: seq<string>, fallback: nat, maxSuites: nat, source: SuiteConfig,
                               counter: IndexCounter, ghost tagged: set<string>, ghost runs: set<string>)
    returns (files: map<string, Selector>, ghost l: Layout)
    requires fallback >= 1 && maxSuites >= 1 && tests != [] && NoDuplicates(tests)
    requires Runs(source.selector, tagged, runs) && Elements(tests) <= runs
    modifies counter
    ensures IsSource(source.selector, l, tagged, runs) && IsRendered(files, source.selector, l)
    ensures (forall t :: t in runs ==> RunsOnce(files, tagged, t)) <==> source.selector.includeFiles == []
  {
    ghost var first := counter.current;
    var suites := CalculateFallbackSuites(suiteName, tests, fallback, maxSuites, counter);
    ghost var groups := Deal(Empty(|suites|), Untimed(tests), 0);
    files := RenderSuiteFiles(suites, suiteName, tests, source, counter, groups, first);
    FallbackPartitions(suiteName, first, tests, |suites|);
    l := Layout(suiteName, first, counter.current, NamesOf(groups), tests);
    SplitRunsEachTestOnce(files, source.selector, l, tagged, runs);
  }

  // ---------- Splitting, then excluding ----------

  /** os.listdir: the files in some order. */
  method ListDirectory(files: map<string, Selector>) returns (listing: seq<string>)
    ensures NoDuplicates(listing) && Elements(listing) == files.Keys
  {
    listing := [];
    var left := files.Keys;
    while left != {}
      invariant NoDuplicates(listing) && Elements(listing) + left == files.Keys && Elements(listing) !! left
    {
      var f :| f in left;
      assert Elements(listing + [f]) == Elements(listing) + {f};
      listing, left := listing + [f], left - {f};
    }
  }

  /** The only generated file whose name ends in "misc.yml" has exclusions to extend. */
  lemma MiscHasExclusions(files: map<string, Selector>, source: Selector, l: Layout)
    requires l.Valid() && IsRendered(files, source, l)
    ensures forall f :: f in files && EndsWith(f, "misc.yml") ==> files[f].excludeFiles.Some?
  {
    forall f | f in files && EndsWith(f, "misc.yml") ensures f == l.Misc() {
      if i :| 0 <= i < |l.roots| && f == l.File(i) {
        FilesOfLayout(l, i, i);
      }
    }
  }

  /**
   The whole chain from runtimes to rewritten files: each test of the source suite that is not excluded runs
   in exactly one file, no excluded one runs and nothing raises, if and only if the source has no
   include_files and knows every excluded test.
   */
  method GenerateThenExclude(suiteName: string, tests: seq<Test>, caps: Caps, source: SuiteConfig, counter: IndexCounter,
                             excludes: seq<string>, ghost tagged: set<string>, ghost runs: set<string>)
    returns (files: map<string, Selector>)
    requires tests != [] && NoDuplicates(Names(tests)) && Elements(Names(tests)) <= runs
    requires Runs(source.selector, tagged, runs)
    modifies counter
    ensures RunAllBut(files, tagged, runs, excludes) <==>
            source.selector.includeFiles == [] && forall x :: x in excludes ==> x in source.selector.roots
  {
    var split;
    ghost var l;
    split, l := GenerateSuiteFiles(suiteName, tests, caps, source, counter, tagged, runs);
    MiscHasExclusions(split, source.selector, l);
    var listing := ListDirectory(split);
    files := GenerateExcludeYaml(split, listing, excludes);
    SplitThenExclude(split, source.selector, l, tagged, runs, excludes);
  }
}
