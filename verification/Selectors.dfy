/**
 Which tests a suite configuration runs (buildscripts/resmokelib/selector.py), and how the generators
 rewrite configurations (evergreen_generate_resmoke_tasks.py, evergreen_gen_multiversion_tests.py).
 */
module Selectors {
  import opened Sequences

  /** The file part of a selector: roots are expanded file names. */
  datatype Selector = Selector(roots: seq<string>, excludeFiles: Option<seq<string>>, includeFiles: seq<string>)

  /** UnknownExclude is the ValueError for an excluded file that is not among the roots. */
  datatype Selection = Selected(tests: set<string>) | UnknownExclude

  function Excluded(s: Selector): seq<string> {
    if s.excludeFiles.Some? then s.excludeFiles.value else []
  }

  /** `tagged` says which tests pass the tag filter, which is the same for every configuration of a suite. */
  function Select(s: Selector, tagged: set<string>): Selection {
    var roots := set t | t in s.roots;
    if exists x :: x in Excluded(s) && x !in s.roots then UnknownExclude
    else
      var filtered := set t | t in roots && t !in Excluded(s) && t in tagged;
      var included := set t | t in s.includeFiles;
      Selected(if s.includeFiles == [] then filtered else filtered * included + roots * included)
  }

  /** Selection never raises, and yields these tests. */
  ghost predicate Runs(s: Selector, tagged: set<string>, tests: set<string>) {
    Select(s, tagged) == Selected(tests)
  }

  /** update_suite_config; empty lists stand for None. */
  function Updated(s: Selector, roots: seq<string>, excludes: seq<string>): Selector {
    var roots' := if roots != [] then roots else s.roots;
    var exclude' :=
      if excludes == [] then None
      else if Excluded(s) != [] then Some(Excluded(s) + excludes)
      else Some(excludes);
    s.(roots := roots', excludeFiles := exclude')
  }

  // ---------- Splitting ----------

  /** A generated sub-suite runs exactly the tests it was given. */
  lemma SubSuiteRuns(s: Selector, tagged: set<string>, tests: set<string>, roots: seq<string>)
    requires Runs(s, tagged, tests) && roots != [] && Elements(roots) <= tests
    ensures Runs(Updated(s, roots, []), tagged, Elements(roots))
  {
  }

  /** The misc suite runs the rest, unless include_files overrides its exclusions: then it runs everything. */
  lemma MiscSuiteRuns(s: Selector, tagged: set<string>, tests: set<string>, given: seq<string>)
    requires Runs(s, tagged, tests) && given != [] && Elements(given) <= tests
    ensures Runs(Updated(s, [], given), tagged, if s.includeFiles == [] then tests - Elements(given) else tests)
  {
    var misc := Updated(s, [], given);
    assert Excluded(misc) == Excluded(s) + given;
    assert forall t :: t in tests ==> t in s.roots;
    assert forall x :: x in given ==> x in Elements(given);
    var result := Select(misc, tagged);
    assert result.Selected?;
    if s.includeFiles == [] {
      assert result.tests == tests - Elements(given);
    } else {
      assert result.tests == tests;
    }
  }

  // ---------- Excluding more tests later ----------

  /** What the exclusion rewrite does to a misc file: the list is extended in place and then appended to itself. */
  function ExcludeFromMisc(s: Selector, excludes: seq<string>): Selector {
    var extended := Excluded(s) + Absent(excludes, Excluded(s));
    Updated(s.(excludeFiles := Some(extended)), [], extended)
  }

  function Absent(xs: seq<string>, present: seq<string>): (r: seq<string>)
    ensures forall x :: x in r <==> x in xs && x !in present
  {
    if xs == [] then []
    else (if xs[0] in present then [] else [xs[0]]) + Absent(xs[1..], present)
  }

  function Common(xs: seq<string>, others: seq<string>): (r: seq<string>)
    ensures forall x :: x in r <==> x in xs && x in others
  {
    if xs == [] then []
    else (if xs[0] in others then [xs[0]] else []) + Common(xs[1..], others)
  }

  /** Any other file gets the excluded tests among its roots, or is left alone if there are none. */
  function ExcludeFromSub(s: Selector, excludes: seq<string>): Selector {
    var selected := Common(s.roots, excludes);
    if selected == [] then s else Updated(s, [], selected)
  }

  lemma SubExclusionRuns(s: Selector, tagged: set<string>, tests: set<string>, excludes: seq<string>)
    requires Runs(s, tagged, tests)
    ensures Runs(ExcludeFromSub(s, excludes), tagged, tests - Elements(excludes)) <==>
            s.includeFiles == [] || tests !! Elements(excludes)
  {
  }

  /** A misc file accepts the rewrite exactly if every excluded test is one of its roots. */
  lemma MiscExclusionRuns(s: Selector, tagged: set<string>, tests: set<string>, excludes: seq<string>)
    requires Runs(s, tagged, tests) && excludes != []
    ensures Runs(ExcludeFromMisc(s, excludes), tagged, tests - Elements(excludes)) <==>
            (forall x :: x in excludes ==> x in s.roots) && (s.includeFiles == [] || tests !! Elements(excludes))
  {
  }

  lemma MiscExcluded(s: Selector, excludes: seq<string>)
    requires excludes != []
    ensures forall x :: x in Excluded(ExcludeFromMisc(s, excludes)) <==> x in Excluded(s) || x in excludes
    ensures ExcludeFromMisc(s, excludes).roots == s.roots && ExcludeFromMisc(s, excludes).includeFiles == s.includeFiles
  {
  }

  // ---------- Where exclusion does not work ----------

  /** A misc suite that is told to exclude "a" still runs it, because include_files names it. */
  lemma IncludeFilesOverrideExclusion()
    ensures var s := Selector(["a", "b"], None, ["a", "b"]);
            Runs(s, {"a", "b"}, {"a", "b"}) && Runs(Updated(s, [], ["a"]), {"a", "b"}, {"a", "b"})
  {
  }

  /** Excluding a test that is no longer among the roots makes the misc suite unusable. */
  lemma UnknownExclusionRaises()
    ensures var misc := Selector(["a", "b"], Some(["a"]), []);
            Runs(misc, {"a", "b"}, {"b"}) && Select(ExcludeFromMisc(misc, ["gone"]), {"a", "b"}) == UnknownExclude
  {
    var misc := Selector(["a", "b"], Some(["a"]), []);
    assert Select(misc, {"a", "b"}).tests == {"b"};
    MiscExcluded(misc, ["gone"]);
    assert "gone" in ["gone"] && "gone" in Excluded(ExcludeFromMisc(misc, ["gone"]));
  }

  // ---------- What a selector means ----------

  /**
   Without include_files the roots that are not excluded and pass the tag filter; with include_files the roots
   they name, whatever is excluded or filtered. Selection raises exactly if an excluded test is not a root.
   */
  lemma SelectExactly(s: Selector, tagged: set<string>)
    ensures Select(s, tagged).UnknownExclude? <==> exists x :: x in Excluded(s) && x !in s.roots
    ensures Select(s, tagged).Selected? && s.includeFiles == [] ==>
              forall t :: t in Select(s, tagged).tests <==> t in s.roots && t !in Excluded(s) && t in tagged
    ensures Select(s, tagged).Selected? && s.includeFiles != [] ==>
              forall t :: t in Select(s, tagged).tests <==> t in s.roots && t in s.includeFiles
  {
  }
}
