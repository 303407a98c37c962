# Models of MongoDB's build, CI and debugging tools

This project models the algorithmic cores of the Python tooling that ships with the server: the SCons library
dependency resolver, the resmoke suite splitter and its generated configuration files, the parallel linter
runner, the assertion-code scanner and fixer, the waits-for deadlock detector of the gdb extension, the SCons
cache pruner, the powercycle test loop with its option parser, and the flag printer. Each model does what the
code does; the properties are proved for all inputs, all runs and all interleavings.

`dafny verify dfyconfig.toml` checks everything.

## How the files fit together

| file | content |
|---|---|
| `Sequences`, `Text`, `Digraphs` | shared vocabulary: sequences and multisets, string order and numerals, paths and cycles |
| `Libdeps`, `LibdepsOrder`, `LibdepsNodes` | the resolver: its walk on a graph, what the declared order, visibility and later appends change, the stateful resolver with its two caches |
| `LockGraph` | the waits-for graph |
| `SuiteSplit`, `Suites` | what a division into suites is, and the `Suite` objects and loops that compute it |
| `Selectors`, `SuiteFiles`, `SuiteGenerator`, `TaskName` | which tests a configuration runs, the generated files and their names, the code that writes and rewrites them |
| `ParallelProcess` | worker threads on a shared queue |
| `ErrorScan`, `ErrorFix`, `ErrorCodes`, `LineColumn` | assertion codes: the scan, the edits, the whole command and what it leaves in the files, lines and positions |
| `CachePrune`, `Flags`, `MongodOptions`, `Powercycle` | the four smaller tools |

Where the source mutates objects, so does the model: the resolver's node attributes, the search state of both
graph walks, `Suite`, the configuration dictionaries, the scan's lists, the source files being edited and the
canary document are classes whose methods are proved against a function of the old state. Threads are a step
relation with one program counter per thread. Everything outside the program (clocks, file deletion, remote
calls, the linter function, test runtimes) is a parameter and may behave in any way.

## What turned out differently from what the code's own texts say

- A split suite runs each test exactly once if and only if the source configuration has no `include_files`:
  the selector applies `include_files` last and with force, so they override the misc suite's exclusions
  (`SuiteFiles.SplitRunsEachTestOnce`, `Selectors.IncludeFilesOverrideExclusion`).
- Excluding further tests later makes the misc file unusable as soon as one of them is not among its roots,
  because selection then raises (`Selectors.MiscExclusionRuns`, `Selectors.UnknownExclusionRaises`).
- The flag decoder asks only for flags sorted highest first; with distinct names, every choice of flags is printed
  correctly if and only if each flag is worth more than all later ones together (`Flags.DecodableExactly`, `Flags.OrderAloneIsNotEnough`).
- The code fixer edits codes that are numerically zero, but a lone zero code not spelled "0" is never reported
  (`ErrorFix.EditedExactly`, `ErrorFix.LoneSpellingOverlooked`).
- It also replaces only the first character of a code. The code then found at the place is the one handed out if and
  only if the code was a single digit; a "00" that was handed 7 becomes "70" (`ErrorCodes.HandedOutIsFound`,
  `ErrorCodes.SecondZeroIsKept`). All zeros are replaced by just the codes handed out if and only if every zero is
  spelled "0" (`ErrorCodes.ZerosReplacedExactly`). Otherwise the numbers left behind may even coincide
  (`ErrorCodes.FixedScan`, `ErrorCodes.NumbersMayCollide`).
- Before an edit it prints a line whose number counts form feeds and other line ends that the list it prints from does
  not have, and stops with an exception if the number is too large. Places that a scan found are all replaced if and
  only if before each of them there are fewer such characters than lines from it on (`ErrorFix.SourceTree.ReplaceBadCodes`,
  `ErrorCodes.CheckCodes`, `LineColumn.HasLineExactly`, `ErrorCodes.FormFeedStopsFix`).
- Appending a dependency drops neither cache of the resolver. Walks see it if and only if no non-empty sorted list is
  cached for the node. The lists resolved before stay correct if and only if each already holds the new targets, behind
  the node where it holds the node; with targets in none of them, they stay what resolving gives if and only if no walk
  behind them looks at a new dependency (`LibdepsNodes.CachesAppended`, and `LibdepsNodes.AppendAfterResolve` for a node
  that goes on answering with an empty list).
- The options printed for mongod are read back unchanged if and only if every entry is `Printable`
  (`MongodOptions.RoundTripExactly`); a value "-x" is lost (`MongodOptions.DashValueIsLost`).

## Model

| member | source | states |
|---|---|---|
| Libdeps.VisitKeeps | site_scons/libdeps.py:111-131 | every call of the walk keeps the invariant (the live stack is `walking` minus `marked` and is a path; finished nodes only depend on earlier finished ones) or raises with a cycle, complete or still a path that ends on the stack |
| Libdeps.VisitAllKeeps | site_scons/libdeps.py:120-126 | the same for the loop over a node's dependencies, which marks only nodes reachable from them |
| Libdeps.UnwindStep | site_scons/libdeps.py:128-131 | one exception handler turns a path that ends on the stack into a longer one or into a simple cycle, and leaves a complete cycle alone |
| Libdeps.FinishedWalkIsLinkOrder | site_scons/libdeps.py:146-157 | a walk that ends without error gives a link order and proves that no cycle was reachable |
| Libdeps.ResolveIsExact | site_scons/libdeps.py:134-157 | an error is raised exactly when a cycle of non-Private edges is reachable from a non-Interface dependency, and it reports a simple closed one; otherwise the list is duplicate-free, holds exactly the reachable nodes, and puts every node before its dependencies |
| Libdeps.VisitInOrder | site_scons/libdeps.py:121-126 | at every call of the walk, what an earlier dependency of the node reaches is finished before what only a later one reaches |
| Libdeps.RootsInOrder | site_scons/libdeps.py:150-154 | in the list, what only a later root reaches comes before what an earlier root reaches |
| Libdeps.DependenciesInOrder | site_scons/libdeps.py:121-126 | the same for the dependencies of an inner node |
| Libdeps.UnreachedIsIgnored | site_scons/libdeps.py:111-126 | a resolution that ends without error does not depend on what unreached nodes depend on |
| Libdeps.ExtendedLinkOrder | site_scons/libdeps.py:111-157 | with further edges out of one node and further roots, a link order stays one exactly if it holds the roots and puts the node before its new targets |
| LibdepsOrder.SortSorts | site_scons/libdeps.py:106-106 | direct dependencies are read in the order of their names |
| LibdepsOrder.SortPermutes | site_scons/libdeps.py:106-106 | sorting loses and adds none |
| LibdepsOrder.SortIsStable | site_scons/libdeps.py:106-106 | dependencies on nodes of one name keep their declared order |
| LibdepsOrder.LinkOrderFollowsNames | site_scons/libdeps.py:102-157 | a library whose name sorts later, with all that it alone brings in, is linked before one whose name sorts earlier |
| LibdepsOrder.DeclarationOrderIrrelevant | site_scons/libdeps.py:102-108 | with names that tell nodes apart, two declarations of the same dependencies in different orders give the same list or the same reported cycle |
| LibdepsOrder.HonoredWithinIgnored | site_scons/libdeps.py:76-86 | honouring visibility links a subset of what ignoring it would, and never introduces a cycle |
| LibdepsOrder.VisibilityExactly | site_scons/libdeps.py:76-86 | which listed libraries a target links and which it passes on, with visibility honoured and ignored |
| LibdepsOrder.HiddenAppended | site_scons/libdeps.py:106-123 | appending dependencies of the kind a walk skips does not change what it reads |
| LibdepsOrder.AppendKeepsOrder | site_scons/libdeps.py:254-260 | a link order of a node is one for the dependencies after an append exactly if it was already ordered as they ask for |
| LibdepsOrder.AppendKeepsLibdeps | site_scons/libdeps.py:254-260 | with new targets, a node resolves to the same list after an append exactly if its walk looks at none of the new dependencies |
| LibdepsOrder.OrderMayChange | site_scons/libdeps.py:102-157 | a concrete append after which the old list is still a link order, but resolving gives another one |
| LibdepsNodes.NodeAttributes.GetSortedDirect | site_scons/libdeps.py:102-108 | the sorted list is read and stored; storing it changes nothing that any walk reads; an empty cached list counts as absent |
| LibdepsNodes.NodeAttributes.VisitNode | site_scons/libdeps.py:111-131 | the recursive method leaves `marked`, `walking`, `tsorted` and the propagated error exactly as the walk's specification says, stores the sorted list of every node it enters, and terminates |
| LibdepsNodes.NodeAttributes.VisitChildren | site_scons/libdeps.py:121-123 | the loop stops at the first error and matches the specification |
| LibdepsNodes.NodeAttributes.ComputeLibdeps | site_scons/libdeps.py:146-157 | a cache miss resolves the graph as read |
| LibdepsNodes.NodeAttributes.GetLibdeps | site_scons/libdeps.py:134-157 | a hit returns the cached list; errors are not cached; a miss stores the sorted lists of the node and of all nodes in the result; while the caches hold what recomputing gives, every answer is the resolution of the declared dependencies; while they are merely correct, every answer is a link order of them or the error; both go on holding |
| LibdepsNodes.NodeAttributes.AppendDirect | site_scons/libdeps.py:254-260 | which walks see an appended dependency, and exactly when the two caches stay correct and when they stay what recomputing gives |
| LibdepsNodes.FreshAppended | site_scons/libdeps.py:102-108 | the sorted lists agree with the declarations after an append exactly if nothing was appended or no non-empty list was cached for the node |
| LibdepsNodes.CachesAppended | site_scons/libdeps.py:142-143 | the exact conditions for both caches together, on every state of the caches |
| LibdepsNodes.RecomputableIsInOrder | site_scons/libdeps.py:134-157 | lists that recomputing would give are link orders |
| LibdepsNodes.AppendAfterResolve | site_scons/libdeps.py:142-144 | a concrete append after which the sorted lists are right and the answer is not |
| LockGraph.Graph.AddNode | buildscripts/gdb/mongo_lock.py:114-117 | adds an isolated node once, behind all keys, and no edge |
| LockGraph.Graph.AddEdge | buildscripts/gdb/mongo_lock.py:144-159 | adds exactly that edge and its end points, each behind the others; a key that is there keeps its item; every edge target stays a key |
| LockGraph.Graph.FindFromNode | buildscripts/gdb/mongo_lock.py:125-132 | None exactly if no edge leads to the node; else the first node, in order, with such an edge |
| LockGraph.Graph.RemoveNodesWithoutEdge | buildscripts/gdb/mongo_lock.py:134-142 | keeps exactly the nodes with an edge in or out, in order, and loses no edge |
| LockGraph.Graph.DepthFirstSearch | buildscripts/gdb/mongo_lock.py:203-224 | without a result, everything visited is on the path or on no cycle; a result is a simple chain whose last node has an edge to its first, at the end of a path on which every next node passed over leads to no cycle |
| LockGraph.Graph.TryNext | buildscripts/gdb/mongo_lock.py:214-220 | one round of the loop over the next nodes |
| LockGraph.Graph.DetectCycle | buildscripts/gdb/mongo_lock.py:226-234 | None exactly when the graph is acyclic; otherwise the texts, in order, of a simple cycle: the one at the end of the leftmost trail from the first key that leads to a cycle |
| LockGraph.FirstItemKept | buildscripts/gdb/mongo_lock.py:114-117 | a key stands for the first item that was given with it |
| LockGraph.CollectGraph | buildscripts/gdb/mongo_lock.py:433-440 | the graph has exactly the edges given, keys and next nodes are in the order given, and each key has its first item |
| LockGraph.PrepareGraph | buildscripts/gdb/mongo_lock.py:433-440 | the graph that is searched: the edges given, in order, between the keys at their ends |
| LockGraph.WaitsForGraph | buildscripts/gdb/mongo_lock.py:433-447 | for any nodes and edges added, the whole command reports a cycle exactly if the given edges have one, names each of its nodes by the text of the first item given with that key, and picks the leftmost cycle in the order given |
| SuiteSplit.PackKeepsOrder | buildscripts/evergreen_generate_resmoke_tasks.py:326-341 | packing puts the tests, in order, into consecutive suites |
| SuiteSplit.PackFits | buildscripts/evergreen_generate_resmoke_tasks.py:278-296 | every packed suite is non-empty, within the count cap and within the time cap unless it is a single test |
| SuiteSplit.PackIsGreedy | buildscripts/evergreen_generate_resmoke_tasks.py:278-296 | a suite is closed only where the next test would break a cap, whatever the runtimes |
| SuiteSplit.PackIsMinimal | buildscripts/evergreen_generate_resmoke_tasks.py:326-341 | greedy stays ahead of every order-preserving split that fits |
| SuiteSplit.FirstSuiteIsShort | buildscripts/evergreen_generate_resmoke_tasks.py:278-296 | where greedy closes a suite, the first suite of any other split has ended |
| SuiteSplit.LimitHit | buildscripts/evergreen_generate_resmoke_tasks.py:334-345 | stopping at the limit leaves over exactly the tests that an unlimited packing would put into further suites |
| SuiteSplit.DealAppends | buildscripts/evergreen_generate_resmoke_tasks.py:267-275 | suite k receives every K-th test, in order, behind what it had |
| SuiteSplit.DealPlaces | buildscripts/evergreen_generate_resmoke_tasks.py:267-275 | overflow test j lands in suite j mod K at position j / K behind the packed tests |
| SuiteSplit.DealConserves | buildscripts/evergreen_generate_resmoke_tasks.py:267-275 | dealing neither loses nor duplicates a test |
| SuiteSplit.DealIsBalanced | buildscripts/evergreen_generate_resmoke_tasks.py:862-864 | a deal into empty suites leaves no two more than one test apart |
| SuiteSplit.DivideConserves | buildscripts/evergreen_generate_resmoke_tasks.py:299-347 | for all caps the suites hold exactly the tests given, and there are at most `max_suites` |
| SuiteSplit.DivideLeavesNoneEmpty | buildscripts/evergreen_generate_resmoke_tasks.py:331-341 | no suite is empty |
| SuiteSplit.DivideKeepsCaps | buildscripts/evergreen_generate_resmoke_tasks.py:299-347 | unless the limit on suites is hit, every suite respects the caps and the order |
| SuiteSplit.DivideIsGreedy | buildscripts/evergreen_generate_resmoke_tasks.py:326-341 | the same for the whole division when the limit on suites is not hit |
| SuiteSplit.DividePlaces | buildscripts/evergreen_generate_resmoke_tasks.py:334-345 | when the limit of K suites is hit, the first K suites are packed as without it and the j-th test left over lands in suite j mod K, behind the j / K before it |
| SuiteSplit.DivideIsMinimal | buildscripts/evergreen_generate_resmoke_tasks.py:299-347 | with non-negative runtimes and no limit on suites, the fewest suites of any order-preserving split that fits |
| SuiteSplit.OverflowsIffNeeded | buildscripts/evergreen_generate_resmoke_tasks.py:334-345 | the limit on suites is hit exactly when no split within the caps respects it |
| Suites.Suite.constructor | buildscripts/evergreen_generate_resmoke_tasks.py:467-480 | an empty suite with the next number |
| Suites.Suite.AddTest | buildscripts/evergreen_generate_resmoke_tasks.py:487-497 | total, maximum, count and names keep describing the contents |
| Suites.TimedIsAll | buildscripts/evergreen_generate_resmoke_tasks.py:499-505 | the counter equals the number of tests exactly if each has a runtime |
| Suites.LongestIsMaximum | buildscripts/evergreen_generate_resmoke_tasks.py:494-497 | the longest runtime bounds all others and is that of some test, or zero |
| Suites.Suite.ShouldOverwriteTimeout | buildscripts/evergreen_generate_resmoke_tasks.py:499-505 | true exactly if every test in the suite has a recorded runtime |
| Suites.DivideRemainingTests | buildscripts/evergreen_generate_resmoke_tasks.py:267-275 | the loop with its wrapping index performs the deal on the suite objects |
| Suites.CloseSuite | buildscripts/evergreen_generate_resmoke_tasks.py:331-333 | the closed suite joins the list, the next one is empty and numbered on |
| Suites.PlaceTest | buildscripts/evergreen_generate_resmoke_tasks.py:326-338 | one round of the loop is one step of the packing, or hits the limit on suites |
| Suites.FillSuites | buildscripts/evergreen_generate_resmoke_tasks.py:320-338 | the loop has packed all tests, or stopped at the first one beyond the limit |
| Suites.DivideTestsIntoSuites | buildscripts/evergreen_generate_resmoke_tasks.py:299-347 | the suites hold the division, are numbered from 0, and the class counter is above every number, one more if the limit was hit; the names sort as the suites do |
| Suites.CalculateFallbackSuites | buildscripts/evergreen_generate_resmoke_tasks.py:855-865 | the number of suites, a round-robin deal of all tests into them, and names that sort as the suites do |
| TaskName.IndexWidth | buildscripts/util/taskname.py:20-20 | the least width whose power of ten reaches the total |
| TaskName.NumeralsArePadded | buildscripts/util/taskname.py:20-21 | all indices below the total print with the same number of digits |
| TaskName.NamesFollowIndices | buildscripts/util/taskname.py:6-21 | the names of one parent sort as their indices do and are pairwise distinct |
| TaskName.NamesTellVariants | buildscripts/util/taskname.py:17-21 | a name with a variant is the name without it, an underscore and the variant; different variants give different names |
| Selectors.SelectExactly | buildscripts/resmokelib/selector.py:413-440 | which tests a selector selects, with and without `include_files`, and when it raises |
| Selectors.SubSuiteRuns | buildscripts/evergreen_generate_resmoke_tasks.py:522-532 | a sub-suite's configuration selects exactly the tests given to it |
| Selectors.MiscSuiteRuns | buildscripts/evergreen_generate_resmoke_tasks.py:417-420 | the misc configuration selects the rest, or everything if `include_files` is set |
| Selectors.SubExclusionRuns | buildscripts/evergreen_gen_multiversion_tests.py:441-450 | the rewrite of a sub-suite takes out exactly the excluded tests if and only if `include_files` is empty or nothing was to be taken out |
| Selectors.MiscExclusionRuns | buildscripts/evergreen_gen_multiversion_tests.py:432-440 | the same for a misc file, which moreover needs every excluded test among its roots |
| Selectors.IncludeFilesOverrideExclusion | buildscripts/resmokelib/selector.py:430-438 | a concrete misc suite runs a test it excludes |
| Selectors.UnknownExclusionRaises | buildscripts/resmokelib/selector.py:200-212 | a concrete rewrite after which selection raises |
| SuiteFiles.FilesOfLayout | buildscripts/evergreen_generate_resmoke_tasks.py:413-419 | no two suites share a file name, and only the misc file's name is taken for one |
| SuiteFiles.BasenameExactly | buildscripts/evergreen_generate_resmoke_tasks.py:414-414 | the part of a path behind its last slash |
| SuiteFiles.RenderedRuns | buildscripts/evergreen_generate_resmoke_tasks.py:397-420 | what each generated file runs |
| SuiteFiles.OnlyFileOfRuns | buildscripts/evergreen_generate_resmoke_tasks.py:397-420 | without `include_files`, a test runs in its own file and in no other |
| SuiteFiles.SplitRunsEachTestOnce | buildscripts/evergreen_generate_resmoke_tasks.py:350-420 | every test of the source suite runs in exactly one generated file if and only if `include_files` is empty |
| SuiteFiles.RewriteRuns | buildscripts/evergreen_gen_multiversion_tests.py:430-451 | the rewrite takes exactly the excluded tests out of what a generated file runs if and only if the misc file knows them all, and `include_files` is empty or the file ran none of them |
| SuiteFiles.SplitThenExclude | buildscripts/evergreen_gen_multiversion_tests.py:427-451 | after split and rewrite no file raises, each remaining test runs in exactly one file and no excluded test runs, if and only if `include_files` is empty and every excluded test is a root of the source |
| SuiteGenerator.SuiteConfig.Update | buildscripts/evergreen_generate_resmoke_tasks.py:350-375 | the updated selector: roots replaced if given, exclusions extended, created or dropped |
| SuiteGenerator.GenerateSuiteConfig | buildscripts/evergreen_generate_resmoke_tasks.py:378-394 | the update of a copy; the source configuration stays as it was |
| SuiteGenerator.RenderSuiteFiles | buildscripts/evergreen_generate_resmoke_tasks.py:397-420 | one file per suite and the misc file, none overwriting another |
| SuiteGenerator.ExcludeFromFile | buildscripts/evergreen_gen_multiversion_tests.py:432-450 | the rewrite of one file, and that a file not written back needed no change |
| SuiteGenerator.GenerateExcludeYaml | buildscripts/evergreen_gen_multiversion_tests.py:427-451 | the directory afterwards holds every file rewritten |
| SuiteGenerator.DivisionPartitions | buildscripts/evergreen_generate_resmoke_tasks.py:813-830 | the suites of any division partition the test list that the misc suite excludes |
| SuiteGenerator.FallbackPartitions | buildscripts/evergreen_generate_resmoke_tasks.py:855-865 | so do the fallback suites |
| SuiteGenerator.GenerateSuiteFiles | buildscripts/evergreen_generate_resmoke_tasks.py:813-830 | from runtimes to files: every test runs exactly once, whatever the caps, if and only if `include_files` is empty |
| SuiteGenerator.GenerateFallbackFiles | buildscripts/evergreen_generate_resmoke_tasks.py:855-865 | the same without test history |
| SuiteGenerator.MiscHasExclusions | buildscripts/evergreen_gen_multiversion_tests.py:432-436 | the files a split writes are fit for the rewrite |
| SuiteGenerator.GenerateThenExclude | buildscripts/evergreen_gen_multiversion_tests.py:412-451 | division, rendering, directory listing and rewrite in one: the remaining tests run exactly once and the excluded never, if and only if `include_files` is empty and every excluded test is a root |
| ParallelProcess.WorkerStepKeepsInv | buildscripts/linter/parallel.py:25-48 | every worker step keeps the invariant, including "event set implies queue empty or result False" |
| ParallelProcess.MainStepKeepsInv | buildscripts/linter/parallel.py:54-71 | so does every step of the main thread |
| ParallelProcess.StepConserves | buildscripts/linter/parallel.py:28-48 | each step keeps queued plus running plus finished items equal to the items given |
| ParallelProcess.ItemsConserved | buildscripts/linter/parallel.py:18-71 | the same at every point of every interleaving |
| ParallelProcess.TakenInOrder | buildscripts/linter/parallel.py:28-34 | the items in a call or done are the first ones given, and the rest wait in order |
| ParallelProcess.ReturnIsCorrect | buildscripts/linter/parallel.py:18-71 | in every interleaving False is returned exactly if a call made returned false, and True only if each item was passed to the function exactly as often as given and every call returned true |
| ParallelProcess.StopsEarly | buildscripts/linter/parallel.py:28-28 | once the event is set, no more items are taken than there are workers that had already looked at it |
| ParallelProcess.SomeWorkerCanStep | buildscripts/linter/parallel.py:43-47 | the lock never blocks all workers |
| ParallelProcess.NeverStuck | buildscripts/linter/parallel.py:63-71 | until the function has returned some thread can move on, and once all workers have exited the event is set |
| ParallelProcess.RunsAreBounded | buildscripts/linter/parallel.py:25-71 | no interleaving takes more than 5 steps per item, 6 per worker and 3 in all, timed-out waits aside |
| ErrorScan.Scan.CheckDups | buildscripts/errorcodes.py:131-145 | one location's effect on codes, seen, dups and errors |
| ErrorScan.Scan.ReadErrorCodes | buildscripts/errorcodes.py:123-168 | `dups` lists all locations of each repeated code in scan order, and each location is reported exactly as often as it should be |
| ErrorScan.ScanKnows | buildscripts/errorcodes.py:131-145 | `seen` holds the first location of each code, `dups` all locations of those that repeat |
| ErrorScan.ScanErrors | buildscripts/errorcodes.py:131-145 | `errors` holds the locations of repeated codes, each as often as scanned |
| ErrorScan.ReportedExactly | buildscripts/errorcodes.py:147-152 | a location is reported exactly if its code repeats or is "0" |
| ErrorScan.NothingReported | buildscripts/errorcodes.py:117-120 | the check passes exactly if no two codes are equal and none is "0" |
| ErrorFix.GetNextCode | buildscripts/errorcodes.py:104-114 | one more than the largest code; an error for fewer than two codes |
| ErrorFix.DescendingFalls | buildscripts/errorcodes.py:188-188 | the edits are ordered strictly downwards, without repetition: the last file first, and in each file the last place first |
| ErrorFix.DescendingMembers | buildscripts/errorcodes.py:188-188 | and cover exactly the zero errors |
| Text.LessExactly | buildscripts/errorcodes.py:188-188 | the order of strings is decided at the first difference, a prefix coming first |
| ErrorFix.EditBelow | buildscripts/errorcodes.py:195-204 | an edit in place below all earlier ones adds one position to a simultaneous substitution |
| ErrorFix.EditDecision | buildscripts/errorcodes.py:200-200 | the assertion on the edited text decides whether the original has an untouched '0' there |
| ErrorFix.OneMoreEdit | buildscripts/errorcodes.py:188-208 | one round keeps all files equal to their originals with the edits so far substituted at once |
| ErrorFix.EditsKeepShown | buildscripts/errorcodes.py:190-207 | edits behind a place change neither its line number nor whether the file has that line |
| ErrorFix.PlainIsReplaceable | buildscripts/errorcodes.py:193-196 | in files without other line ends every such line exists |
| ErrorFix.OneMoreReplacement | buildscripts/errorcodes.py:188-208 | the text as edited so far decides, by its lines and the character, whether the original can be replaced at the next place too |
| ErrorFix.SourceTree.LookUpOthers | buildscripts/errorcodes.py:181-185 | fails exactly if an error that is not replaced is in a missing file |
| ErrorFix.SourceTree.ReplaceOne | buildscripts/errorcodes.py:188-208 | one round: writes the edit exactly if the original allows it, and else nothing |
| ErrorFix.SourceTree.ReplaceBadCodes | buildscripts/errorcodes.py:171-208 | succeeds exactly if the files of all errors exist, every place is a '0', no two coincide and the line of each can be shown; every file is its original with the edits made so far substituted at once, all of them on success |
| ErrorFix.FixWritesFreshCodes | buildscripts/errorcodes.py:203-208 | the codes handed out are pairwise distinct and larger than every existing code |
| ErrorFix.EditedExactly | buildscripts/errorcodes.py:180-188 | which scanned locations the fix edits, and in which order |
| ErrorFix.LoneSpellingOverlooked | buildscripts/errorcodes.py:149-152 | a concrete zero code that is not reported |
| ErrorCodes.CodeAfterEdits | buildscripts/errorcodes.py:202-204 | the numeral found at a place after the edits: the edit followed by the digits behind the first one, or the code as it was |
| ErrorCodes.ScannedIsFixable | buildscripts/errorcodes.py:200-200 | the assertion never fails on places that a scan of the files found |
| ErrorCodes.HandedOutIsFound | buildscripts/errorcodes.py:200-208 | the code found at an edited place is the one handed out exactly if the code replaced was a single digit; else it is ten times as large per further digit |
| ErrorCodes.EarlierGetsLarger | buildscripts/errorcodes.py:188-208 | of two edited places the one in the earlier file, or earlier in the same file, is handed the larger code |
| ErrorCodes.OtherCode | buildscripts/errorcodes.py:202-204 | every code that is not edited is found unchanged |
| ErrorCodes.SecondZeroIsKept | buildscripts/errorcodes.py:202-204 | a concrete zero code that becomes ten times the code handed out |
| ErrorCodes.ZerosReplacedExactly | buildscripts/errorcodes.py:171-208 | every zero code is replaced by just the code handed out for it if and only if every zero is spelled "0" |
| ErrorCodes.RescanScans | buildscripts/errorcodes.py:65-77 | each location is in the fixed files again, moved and recoded, and no two are at one place |
| ErrorCodes.FixSeparates | buildscripts/errorcodes.py:171-208 | after the fix two places share a code exactly if they shared one that was not zero or were edited to the same number, and none has "0" |
| ErrorCodes.FixedScan | buildscripts/errorcodes.py:245-248 | a second scan finds nothing wrong exactly if no code other than zero was repeated and the numbers left at the edited places are distinct |
| ErrorCodes.PlainNumbersDistinct | buildscripts/errorcodes.py:203-208 | zeros spelled "0" get distinct numbers |
| ErrorCodes.NumbersMayCollide | buildscripts/errorcodes.py:202-204 | concrete edits that leave the same number at two places |
| ErrorCodes.FormFeedStopsFix | buildscripts/errorcodes.py:193-196 | a form feed before an assertion: the place is found and is a zero, but its line cannot be shown |
| ErrorCodes.ScanCodes | buildscripts/errorcodes.py:117-168 | the scan reports nothing exactly if nothing is wrong, its errors are those the fix is for, and it fails exactly if a reported file is missing |
| ErrorCodes.FixCodes | buildscripts/errorcodes.py:238-239 | the editing branch, and what a second scan finds after it |
| ErrorCodes.CheckCodes | buildscripts/errorcodes.py:211-242 | the whole command: exactly when it ends with nothing, a list, the TypeError of the next code, fixed files or an exception over a file, and what it leaves in the files; on what a scan found, only a line that cannot be shown stops it |
| LineColumn.GetLineAndColumn | buildscripts/errorcodes.py:80-95 | line and column name the character at the offset, and the line is one more than the number of line ends before it; past the end the line is one too many |
| LineColumn.PositionIsUnique | buildscripts/errorcodes.py:92-95 | no other line and column do |
| LineColumn.LineOfOffset | buildscripts/errorcodes.py:88-93 | the line of an offset is one more than the number of line ends before it, for either notion of line |
| LineColumn.HasLineExactly | buildscripts/errorcodes.py:193-196 | the line number counted one way exists the other way exactly if the other line ends before the place are fewer than the lines from it on |
| CachePrune.LatestFirstSorts | buildscripts/scons_cache_prune.py:74-74 | the contents are sorted by access time, and none is lost |
| CachePrune.LatestFirstIsStable | buildscripts/scons_cache_prune.py:74-74 | files of the same access time keep their order |
| CachePrune.TrimStep | buildscripts/scons_cache_prune.py:79-102 | one round tries the oldest file left and keeps the accounting, the order and the need |
| CachePrune.Trim | buildscripts/scons_cache_prune.py:76-102 | the loop terminates, tries files from the oldest on, each only while the total is at or above the target |
| CachePrune.TrimOldest | buildscripts/scons_cache_prune.py:74-104 | sorting and trimming together: which files are tried, in which order, and what the result says |
| CachePrune.PruneCache | buildscripts/scons_cache_prune.py:59-104 | the total counts exactly the files not removed; no file tried is younger than one left; the last removal was needed; from the quota in bytes on, True means the total is below quota times ratio, False that every file was tried and, for a positive target, that a deletion failed |
| CachePrune.SomeFailed | buildscripts/scons_cache_prune.py:79-82 | running out of files above a positive target means a deletion failed |
| Flags.GetFlags | buildscripts/gdb/mongo_printers.py:227-246 | the names the greedy loop takes, or the message for an empty list |
| Flags.GreedyDecodes | buildscripts/gdb/mongo_printers.py:237-246 | the sum of any choice of superincreasing flags decodes to that choice |
| Flags.DecodableExactly | buildscripts/gdb/mongo_printers.py:227-246 | flags with distinct names are printed correctly for every choice if and only if they are superincreasing |
| Flags.OrderAloneIsNotEnough | buildscripts/gdb/mongo_printers.py:231-232 | a concrete sorted list that decodes wrongly |
| MongodOptions.ParseOptionTokens | pytests/powertest.py:395-418 | the loop computes the parse specified token by token, with its two exceptions |
| MongodOptions.PrintOptionTokens | pytests/powertest.py:1042-1050 | the loop prints each entry's option and its non-empty value |
| MongodOptions.PrintedParses | pytests/powertest.py:395-418 | printable options are read back with order, values and forms |
| MongodOptions.TokensReadWell | pytests/powertest.py:403-418 | what every parsed entry looks like and where its value came from |
| MongodOptions.OptionWithValue | pytests/powertest.py:413-417 | an option with '=' sets its value, in place if the name was there, and a plain token after it changes nothing |
| MongodOptions.OptionThenPlain | pytests/powertest.py:409-417 | an option without '=' has no value until plain tokens follow, the last of which is its value |
| MongodOptions.ParseFailsExactly | pytests/powertest.py:404-416 | parsing fails exactly on a bare "-" and on a plain token that comes first |
| MongodOptions.NoDashValues | pytests/powertest.py:404-417 | options that are read back unchanged hold no value that reads like an option |
| MongodOptions.RoundTripExactly | pytests/powertest.py:1042-1050 | printing and parsing is the identity if and only if every entry is printable |
| MongodOptions.DashValueIsLost | pytests/powertest.py:404-417 | a concrete entry whose value comes back as another option |
| Powercycle.BackupPathOfLoop | pytests/powertest.py:1354-1356 | the substitution takes the path of one loop to that of the next, and leaves it alone in the first |
| Powercycle.Document.DeepCopy | pytests/powertest.py:2521-2521 | a fresh document with the same fields |
| Powercycle.Document.InsertOne | pytests/powertest.py:1681-1687 | the driver adds an id to the client's document in place |
| Powercycle.RemoteHandler | pytests/powertest.py:1190-1351 | success exactly if every operation returned 0; otherwise the first non-zero code, and nothing after it ran |
| Powercycle.StartOperationsExactly | pytests/powertest.py:2403-2422 | which operations a start consists of, and in which order |
| Powercycle.StartRemotely | pytests/powertest.py:2403-2427 | returns 0 exactly if every operation of the start does; the canary is looked for exactly if the mode is remote, it is not the first loop and all operations before that one went well |
| Powercycle.Recover | pytests/powertest.py:2423-2461 | ends well exactly if the start, the local canary, the local validation of collections and the shutdown do; whether the previous canary is looked for, and with what result, remotely or locally |
| Powercycle.PlantCanary | pytests/powertest.py:2517-2526 | the document inserted is this loop's; an insert made locally adds the id to that document, and not to the copy kept for the next loop |
| Powercycle.BackUp | pytests/powertest.py:2395-2398 | the copy goes from the path of the loop before to the one that ends in this loop's number |
| Powercycle.RunLoop | pytests/powertest.py:2377-2589 | completes exactly if no step fails; its events are exactly those up to its end or its first failing step; it hands on an unmutated copy of its canary and the next paths |
| Powercycle.GoodLoop | pytests/powertest.py:2395-2526 | a loop without a failing step copies the data, finds the previous canary, copies again and inserts its own canary, in this order |
| Powercycle.LoopEventsFit | pytests/powertest.py:2377-2526 | each document a loop validates is the one inserted a loop earlier, and if it is not found the loop fails |
| Powercycle.RunPowercycle | pytests/powertest.py:2377-2602 | succeeds after loop n exactly if no step of loops 1 to n fails and n is the first to reach a limit; fails in loop n exactly if it is the first with a failing step; the events of every loop begun are exactly its own; each document validated is the one inserted a loop earlier, and a validation that found nothing ends the run in its loop |

## Left out

- SCons itself, emitters' path handling, `SYSLIBDEPS` and link-flag expansion: table lookups around the resolver.
- `LIBDEPS_DEPENDENTS` and `PROGDEPS_DEPENDENTS`: they call the modelled append with one more edge.
- `dependency.target_node` as a string and nodes that are not SCons objects: not part of the graph.
- Regex scanning of C++ sources and YAML reading and writing: locations and configurations are inputs.
- The exclusion step for a suite that is not generated: one update of its configuration.
- Digits other than '0' to '9' in assertion codes.
- Glob patterns, path normalisation and `root` files in selectors: roots and exclusions are expanded file names.
- The set difference of backport files in `get_exclude_files`, `calculate_timeout`, Evergreen task generation: no property beyond their definition.
- DOT rendering and all printing and logging.
- Exceptions raised by the linter function in `parallel_process`: the function is total, as the result is only meant for that case.
- SuiteGenerator.GenerateSuiteFiles: the empty test list is not modelled, since the source then uses the fallback suites; the misc file is always written.
- Suites.CalculateFallbackSuites: a fallback or maximum number of suites below 1 is not modelled, since the source then divides by zero.
- TaskName.IndexWidth: floating-point rounding of the logarithm is not modelled.
- MongodOptions.RoundTripExactly: is about tokens; quoting and splitting by shlex is not modelled.
- Powercycle.RunPowercycle: each remote step is an arbitrary outcome, and so are, taken together, the crash, EC2 restart, ssh checks and boot-time comparison; the clients started between recovery and crash are not modelled.
- File modes, truncation, byte encodings and carriage returns in the code fixer: files are strings as read, with line feeds for carriage returns, and are written back as such.
- LibdepsOrder.AppendKeepsLibdeps: asks for targets that are not in the list yet; a target in it may move (LibdepsOrder.OrderMayChange), and whether the list stays a link order is decided for all targets by LibdepsOrder.AppendKeepsOrder.
- ErrorCodes.RescanScans: that the scan's patterns match nowhere else in the fixed files is not modelled, since the patterns are not, nor is the text that a second match covers.
