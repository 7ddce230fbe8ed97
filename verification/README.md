# Verified models of the repository's build tooling

The scripts of this repository schedule gates, analyse config types, publish packages, order and
check workspace packages, and rewrite text. This project models their decisive logic in Dafny and
proves what it is for, on all inputs. `dafny verify dfyconfig.toml` checks everything.

- **Gate scheduler** (`Gates`, `CycleDetection`, `GateScheduler`, `ScheduleIndependence`, `WorkBound`).
  Gates wait for others over `needs` (must pass) and `after` (must settle). A step system in which any
  running gate may settle next stands for the event loop; a run is a sequence of start, settle and skip
  events. Cycle detection, validation and the scheduling loop are methods; the laws are about every run.
- **Registry publication** (`RegistrySpec`, `Publication`, `CrashResume`, `PublishVerdicts`). A registry
  with immutable versions and movable tags, a publisher that issues one npm command at a time, and a budget
  of commands after which it is cut off.
- **Config catalog** (`ConfigTypes`, `TypeLookup`, `Legibility`, `LookupExactness`, `TypeWalk`,
  `LookupTermination`, `StepBounds`, `PasteClosure`, `SchemaFold`). Three-valued lookup of a schema key path in a recursive type language, against a
  meaning that quantifies over every reading of what the walk cannot see; the closure of pasted
  declarations; the fold of composed schemas.
- **Project graphs** (`PackageGraph`, `ProjectFaces`). Layered topological order of the packages, and
  the traversal that checks references between Host and Client projects.
- **Worker pool** (`WorkerPool`). Asynchronous workers over one shared counter, under every interleaving.
- **Text** (`LinkDestination`, `LinkSplice`, `TokenRename`, `RenameRoundTrip`, `Rescope`,
  `MarkdownProse`, `JsDocProse`, `ShellQuoting`). Link destinations and their replacement, the package
  rename and its reverse, HTML comments in Markdown, documentation prose, and shell quoting.

`Wrappers`, `Text` and `Sorting` hold what several modules share: optional values, whitespace and
splitting, and a stable sort.

Where a promise does not hold of the code, the code is kept, a lemma gives the input, and the condition
under which it does hold is proved, in both directions unless it is called sufficient:

- A run moves the entry package's `latest` early when the release tag is itself `latest` and the entry
  package is not the last of the bundle (`CrashResume.LatestSafetyCondition`).
- A key path is reported as missing from a config type that has it when the member's name is written in
  quotes or brackets (`Legibility.QuotedMemberIsMissed`, `TypeWalk.QuotedKeyIsReported`), when it is a
  method, an accessor or covered by an index signature, when a second interface of the same name has it
  (`Legibility.SecondInterfaceIsMissed`), behind `keyof` (`Legibility.OperatorMissingRightIff`), and when
  the file's own type bears the name of a wrapper (`Legibility.OwnWrapperIsMissed`). That what the path
  can meet is written as it is meant, which can be read off the declarations, is a sufficient condition
  for every answer to be right (`Legibility.LookupIsSound`); for a member of a literal or of an interface
  without bases, the answer is wrong exactly when some member means the name and none is written so, or
  the other way round (`Legibility.BareAnswerWrongIff`).
- A lookup may answer `unknown` although every reading of the type has the path, or none has: a union that
  names one interface twice enters it twice, and the guard cuts the second visit off
  (`TypeLookup.RepeatedBranchIsUnknown`). That a path meets no declaration twice with equally many steps,
  which can be read off the declarations, is a sufficient condition for `found`, `missing` and `unknown` to
  be exact (`LookupExactness.LookupIsExact`).
- A schema key reads back as the steps it stands for exactly when no member name in it has a dot or ends
  in brackets (`TypeWalk.StepsReadBackIff`, `TypeWalk.DottedNameIsSplit`).
- Looking up a path in `type A = A['x']` does not return (`LookupTermination.SelfIndexNeverReturns`),
  although the guard on named declarations is there to stop recursive types. A lookup that passes aliases
  only returns exactly when some alias comes again with no indexed access in between, which can be read
  off the declarations (`LookupTermination.AliasesReturnIff`). Any lookup at all returns exactly when the
  declarations it enters keep within some number of steps (`StepBounds.ReturnsIffBounded`). That no cycle
  of the declarations a type leads to adds more steps than it consumes is a sufficient condition only
  (`StepBounds.LookupReturns`).
- The rename is not idempotent everywhere, as its header comment has it: renaming twice differs from
  renaming once exactly when one quote closes a token and opens the next of the same package
  (`Rescope.LineIdempotent`, `Rescope.AdjacentTokensShareAQuote`). Renaming back fails exactly on the
  lines that `Rescope.LineRestored` describes, such as `'@deepseek-ai/cordis'` in quotes
  (`Rescope.QuotedNewNameNotRestored`).
- Package order depends on the order of the manifests exactly when two packages of a layer compare as
  equal (`PackageGraph.TiesFollowManifest`) or two different manifests share a name, of which the last
  is taken (`PackageGraph.RepeatedNameTakesLast`, `PackageGraph.OneOrderIff`).
- References are judged by the face of the config that makes them, not by the aggregate from which the
  traversal began, as the comment of `collectProjectReferenceFaceViolations` has it: a config without
  halves that extends the Client base may lead from the Host aggregate into a Client half unreported
  (`ProjectFaces.StrayHalfUnreported`), and one without a face is reported for naming the Host half
  (`ProjectFaces.MatchingHalfReported`). After an empty report the two agree exactly when every config
  that references a split package has the face of each aggregate it is reached from
  (`ProjectFaces.EmptyReportIff`); and when every such config has, the report is empty exactly when they
  agree (`ProjectFaces.MatchingReportIff`).
- A type name imported in a circle exhausts the stack (`PasteClosure.CircularImportExhausts`,
  `PasteClosure.EndlessIffNoEnd`, `PasteClosure.CollectPastes`).
- An HTML comment in a list item is taken for shorter than it is, and a line that is all comment is kept
  (`MarkdownProse.ItemLineKept`). Comments are taken where they stand exactly when their nodes drop no
  characters of the source before their end (`MarkdownProse.CommentsStandIff`).

## Model

| member | source | states |
|---|---|---|
| CycleDetection.AcyclicIffOrdered | scripts/run-gates.ts:743-774 | having no closed walk of `needs`/`after` edges and having a complete dependency order are the same |
| CycleDetection.EnterKeepsValid | scripts/run-gates.ts:756-757 | entering a gate keeps the search state: the path is a walk of the active gates, the finished ones are dependency-ordered |
| CycleDetection.LeaveKeepsValid | scripts/run-gates.ts:762-764 | leaving a gate whose predecessors are finished appends it to that order |
| CycleDetection.ActiveClosesCycle | scripts/run-gates.ts:751-752 | meeting an active gate again closes a simple cycle of real edges |
| CycleDetection.DependencyCycleFinder.Visit | scripts/run-gates.ts:749-766 | a visit keeps the search valid and finishes the gate, or returns a simple cycle |
| CycleDetection.DependencyCycleFinder.VisitPredecessors | scripts/run-gates.ts:758-761 | all predecessors get finished, or one of them yields a cycle |
| CycleDetection.DependencyCycleFinder.VisitAll | scripts/run-gates.ts:768-772 | the search from every gate in turn |
| CycleDetection.FindDependencyCycle | scripts/run-gates.ts:743-774 | nothing is returned exactly when the graph is acyclic; otherwise a simple cycle whose first and last ids agree |
| CycleDetection.ValidateGateGraph | scripts/run-gates.ts:718-741 | accepts exactly the non-empty lists of distinct ids with known predecessors and no cycle; each rejection names the first defect, in the order of the checks and of the list |
| GateScheduler.StepKeepsInv | scripts/run-gates.ts:795-836 | start, settle and skip each keep the scheduler's invariant: states, results and running gates agree and every verdict is justified |
| GateScheduler.RunKeepsInv | scripts/run-gates.ts:783-843 | so does every run |
| GateScheduler.SkipIsJustified | scripts/run-gates.ts:808-823 | a skip is justified by its diagnostic, which names exactly the needs that have failed or been skipped by then |
| GateScheduler.NeverStalls | scripts/run-gates.ts:807-811 | when nothing runs and nothing is ready, some pending gate has a failed need: the stall error is unreachable |
| GateScheduler.Progress | scripts/run-gates.ts:795-836 | every unfinished state of every run has a next event |
| GateScheduler.RunsAreBounded | scripts/run-gates.ts:795-836 | no run has more than two events a gate |
| GateScheduler.StartsAreSafe | scripts/run-gates.ts:797-804 | whenever a gate starts, fewer than the limit run, its needs have passed and its `after` gates have settled |
| GateScheduler.StartsAtMostOnce | scripts/run-gates.ts:797-804 | no run starts a gate twice |
| GateScheduler.StartsAreFirst | scripts/run-gates.ts:797-800 | in every run, a gate that starts is the first listed of those whose needs have passed and whose `after` gates have settled |
| GateScheduler.SkipsAreFirst | scripts/run-gates.ts:807-811 | in every run, a gate is skipped only when nothing runs and nothing can start, and it is the first listed of those with a failed or skipped need |
| GateScheduler.WaitsAreForced | scripts/run-gates.ts:826-835 | in every run, a gate is waited for only at the limit or when nothing can start |
| GateScheduler.SkipNamesNeeds | scripts/run-gates.ts:813-823 | the final result of a skipped gate names those of its needs that had failed or been skipped by then, in the order of the needs and with repetitions |
| GateScheduler.SettleNamesOutcome | scripts/run-gates.ts:827-835 | the final result of an executed gate is what its process reported |
| GateScheduler.Schedule | scripts/run-gates.ts:791-836 | the loop makes a complete legal run, for every choice of which running gate settles next |
| GateScheduler.RunGates | scripts/run-gates.ts:783-843 | completes exactly on valid graphs with a positive safe limit, with one result a gate in input order; every rejection precedes the first start; what its runs do is said by `StartsAreFirst`, `SkipsAreFirst`, `WaitsAreForced`, `SkipNamesNeeds` and `SettleNamesOutcome` |
| ScheduleIndependence.RunningEarlyChangesNothing | scripts/run-gates.ts:797-804 | executing any ready gate early leaves the sequential reference's outcome unchanged |
| ScheduleIndependence.StepKeepsReference | scripts/run-gates.ts:795-836 | every scheduler event is an early reference step or invisible to the reference |
| ScheduleIndependence.CompleteRunsMatchReference | scripts/run-gates.ts:783-843 | every complete run ends with the results of the sequential reference, diagnostics included |
| ScheduleIndependence.ScheduleIndependent | scripts/run-gates.ts:783-843 | two complete runs agree on every result, whatever the settlement orders and worker counts |
| ScheduleIndependence.FinalStatus | scripts/run-gates.ts:845-856 | a gate is skipped exactly when some needed gate did not pass; otherwise it has its own outcome |
| ScheduleIndependence.AfterEdgesNeverDecide | scripts/run-gates.ts:845-848 | graphs that differ in `after` edges only give every gate the same status |
| ScheduleIndependence.ExitStatusIff | scripts/run-gates.ts:106-108 | an aggregate answers 0 exactly when every chain of needs from a gate that may not fail ends in a gate that reports it passed |
| WorkBound.TimedStepKeeps | scripts/run-gates.ts:795-836 | while time passes each worker works, or some dependency chain covers the slack |
| WorkBound.GreedyBound | scripts/run-gates.ts:797-804 | when every gate passes, m workers finish at T with m*T <= W + (m-1)*C for the work W and the work C along some dependency chain |
| WorkBound.TimedProgress | scripts/run-gates.ts:795-836 | an unfinished timed run always has a next event and instant |
| Publication.EnsureDistTagEffect | scripts/publish-npm-baseline.ts:744-764 | wherever it is cut off, the tag is where it was or on this version; success means there, and only a version that exists is ever tagged |
| Publication.RegistryPublication.EnsureDistTag | scripts/publish-npm-baseline.ts:755-764 | moves the tag only when it is elsewhere |
| Publication.RegistryPublication.PublishPackage | scripts/publish-npm-baseline.ts:630-650 | one round of the publish loop, errors included |
| Publication.RegistryPublication.Publish | scripts/publish-npm-baseline.ts:625-654 | the whole run, cut off by any budget of commands; how it ends is said by `CancelledIff`, `PublishFailsExactly` and `PublishSucceedsExactly` |
| Publication.RegistryPublication.Verify | scripts/publish-npm-baseline.ts:656-660 | verification of a release; how it ends is said by `VerifyCommandFailsExactly` |
| Publication.RegistryPublication.VerifyBundle | scripts/publish-npm-baseline.ts:662-697 | integrity and tag of every package, then the entry package's `latest` |
| Publication.PublishOneEffect | scripts/publish-npm-baseline.ts:630-650 | one round, wherever it is cut off, either changes nothing or leaves the package fully released |
| Publication.ProgressResumes | scripts/publish-npm-baseline.ts:630-650 | starting over from any point of a run leads where the run was going |
| Publication.RunStops | scripts/publish-npm-baseline.ts:625-654 | wherever a run stops, the registry is at one of the steps of the uninterrupted run |
| Publication.VersionsAreImmutable | scripts/publish-npm-baseline.ts:631-647 | no run replaces a version that exists |
| CrashResume.PublishCompletes | scripts/publish-npm-baseline.ts:625-654 | a publishable registry and enough commands take one run to the end |
| CrashResume.CompletedIsPublishable | scripts/publish-npm-baseline.ts:639-644 | only a registry without conflicting contents does |
| CrashResume.VerifyAcceptsExactly | scripts/publish-npm-baseline.ts:662-697 | verification accepts exactly the registries where every package has its recorded integrity and the release tag and the entry package is known with `latest` in place, given two commands a package and one |
| CrashResume.CrashResumable | scripts/publish-npm-baseline.ts:625-697 | any number of interrupted runs, then a completed one: one uninterrupted run from the start would have completed and left the same registry, and verification accepts it |
| CrashResume.CompletionSurvivesCrashes | scripts/publish-npm-baseline.ts:625-654 | after any interrupted runs, a run with commands enough completes exactly when the registry was publishable before the first |
| CrashResume.LatestMovesOnlyWhenReleased | scripts/publish-npm-baseline.ts:651 | under the condition on the bundle, `latest` moves only once every package has its integrity and release tag |
| CrashResume.LatestMovesEarly | scripts/publish-npm-baseline.ts:649 | otherwise a cut-off first publication has moved `latest` while a package is missing |
| CrashResume.LatestSafetyCondition | scripts/publish-npm-baseline.ts:625-654 | the condition holds exactly when no run, however cut off, moves `latest` early |
| PublishVerdicts.CancelledIff | scripts/publish-npm-baseline.ts:625-628 | a run is cancelled exactly when it gets through ping and whoami and is not confirmed; a run that is not confirmed leaves the registry as it is, takes at most these two commands and never succeeds |
| PublishVerdicts.PublishFailsExactly | scripts/publish-npm-baseline.ts:630-653 | a confirmed run fails with an error exactly when that is the first thing in the way in the registry it starts from (another integrity, none, or nothing for `latest` to name) and the commands suffice to meet it; it is cut off exactly when they do not suffice for that or, where nothing is in the way, for all |
| PublishVerdicts.PublishSucceedsExactly | scripts/publish-npm-baseline.ts:625-654 | it succeeds exactly when nothing is in the way and it has as many commands as the packages not yet released, the tag and the checks take |
| PublishVerdicts.RoundsTake | scripts/publish-npm-baseline.ts:630-648 | over compatible packages, rounds take two commands for a package that is released and three for another, and lead to that step of the run |
| PublishVerdicts.VerifyFailsExactly | scripts/publish-npm-baseline.ts:662-697 | verification fails with an error exactly when that is true of the first package that is not released (missing, without integrity, with another, tag elsewhere) or then of the entry package, and the commands suffice to see it; it is cut off exactly when they do not suffice |
| PublishVerdicts.VerifyCommandFailsExactly | scripts/publish-npm-baseline.ts:656-660 | so does the command, with one command more for the ping |
| ConfigTypes.ExportWalk.Find | scripts/gen-config-catalog.ts:256-278 | the recursive search with its shared visited set, on cyclic re-exports too |
| ConfigTypes.WalkFindsExactlyReachable | scripts/gen-config-catalog.ts:256-278 | a declaration is found exactly when some chain of re-exports leads to one, and it is one of those |
| ConfigTypes.FirstIsFound | scripts/gen-config-catalog.ts:256-278 | what is found is the end of the chain that always takes the first re-export leading to a declaration without coming back |
| ConfigTypes.FirstChainIsOne | scripts/gen-config-catalog.ts:264-276 | there is one such chain at most |
| ConfigTypes.LookForAsks | scripts/gen-config-catalog.ts:266-274 | a star carries every name, and of listed elements that export a name the first counts |
| ConfigTypes.ResolveDecl | scripts/gen-config-catalog.ts:283-304 | a local declaration wins; else something is found exactly when the import leads to a readable file from which re-exports reach a declaration, and then the one at the end of the first chain |
| TypeLookup.ResolveStandsFor | scripts/gen-config-catalog.ts:283-304 | a name stands for the declaration that it means in its file, and is out of reach when it means none |
| TypeLookup.BaseStandsFor | scripts/gen-config-catalog.ts:348-358 | so does each base of an interface; one that is no plain name is out of reach |
| TypeLookup.FoundIsThere | scripts/gen-config-catalog.ts:317-403 | by the text of names, after `found` the path is there under each reading of the type |
| TypeLookup.MissingIsAbsent | scripts/gen-config-catalog.ts:317-403 | by the text of names, after `missing` no derivation of any height gives the path, under any reading |
| TypeLookup.SoundAsWritten | scripts/gen-config-catalog.ts:317-403 | by the text of names, `found` means present under every reading of unresolved names and union branches, `missing` under none, whatever was seen before |
| TypeLookup.RepeatedBranchIsUnknown | scripts/gen-config-catalog.ts:322-326 | a witness only: a union naming one interface twice answers `unknown` for a member it always has |
| Legibility.ViewsAgree | scripts/gen-config-catalog.ts:317-403 | where what a path can meet is written as it is meant, the path is there by the text of names exactly when it is there |
| Legibility.LookupIsSound | scripts/gen-config-catalog.ts:225-226 | there `found` means present under every reading and `missing` under none |
| Legibility.BareAnswerWrongIff | scripts/gen-config-catalog.ts:335-343 | for a member of a literal or of an interface without bases, `missing` is wrong exactly when some member means the name and none is written so, `found` exactly in the opposite case |
| Legibility.QuotedMemberIsMissed | scripts/gen-config-catalog.ts:338 | the input: a member written in quotes |
| Legibility.SecondInterfaceIsMissed | scripts/gen-config-catalog.ts:133-139 | an input: a member of the second interface of a name |
| Legibility.OperatorMissingRightIff | scripts/gen-config-catalog.ts:380 | a `missing` from behind a type operator is right exactly when that is `readonly` |
| Legibility.OwnWrapperIsMissed | scripts/gen-config-catalog.ts:391-397 | an input: a type of the file's own with the name of a wrapper |
| LookupExactness.LookupIsExact | scripts/gen-config-catalog.ts:310-403 | where the path meets no declaration twice with equally many steps, a lookup that returns answers `found` exactly when every reading has the path and `missing` exactly when none has; so it is of the meaning where that is written |
| LookupExactness.Witness | scripts/gen-config-catalog.ts:317-403 | there, unless the answer is `missing`, some reading has the path, and unless it is `found`, some reading lacks it |
| LookupExactness.WitnessParts | scripts/gen-config-catalog.ts:329-333 | for bases and intersections: one part that may have the path suffices, and readings that lack it in each part join into one |
| LookupExactness.WitnessUnion | scripts/gen-config-catalog.ts:364-370 | for unions: a branch that the answer leaves open is the reading |
| LookupExactness.SeenWithin | scripts/gen-config-catalog.ts:322-326 | the walk enters only the declarations that the path meets |
| TypeWalk.PathWalk.LookupPath | scripts/gen-config-catalog.ts:317-403 | the walk with its mutable visited set computes the specified lookup, whose answers `LookupExactness.LookupIsExact` says |
| TypeWalk.PathWalk.LookupType | scripts/gen-config-catalog.ts:363-402 | the cases of type expressions |
| TypeWalk.ParsePath | scripts/gen-config-catalog.ts:232-245 | computes the steps a path stands for |
| TypeWalk.PathRendersBack | scripts/gen-config-catalog.ts:232-245 | writing the steps of any path gives the path back, and no member name can be split further |
| TypeWalk.StepsReadBackIff | scripts/gen-config-catalog.ts:232-245 | steps written as a path are parsed as these steps exactly when the first is a member and no name has a dot or ends in brackets |
| TypeWalk.DottedNameIsSplit | scripts/gen-config-catalog.ts:234 | the input: a member whose own name has a dot is taken for two |
| TypeWalk.PathViolates | scripts/gen-config-catalog.ts:759-763 | a path is reported only when no reading of the config type has it, by the text of names, and in the meaning where that is written; exactly then, when the check returns and the path meets no declaration twice with equally many steps |
| TypeWalk.QuotedKeyIsReported | scripts/gen-config-catalog.ts:439-462 | the input: the key `max-steps` against a type that has the member in quotes |
| LookupTermination.FuelIrrelevant | scripts/gen-config-catalog.ts:317-403 | a lookup that returns gives the same answer with any larger stack |
| LookupTermination.AliasesReturnIff | scripts/gen-config-catalog.ts:322-326 | a lookup that passes aliases only returns, on any path, exactly when some alias comes again with equally many steps |
| LookupTermination.SelfIndexNeverReturns | scripts/gen-config-catalog.ts:381-384 | the input: an alias that indexes itself |
| StepBounds.ReturnsIffBounded | scripts/gen-config-catalog.ts:317-403 | any lookup returns exactly when the declarations it enters keep within some number of steps |
| StepBounds.LookupReturns | scripts/gen-config-catalog.ts:317-403 | in a set of declarations that lead to each other only, without a cycle that adds more steps than it consumes, every lookup returns, with one answer |
| PasteClosure.ClashIsFinal | scripts/gen-config-catalog.ts:675-704 | an item that resolves to nothing or whose name is taken rules out every consistent fence |
| PasteClosure.PasteKeeps | scripts/gen-config-catalog.ts:705-713 | pasting a declaration and queueing what it names keeps the invariant |
| PasteClosure.ImportKeeps | scripts/gen-config-catalog.ts:679-695 | so does recording an import |
| PasteClosure.CompleteIsConsistent | scripts/gen-config-catalog.ts:663-715 | an empty queue without violations leaves a fence where every name means what it means in its file |
| PasteClosure.NamesOfDecl | scripts/gen-config-catalog.ts:174-186 | a declaration names exactly its bases and the references written in it, at any depth |
| PasteClosure.ResolvedAtEnd | scripts/gen-config-catalog.ts:146-171 | a name is what the file makes of it in which its chain of relative imports ends |
| PasteClosure.CollectPastes | scripts/gen-config-catalog.ts:663-716 | the worklist ends: with the stack exhausted exactly when the config type or a name mentioned by a declaration gathered so far is imported in a circle, and without violation exactly when a consistent fence exists, which it then has, with nothing superfluous; reported is exactly what some mention clashes with |
| PasteClosure.EndlessIffNoEnd | scripts/gen-config-catalog.ts:146-171 | resolving a name recurses forever exactly when its chain of relative imports has no end |
| PasteClosure.CircularImportExhausts | scripts/gen-config-catalog.ts:164-167 | the input: a file that imports a name from itself |
| SchemaFold.SchemaWalk.Fold | scripts/gen-config-catalog.ts:736-749 | the recursive fold with its mutated visited set |
| SchemaFold.FoldIsExact | scripts/gen-config-catalog.ts:736-749 | each package that compositions reach contributes its keys exactly once, no other does, and the complaints are exactly the composed names without an entry |
| SchemaFold.CheckSchema | scripts/gen-config-catalog.ts:733-764 | each reported key is a reachable one that no reading of the config type has, by the text of names, and in the meaning where that is written; every such key is reported when the check returns and the key meets no declaration twice with equally many steps |
| Sorting.StableSort | scripts/package-graph.ts:66 | a permutation in comparison order in which what compares as equal keeps its order |
| Sorting.SortedUnique | scripts/package-graph.ts:66 | given values have one strict order only |
| PackageGraph.ComparisonConsistent | scripts/package-graph.ts:77-83 | group rank, group and name compare consistently when the locale comparison does |
| PackageGraph.SortedByGroup | scripts/package-graph.ts:77-83 | of two packages of one depth, the one whose group is listed first comes first, a listed group before an unlisted one; unlisted groups go by the locale, then short names of one group do, and the rest keep the manifest order |
| PackageGraph.RankIsListing | scripts/package-graph.ts:78-81 | a group ranks before another exactly when it is listed before it, or is listed and the other is not |
| PackageGraph.StuckExactly | scripts/package-graph.ts:67 | when nothing is ready, what remains is exactly what no dependency-safe order can place |
| PackageGraph.RoundStep | scripts/package-graph.ts:63-73 | one round puts out the packages of one depth, in order, and shrinks what remains |
| PackageGraph.TopoSort | scripts/package-graph.ts:59-75 | succeeds exactly when a safe order of all packages exists; then every dependency comes earlier, layers are longest-chain depths, and in a layer the group listed first comes first, then the locale decides; otherwise it names exactly the packages no order can place, each once and in the order of the map |
| PackageGraph.DistinctKept | scripts/package-graph.ts:60 | manifests with distinct names lose nothing in the map |
| PackageGraph.MapIsExact | scripts/package-graph.ts:60 | the map has every name once, in the order of first occurrence, with the last manifest of the name |
| PackageGraph.ManifestOrderIrrelevant | scripts/package-graph.ts:59-83 | without ties in a layer the order of the manifests changes nothing |
| PackageGraph.TiesFollowManifest | scripts/package-graph.ts:66 | a tied pair comes out in the order in which it was listed |
| PackageGraph.OneOrderIff | scripts/package-graph.ts:59-83 | packages that can be ordered come out in one order, however their manifests are listed, exactly when no two different manifests share a name and no two packages of a layer compare as equal |
| PackageGraph.RepeatedNameTakesLast | scripts/package-graph.ts:60 | an input: of two manifests of one name the last is taken |
| ProjectFaces.LongestFirstIsInnermost | scripts/project-reference-faces.ts:65-71 | the first containing package, longest path first, is the innermost one |
| ProjectFaces.SplitProjectRoots | scripts/project-reference-faces.ts:65-71 | the same packages, longest path first |
| ProjectFaces.ContainsBySegments | scripts/project-reference-faces.ts:116-121 | a package contains a path exactly when its segments are the first of the path |
| ProjectFaces.NamedFaceIff | scripts/project-reference-faces.ts:94-97 | a path names a face exactly by its last segment or as the base config of the root |
| ProjectFaces.FaceIsNearest | scripts/project-reference-faces.ts:88-103 | the face is that of the nearest config along `extends` that names one, cycles included |
| ProjectFaces.AncestorIff | scripts/project-reference-faces.ts:98-102 | a config is so many steps up exactly when so many extensions in a row, all by configs that exist, lead to it |
| ProjectFaces.JudgedByConformity | scripts/project-reference-faces.ts:41-57 | a reference passes exactly when it stays outside split packages or names the matching half of its innermost one |
| ProjectFaces.CollectViolations | scripts/project-reference-faces.ts:30-63 | the traversal ends and reports exactly the non-conforming references of reached configs, config by config, each once |
| ProjectFaces.ReportedExactly | scripts/project-reference-faces.ts:41-57 | a violation is reported exactly for a non-conforming reference of a reached config, with its innermost split package and the half that has the face of the config |
| ProjectFaces.EmptyReportIff | scripts/project-reference-faces.ts:23-25 | after an empty report, references match the aggregate they are reached from exactly when the configs that make them have its face |
| ProjectFaces.MatchingReportIff | scripts/project-reference-faces.ts:23-25 | where these configs have the faces of their aggregates, the report is empty exactly when references match the aggregates |
| ProjectFaces.StrayHalfUnreported | scripts/project-reference-faces.ts:39-57 | the input: nothing is reported, and a Client half is reached from the Host aggregate |
| ProjectFaces.MatchingHalfReported | scripts/project-reference-faces.ts:43-48 | the input: a config without a face, reached from the Host aggregate, is reported for naming a Host half |
| WorkerPool.PublintConcurrency | scripts/publint-all.ts:62-75 | the smaller of the number of targets and the setting or, without one, the parallelism of the machine; a rejection exactly of a setting that is no canonical positive safe integer |
| WorkerPool.SettingIff | scripts/publint-all.ts:67-69 | a setting is accepted exactly when it is how a positive safe integer is written, and stands for that |
| WorkerPool.RunsKeepInv | scripts/publint-all.ts:205-215 | under every interleaving each target taken is in flight at one worker or has its own result |
| WorkerPool.LintsOfCounter | scripts/publint-all.ts:209-213 | a target has been begun once when the counter has passed it, and never otherwise |
| WorkerPool.EveryTargetOnce | scripts/publint-all.ts:204-222 | when all workers have returned, each target was linted exactly once and has its own result |
| WorkerPool.RunLength | scripts/publint-all.ts:207-215 | the length of a run and the steps it has left always add up to two a target and one a worker |
| WorkerPool.RunIsOver | scripts/publint-all.ts:207-215 | a run is over exactly at that length |
| WorkerPool.RunAll | scripts/publint-all.ts:204-222 | results in target order; the missing-result error occurs exactly with no worker and some target |
| LinkDestination.ScanPasses | scripts/project-doc-site.ts:81-142 | balanced text with escapes is passed over whole at any depth |
| LinkDestination.ScanExact | scripts/project-doc-site.ts:125-140 | the scan stops at a position exactly when balanced text ends there at a stop |
| LinkDestination.LabelEnd | scripts/project-doc-site.ts:81-97 | the loop over brackets finds the end of the label |
| LinkDestination.DestinationRange | scripts/project-doc-site.ts:99-142 | the located range or the error of the first failing search |
| LinkDestination.InlineDestinationFound | scripts/project-doc-site.ts:99-142 | in a link or image with balanced label and destination, bare or in angle brackets, exactly the destination is found |
| LinkDestination.DefinitionDestinationFound | scripts/project-doc-site.ts:106-111 | so it is in a definition |
| LinkDestination.FoundIsDestination | scripts/project-doc-site.ts:119-142 | conversely, a range that ends inside the text is a balanced destination |
| LinkSplice.SpliceOne | scripts/project-doc-site.ts:283-285 | one more replacement before all others is one more character-wise rewrite |
| LinkSplice.Splice | scripts/project-doc-site.ts:282-286 | splicing from the last to the first equals replacing all at once, every uncovered character kept |
| LinkSplice.OwnReplacesDestination | scripts/project-doc-site.ts:261-271 | a link's replacement covers exactly its destination |
| LinkSplice.GatheredApart | scripts/project-doc-site.ts:274-280 | the replacements of any well placed tree never overlap, images inside links included |
| LinkSplice.PlacesAreRewritable | scripts/project-doc-site.ts:274-279 | the visited places are exactly the nodes with another address, each once, in the order of the document |
| LinkSplice.GatheredAtPlaces | scripts/project-doc-site.ts:265-270 | the replacements gathered are those of these nodes, one each |
| LinkSplice.FirstFailure | scripts/project-doc-site.ts:264 | a visit that fails does so at the first node, in the order of the document, whose destination is not found |
| LinkSplice.MarkdownRewriter.Visit | scripts/project-doc-site.ts:274-279 | pushes a node's replacement and then those of its children, or fails as the first of them |
| LinkSplice.RewriteMarkdown | scripts/project-doc-site.ts:235-287 | every node with another address, at any depth and once, has its destination replaced, all at once, and nothing else changes; the error is that of the first node whose destination is not found |
| TokenRename.TokenLengthOfPieces | scripts/rescope-vendor.ts:530 | the token expression matches at a quote exactly when the text up to the next, equal quote is the name or a path below it, without spaces |
| TokenRename.ReplaceIsPass | scripts/rescope-vendor.ts:543 | global replacement is one pass over the text cut at its quotes |
| TokenRename.PassAllAt | scripts/rescope-vendor.ts:541-545 | all passes together rename each token by the one pattern that picks it |
| TokenRename.YamlNameIff | scripts/rescope-vendor.ts:531 | a line gives a name exactly when it is an indent, a dash if any, `name:`, blanks, the name, blanks and a comment if any |
| RenameRoundTrip.HeadAllIs | scripts/rescope-vendor.ts:544 | the YAML value is renamed by the one pattern that names it |
| RenameRoundTrip.TokensChangeAgainWhenShared | scripts/rescope-vendor.ts:530-543 | a shared quote leaves a token that a second pass renames |
| RenameRoundTrip.RestoredWhenShielded | scripts/rescope-vendor.ts:520-543 | the reverse passes pick exactly what was renamed |
| RenameRoundTrip.ShieldedWhenRestored | scripts/rescope-vendor.ts:520-543 | only then is the text restored |
| Rescope.RewriteAllParts | scripts/rescope-vendor.ts:539-547 | token and YAML rewrites act on separate parts of a line |
| Rescope.LineIdempotent | scripts/rescope-vendor.ts:539-547 | a second rename changes nothing exactly when no quote closes a token and opens the next of the same package |
| Rescope.LineRestored | scripts/rescope-vendor.ts:520-547 | renaming back restores a line exactly when no new name stood there, but for tokens right behind one that is renamed |
| Rescope.FreshLineRestored | scripts/rescope-vendor.ts:520-547 | a line without new names comes back |
| Rescope.FenceKept | scripts/rescope-vendor.ts:566-570 | no rename makes or unmakes a fence line |
| Rescope.RewriteLine | scripts/rescope-vendor.ts:535-547 | the loop over the patterns that the file does not skip |
| Rescope.EligibleFollows | scripts/rescope-vendor.ts:561-573 | the flag of the loop says, for each line, whether the fences before it are odd in number |
| Rescope.ActiveMembers | scripts/rescope-vendor.ts:535-537 | a file follows the patterns of all packages but those that its skips list |
| Rescope.Rewrite | scripts/rescope-vendor.ts:560-578 | a line is rewritten exactly when the file is not Markdown, or the line is no fence and the file is under `docs/` or the fences before the line are odd in number; the lines that changed are counted |
| Rescope.EligibleKept | scripts/rescope-vendor.ts:564-573 | both passes see the same eligible lines |
| Rescope.FileIdempotent | scripts/rescope-vendor.ts:560-578 | a second run changes and counts nothing exactly when no eligible line has a shared quote |
| Rescope.FileRestored | scripts/rescope-vendor.ts:560-578 | the reverse run restores a file exactly when each eligible line is restorable |
| Rescope.Patterns | scripts/rescope-vendor.ts:520-533 | the patterns of one direction, longest name first, still separate |
| Rescope.DirectionsUndo | scripts/rescope-vendor.ts:520-526 | the two directions are opposites |
| Rescope.TableIsSeparate | scripts/rescope-vendor.ts:46-56 | no text can be taken for two of the nine packages, old name or new |
| Rescope.AdjacentTokensShareAQuote | scripts/rescope-vendor.ts:530 | every rename has a text that a second run changes again |
| Rescope.QuotedNewNameNotRestored | scripts/rescope-vendor.ts:520-543 | every rename has a text that the reverse run does not restore: its new name in quotes |
| MarkdownProse.CommentsExact | scripts/markdown.ts:112-120 | comments run from an opener to the end of the next closer behind it or of the text, one after the other, and no opener lies outside |
| MarkdownProse.FindComments | scripts/markdown.ts:110-121 | the cursor loop finds these, shifted by the offset of the node |
| MarkdownProse.CommentsStandIff | scripts/markdown.ts:118 | the comments are taken where they stand in the source exactly when no node drops characters of the source before the end of its last comment |
| MarkdownProse.RecordedExactly | scripts/markdown.ts:126-137 | a character lies in a comment exactly when its column lies in a range of its line |
| MarkdownProse.HtmlCommentRanges | scripts/markdown.ts:123-139 | each touched line has its ranges in the map, no other line has an entry |
| MarkdownProse.VisibleText | scripts/markdown.ts:143-152 | the sweep leaves exactly the characters outside all ranges, overlapping ones too |
| MarkdownProse.HasRenderedText | scripts/markdown.ts:143-153 | true exactly without ranges or with a visible non-space |
| MarkdownProse.MarkdownProseLines | scripts/markdown.ts:160-176 | a line is kept exactly when it is unfenced and none of its characters (of an empty line, its end) lies in a comment or it shows text outside all comments; these are the comments of the source where they are taken where they stand |
| MarkdownProse.ItemLineKept | scripts/markdown.ts:118 | the input: a comment over two lines of a list item |
| JsDocProse.WordsOfFlatten | scripts/jsdoc.ts:44 | joining, collapsing and trimming keep the words |
| JsDocProse.FlattenIsWords | scripts/jsdoc.ts:44 | flattened text is its words with one space between each two |
| JsDocProse.StripLineOf | scripts/jsdoc.ts:37 | stripping a line leaves its text: the indent, a star and one space go, and the spaces behind it |
| JsDocProse.TagLineIff | scripts/jsdoc.ts:64 | a block tag begins, behind spaces, with an at sign |
| JsDocProse.NamesModeIff | scripts/jsdoc.ts:63 | a line counts as `@mode` when the word behind the sign is `mode` |
| JsDocProse.ModeIff | scripts/jsdoc.ts:62 | a line gives a mode exactly when it is the tag, spaces and one of the five modes |
| JsDocProse.ItemIff | scripts/jsdoc.ts:67 | an item begins with a dash and a space |
| JsDocProse.FlushParaKeeps | scripts/jsdoc.ts:45-58 | flushing keeps all words in order |
| JsDocProse.LinesTaken | scripts/jsdoc.ts:59-77 | a paragraph and a list are never pending together, and what was taken in is what the lines before the first tag say |
| JsDocProse.ProseKeepsWords | scripts/jsdoc.ts:38-79 | the words of the prose are those of the lines before the first block tag, once each and in order |
| JsDocProse.ProseIsRuns | scripts/jsdoc.ts:45-79 | the prose is the runs of non-blank lines in which only the first may be an item, as long as they go, each on one line and in order; items without a blank line between stand on consecutive lines, an empty line separates all others |
| JsDocProse.RunIsOneLine | scripts/jsdoc.ts:44 | each run shows something and has no line feed in it |
| JsDocProse.TagsEndProse | scripts/jsdoc.ts:64-65 | from the first block tag on nothing is put out |
| JsDocProse.ModesFound | scripts/jsdoc.ts:61-63 | the last well-formed `@mode` line decides, and any `@mode` line counts |
| JsDocProse.BlockBuilder.Add | scripts/jsdoc.ts:59-77 | one line, through the flushing closures |
| JsDocProse.ParseJsDoc | scripts/jsdoc.ts:32-80 | the prose is made of the runs of the stripped lines before the first block tag, and has their words; the mode is that of the last well-formed mode line |
| ShellQuoting.ReadQuoted | scripts/publish-npm-baseline.ts:998-1003 | one argument, quoted, is read back as one word |
| ShellQuoting.StandsBareIff | scripts/publish-npm-baseline.ts:999 | a word stands bare exactly when it is not empty and has letters, digits and `_./:@=+-` only; any other stands between single quotes |
| ShellQuoting.CopiedCommandReadsBack | scripts/publish-npm-baseline.ts:994-1003 | the copied command is read back as exactly its words, empty ones and ones with quotes or line feeds included |

## Left out

- The executor's rejection, durations, process output and the observer callback: a gate's outcome is a function of the gate; a run of an aggregate is its events.
- Worker limits that are not integers, and floating-point time: limits are integers, instants are reals.
- WorkBound.GreedyBound: needs every gate to pass, because a skipped gate takes no time and its dependents may start late for no reason the chain shows.
- StepBounds.LookupReturns: one direction only; a growing cycle may never be followed because the steps of a path select other members, so the condition on the declarations is sufficient and not necessary. StepBounds.ReturnsIffBounded is exact, on the walk itself.
- The call stack of the type lookup is a number: a walk that exhausts it answers `Overflow`, which the code reports as a range error.
- Type parameters: a reference that bears the name of a declaration or an import is taken for it, as the code does, in the meaning too. Index signatures are over strings, and a computed name is one of the member's texts.
- A pasted name brings its first declaration only, as the code does.
- A relative specifier leads to a file that can be read; the code throws otherwise. An unreadable entry file of a workspace package is out of reach.
- SchemaFold.CheckSchema: the order of the keys and complaints in the report; which keys and complaints, and how often each package contributes, is exact.
- CycleDetection.FindDependencyCycle: which cycle is named when there are several.
- The prose check of pasted members, the pasted text and its line pointers, and the order in which names inside one declaration are visited.
- The content of `npm ping` and `npm whoami`, the listing format of tags, tarball checks and the confirmation prompt, which is a boolean; npm setting `latest` on a package's first publication; more than one publisher at a time.
- Markdown parsing: nodes with their spans, and the places of their characters in the source, are inputs; a label with an unbalanced bracket in a code span is not a balanced label.
- LinkSplice.RewriteMarkdown: the resolution of targets and the addresses put in are an input of each node; spans nest and a link's children lie in its label.
- Text is a sequence of characters, not of UTF-16 code units.
- Rescope.Rewrite: lines end at line feeds only; inside a line the multi-line anchors of the YAML expression would also hold next to a carriage return or a Unicode line separator.
- The exact edits of the rename, its file selection, and the table of skipped files, which is an input.
- ProjectFaces.CollectViolations: the sorting of the report, the reading of configs and the resolution of paths, which are inputs.
- JsDocProse.ParseJsDoc: the comment delimiters, and the unwrapping of inline links after the prose is built.
- ShellQuoting.CopiedCommandReadsBack: words only; that a first word with an equals sign is an assignment is not a matter of quoting.
- `parseTags` and the checks of documentation tags: one branch a rule.
- The archived-notes manifest, the paired Markdown partition and the macOS deployment-target maximum: shorter loops with easier properties.
- Gate lists, curated tables, rendering of catalogs and diagrams, command lines, child processes, Git and the file system.
