# Proofs about the build and release tooling

These Dafny modules model the algorithms inside the repository's build and release scripts and prove what those scripts
rely on. A model does what the code does, with the same branches and errors; everything the code reads from outside
(files, the registry, child processes, parsed syntax trees) is a parameter.

* **Gate scheduler** (`GateGraph`, `GateScheduler`). Validation of the dependency graph with its depth-first cycle
  finder, and the bounded concurrent run. A wait settles any one of the running gates; the executor is an arbitrary
  function from gate to result. The main results are that validation is exact, that no validated graph stalls, and that
  every completed run, under any bound and any settle order, holds the results of one sequential reference.
* **Config lookup** (`ConfigTypes`, `ConfigPath`, `ConfigLookup`, `ConfigMembers`, `ConfigStack`, `ConfigWalk`). The
  three-valued walk of a key path over recursive type declarations with a shared guard. `MustHave` and `MayHave` give
  the meaning of a declaration apart from the walk. The documentation of the check says that it never answers
  `missing` for what it cannot see through. The code does for methods, quoted names and index signatures, and answers
  `found` through `keyof`; the theorems say, for `found` and for `missing`, exactly when the answer is wrong. The
  stack depth is a parameter, so that a walk which never returns is an overflow at every depth; it returns exactly
  when the key paths it asks for stay within one length.
* **Re-exports and paste closure** (`SourceTree`, `ReExports`, `PasteClosure`). The search for an exported declaration
  along re-exports, complete in spite of its shared `seen` set, and the queue that pastes the closure of a config
  type. Following relative imports of a name has no guard in the code; it never returns exactly on a circle of such
  imports.
* **Publication** (`Publication`, `PublicationSafety`, `PublicationFrame`, `RegistryPublication`). A registry of
  versions and dist-tags, a run as a script of registry writes, a crash after any of them, and histories of crashed
  and completed runs. The publishing process itself is a class that writes one step at a time. Two conditions turned
  out to be needed: `latest` moves last except for a bundle that is itself tagged `latest` with the entry package
  before another package, and a run fails when the entry package is neither in the bundle nor published at its
  version.
* **Copyable commands** (`ShellQuoting`). The printer and a reader that follows the token rules of the POSIX.1-2017
  Shell Command Language.
* **Rescope** (`Rescope`, `RescopePieces`, `RescopeTokens`, `RescopeYaml`, `RescopeLaws`, `RescopeText`,
  `RescopeRules`). The token and YAML patterns as scans, their equivalent on the pieces between quotes, and the laws
  of idempotence and reversal for lines and whole texts. The header of the script calls the rewrite idempotent; that
  is so exactly when no two tokens of one name share a quote. Reversal needs no such condition.
* **Exact edits** (`ExactEdits`, `EditRuns`, `EditSites`). The three-state classifier, when applying an edit can be
  undone, and what a run over all edits leaves behind. Edits may share a file: a text is cut once at the sites of all
  its edits, and the laws ask of each stretch between sites that it is clear of the form written next.
* **Package graph** (`PackageGraph`), **reference faces** (`ReferenceFaces`, `FaceRules`, `AggregateFaces`), **comment
  sweep** (`CommentSweep`), **worker pool** (`WorkerPool`). The layered topological sort, the walk over Project
  References, the prose lines of a Markdown text, and the workers that share one index. The comment of the reference
  walk speaks of the aggregate from which traversal began; the code goes by the face of the referencing config, and so
  does the model; the two agree exactly when the configs on the way have the face of the aggregate.

`Wrappers`, `Strings` and `Digraph` hold what the models share.

## Model

| member | source | states |
|---|---|---|
| `GateGraph.ById` | scripts/run-gates.ts:745-745 | the id map holds every gate of the list under its own id and nothing else |
| `GateGraph.UniqueIdLookup` | scripts/run-gates.ts:722-726 | with unique ids, looking an id up finds the one gate that bears it |
| `GateGraph.CycleFinder.Visit` | scripts/run-gates.ts:750-767 | one visit: a returned list is a cycle, a closed walk that passes no gate twice; otherwise path and active map are restored, no finished gate is forgotten, and the visited gate is finished if it exists |
| `GateGraph.CycleFinder.Enter` | scripts/run-gates.ts:757-758 | entering a gate keeps the path a walk and `active[path[i]] == i` |
| `GateGraph.CycleFinder.Leave` | scripts/run-gates.ts:763-765 | leaving a gate undoes entering it and puts the gate into the finish order behind all its predecessors |
| `GateGraph.CycleFinder.VisitAll` | scripts/run-gates.ts:759-762 | the loop over `needs` then `after`, in order as the depth-first search visits them: a cycle found below is returned, otherwise every predecessor that exists is finished |
| `GateGraph.FindDependencyCycle` | scripts/run-gates.ts:744-774 | exact: a reported list is a closed walk along `needs` and `after` that passes no gate twice, it is the first that the depth-first search meets, and none is reported if and only if the graph is acyclic |
| `GateGraph.ValidateGateGraph` | scripts/run-gates.ts:719-742 | accepts exactly the non-empty lists with unique ids, known predecessors and no cycle; a rejection names the first defect of its kind |
| `GateGraph.CheckUniqueIds` | scripts/run-gates.ts:722-726 | the first id that repeats an earlier one, or none exactly when all ids differ |
| `GateGraph.CheckPredecessors` | scripts/run-gates.ts:727-738 | the first gate with an unknown predecessor, `needs` before `after`, or none exactly when all are known |
| `GateScheduler.PlanIsValid` | scripts/run-gates.ts:789-795 | a validated list is an executable plan: every id has its gate, ids are unique, the graph is acyclic |
| `GateScheduler.FirstReadyIsFirst` | scripts/run-gates.ts:801-802 | the gate found is pending with all `needs` passed and all `after` settled, and no gate before it in the list is; none is found exactly when there is none |
| `GateScheduler.FirstBlockedIsFirst` | scripts/run-gates.ts:812-813 | the gate found is pending with a failed or skipped need, and no gate before it in the list is; none is found exactly when there is none |
| `GateScheduler.ReadyGatesCommute` | scripts/run-gates.ts:800-836 | starting any ready gate early leaves the end of the sequential reference unchanged |
| `GateScheduler.NoStall` | scripts/run-gates.ts:809-813 | a valid graph with an unsettled gate always has a gate that is ready or blocked by a failure |
| `GateScheduler.OutcomesUnique` | scripts/run-gates.ts:784-844 | the recursive outcome equations (skipped if some need is not passed, else the executor's status) have one solution on an acyclic graph |
| `GateScheduler.ReferenceMeetsOutcomes` | scripts/run-gates.ts:784-844 | the sequential reference settles every gate and its statuses solve the recursive equations; `after` predecessors never change an outcome |
| `GateScheduler.StepKeepsInv` | scripts/run-gates.ts:798-836 | every start, skip and settle, in any order, keeps: running list = gates in state running, at most `maxActive`, started with all needs passed and all `after` settled; results match states; each settled gate observed once; and it keeps where the reference ends |
| `GateScheduler.ReachableStates` | scripts/run-gates.ts:798-836 | every reachable state keeps that invariant, and a run has at most two events a gate |
| `GateScheduler.EveryStep` | scripts/run-gates.ts:798-836 | each step of a run was enabled in the state before it, which keeps the invariant |
| `GateScheduler.ScheduleIndependence` | scripts/run-gates.ts:784-844 | a completed run, under any bound and any settle order, holds exactly the reference's results, skip messages included, and these are the recursive outcomes |
| `GateScheduler.RunsAgree` | scripts/run-gates.ts:784-844 | two completed runs agree on every result under any two bounds and settle orders |
| `GateScheduler.NeverStuck` | scripts/run-gates.ts:809-836 | a reachable state that is not complete has an enabled event, so the stall error is never thrown |
| `GateScheduler.ReachableStarts` | scripts/run-gates.ts:801-806 | a started gate had every need passed, and a gate settled without a start had a failed or skipped need |
| `GateScheduler.StartedAtMostOnce` | scripts/run-gates.ts:803-804 | no gate is started twice in a run |
| `GateScheduler.EventsInTheirTime` | scripts/run-gates.ts:798-836 | for every event of a run, in the state before it: a started gate is pending with every need passed and every `after` predecessor settled, there is room, and every earlier pending gate of the list waits for something; a wait ends with the pool full or all pending gates waiting; a skipped gate is the first of the list with a failed or skipped need, with nothing running and all pending gates waiting |
| `GateScheduler.StartsAreOrdered` | scripts/run-gates.ts:801-806 | before a gate starts, each of its needs was observed to pass and each of its `after` predecessors to settle |
| `GateScheduler.EventsRecord` | scripts/run-gates.ts:803-836 | what each event records and nothing else: a start the state, a settlement the executor's result of the gate taken out of the pool, a skip a result without exit code whose message lists the failed needs; settlements and skips are observed in that order |
| `GateScheduler.FailedNeedsAre` | scripts/run-gates.ts:814-814 | the message lists exactly the needs that failed or were skipped, in their order |
| `GateScheduler.ExecutedAndObserved` | scripts/run-gates.ts:798-836 | a completed run executed exactly the gates all of whose needs passed, and observed every gate exactly once with its recorded result |
| `GateScheduler.InInputOrder` | scripts/run-gates.ts:839-843 | succeeds exactly when no result is missing, and then gives the results in list order |
| `GateScheduler.GateRun.StartReady` | scripts/run-gates.ts:799-807 | the inner loop: adds nothing but starts until the pool is full or nothing pending is ready; reports progress exactly when it started a gate, and then less work is left |
| `GateScheduler.GateRun.SettleOne` | scripts/run-gates.ts:830-836 | exactly one event happens: any one of the running gates settles with its executor's result; reached only with the pool full or nothing ready |
| `GateScheduler.GateRun.SkipBlocked` | scripts/run-gates.ts:809-828 | with nothing running and nothing ready, exactly one event happens, the skip of the first blocked gate, or all gates have settled; it never fails |
| `GateScheduler.GateRun.RunToEnd` | scripts/run-gates.ts:798-837 | the outer loop ends, with every gate settled |
| `GateScheduler.RunGates` | scripts/run-gates.ts:784-844 | an invalid graph or bound is rejected before anything starts or is observed; otherwise the result is the reference's, in input order, whatever gate settles first at each wait, and the run is one of the transition system |
| `ConfigPath.ParsePath` | scripts/gen-config-catalog.ts:232-245 | the steps read back as exactly the path, a dot before each member but the first and brackets for each array step; the first is a member, and no member name holds a dot or ends in brackets; total on all strings |
| `ConfigPath.StepsReadAsPath` | scripts/gen-config-catalog.ts:232-245 | the steps of any such segment list read as the list does |
| `ConfigPath.FormatIsInjective` | scripts/gen-config-catalog.ts:232-245 | such a segment list is unique, so parsing is the inverse of writing paths out |
| `ConfigLookup.LookupUnfolds` | scripts/gen-config-catalog.ts:317-387 | a call with a guard entry already held answers `unknown`; otherwise it follows the one step the walk reads, threading the guard through its sub-calls |
| `ConfigMembers.ReadMemberIs` | scripts/gen-config-catalog.ts:335-342 | a member list reads as its first property signature written as the step, whatever stands before it, methods included; it has nothing for the step if and only if it has no such property |
| `ConfigMembers.MeantMemberIs` | scripts/gen-config-catalog.ts:334-342 | what a list means for a name: its first property or method of that name, quoted or not, and otherwise an index signature if there is one |
| `ConfigMembers.LiteralAnswers` | scripts/gen-config-catalog.ts:335-365 | a literal answers `found` at the end of the path, and behind it as the type of that property does; without such a property it answers `missing` |
| `ConfigMembers.InterfaceAnswers` | scripts/gen-config-catalog.ts:335-360 | an unguarded interface does the same, and without such a property answers `found` if a base does, `missing` if all bases do, and else `unknown` |
| `ConfigMembers.WrittenPropertyIsFound` | scripts/gen-config-catalog.ts:335-365 | on a one-step path a literal or interface with a property so written answers `found` |
| `ConfigMembers.ReferenceAnswers` | scripts/gen-config-catalog.ts:388-400 | `Partial`, `Required`, `Readonly` and `NonNullable` pass through to their argument, `Array` and `ReadonlyArray` to their element on an array step; other plain names go to the declaration they resolve to, and the rest is unknown |
| `ConfigMembers.PartsAnswer` | scripts/gen-config-catalog.ts:367-376 | an intersection is found where some part is and missing where all are; a union is found where all branches are and missing where all of at least one are |
| `ConfigMembers.InnerAnswers` | scripts/gen-config-catalog.ts:366-387 | parentheses and type operators pass through, an array type takes an array step, an indexed access puts its key before the path, and other types are unknown |
| `ConfigMembers.DeclarationAnswers` | scripts/gen-config-catalog.ts:319-361 | an enum, a guarded declaration and an array step on an interface are unknown; an alias passes through |
| `ConfigMembers.MisreadExactly` | scripts/gen-config-catalog.ts:335-380 | a node is misread if and only if it is a `keyof`, or a list without a property written as the step that has a method, a quoted property or an index signature for it, or one whose first member of the name has another type to follow, or has no member of the name; a method before the property is no misreading |
| `ConfigLookup.MustHaveUnfolds` | scripts/gen-config-catalog.ts:317-387 | what a declaration must have is told by the nodes one step on: itself a member, the next node, some part of an intersection or base, or every branch of a union |
| `ConfigLookup.FoundIsWrongExactlyWhenOverclaimed` | scripts/gen-config-catalog.ts:317-387 | after `found`, the type need not have the path if and only if the walk crosses a node it misreads whose answer comes down to the root: a `keyof`; a member without a type to follow or whose type need not have the rest; no such member while no base must have it; under an index signature, a base whose own answer is wrong while no base must have it. Above it no other part or base must have the path, while one such union branch is enough; for any recursion and any initial guard |
| `ConfigLookup.MissingIsWrongExactlyWhenHidden` | scripts/gen-config-catalog.ts:317-387 | after `missing`, the type may have the path if and only if the walk crosses a node it misreads at a `keyof`, an index signature, a member without a type to follow, a property that ends the path or whose type may have the rest, or with no such member but a base that may have the path |
| `ConfigLookup.UnguardedIsExact` | scripts/gen-config-catalog.ts:317-387 | with no guard hit and no misread node, `found` holds exactly when the type must have the path and `missing` exactly when it cannot have it |
| `ConfigLookup.SimpleIsNotMisread` | scripts/gen-config-catalog.ts:317-387 | declarations of unquoted property signatures without `keyof` are never misread |
| `ConfigLookup.SimpleAnswersAreSound` | scripts/gen-config-catalog.ts:306-387 | for such declarations `found` and `missing` are never wrong, as the presence check promises |
| `ConfigLookup.MethodReportedMissing` | scripts/gen-config-catalog.ts:334-341 | a method is answered `missing` although the type has it |
| `ConfigLookup.QuotedReportedMissing` | scripts/gen-config-catalog.ts:334-341 | a property whose name is quoted in the source is answered `missing` although the type has it |
| `ConfigLookup.IndexSignatureReportedMissing` | scripts/gen-config-catalog.ts:334-341 | under an index signature every key is answered `missing` although the type may have it |
| `ConfigLookup.KeyofReportedFound` | scripts/gen-config-catalog.ts:380-380 | on `keyof { k: T }` the key k is answered `found`, although the type need not have such a member |
| `ConfigStack.DeeperStackAgrees` | scripts/gen-config-catalog.ts:317-387 | a call that returns on some stack returns the same, guard included, on any deeper one |
| `ConfigStack.ReturnsExactlyWhenBounded` | scripts/gen-config-catalog.ts:317-387 | some stack depth suffices for a call, whatever its declarations, path and guard, if and only if the key paths asked by the calls it makes stay within one length |
| `ConfigStack.SomeStackSuffices` | scripts/gen-config-catalog.ts:317-387 | so it does if the object of an indexed access only reaches declarations of lower rank |
| `ConfigStack.IndexFreeIsRanked` | scripts/gen-config-catalog.ts:317-387 | without indexed access every declaration environment, however recursive, satisfies that hypothesis |
| `ConfigStack.SelfIndexedNeverReturns` | scripts/gen-config-catalog.ts:379-385 | on `type A = A[k]` no stack is deep enough |
| `ConfigWalk.Walk.Lookup` | scripts/gen-config-catalog.ts:317-328 | the recursive walk that updates one shared guard computes the specified answer and guard |
| `ConfigWalk.Walk.LookupDeclaration` | scripts/gen-config-catalog.ts:344-361 | the same for interfaces with heritage and for aliases |
| `ConfigWalk.Walk.LookupNode` | scripts/gen-config-catalog.ts:362-401 | the same for the structural types and references |
| `ConfigWalk.Walk.LookupParts` | scripts/gen-config-catalog.ts:364-371 | the same for the parts of a union, an intersection or the bases of an interface, in order over one guard |
| `ReExports.ExportSearch.Find` | scripts/gen-config-catalog.ts:256-278 | one search: a hit is reached and declares its name; a miss leaves everything newly seen closed under edges and without a declaration; it ends on cyclic re-exports |
| `ReExports.ExportSearch.FindBehind` | scripts/gen-config-catalog.ts:262-277 | the loop over the export statements keeps the same |
| `ReExports.ExhaustedIsClosed` | scripts/gen-config-catalog.ts:256-278 | a set of seen places that is exhausted and closed lets no declaration be reached |
| `SourceTree.EdgeExactly` | scripts/gen-config-catalog.ts:262-275 | a re-export leads on exactly when it is relative and of a `.ts` file, and is `export *`, under the same name, or names the wanted name first, under the name it has there |
| `ReExports.FindExportedTypeDecl` | scripts/gen-config-catalog.ts:256-278 | from the top: a local declaration wins, any hit is a declaration reached along `export *` and renaming export edges, and with readable files there is a hit if and only if one is reached |
| `ReExports.DeclForTypeName` | scripts/gen-config-catalog.ts:283-305 | a local declaration first; else, by the name the import has where it is exported, exactly what a relative `.ts` file or the readable entry of a workspace package exports; without an import, and for the other three forms of import, out of reach |
| `PasteClosure.NeverReturnsExactlyInCircles` | scripts/gen-config-catalog.ts:146-171 | the recursion without a guard returns what the model gives, or never returns; it never returns if and only if its import hops go on for ever, and if and only if they lead around in a circle |
| `PasteClosure.FailsExactlyWhenUnreadable` | scripts/gen-config-catalog.ts:146-171 | the resolution fails if and only if the import hops lead to a path that cannot be read |
| `PasteClosure.FollowExactly` | scripts/gen-config-catalog.ts:153-168 | a name is followed exactly along a relative import of a `.ts` file that does not rename it |
| `PasteClosure.ResolutionIsThatOfTheLastFile` | scripts/gen-config-catalog.ts:152-170 | the resolution is a declaration, a package import, nothing, or a failure, by what the last file on the way has of the name |
| `PasteClosure.MutualImportsNeverReturn` | scripts/gen-config-catalog.ts:146-171 | two files that import a name from each other without declaring it: no number of calls is enough |
| `PasteClosure.UnambiguousSplits` | scripts/gen-config-catalog.ts:663-717 | a closure is unambiguous if and only if what resolves does so unambiguously and every demanded name returns |
| `PasteClosure.Demands` | scripts/gen-config-catalog.ts:709-714 | the demands of a pasted declaration are its referenced names, globals excepted, looked up from its own file |
| `PasteClosure.DemandsInOrder` | scripts/gen-config-catalog.ts:709-714 | in the order of the names |
| `PasteClosure.NextExactly` | scripts/gen-config-catalog.ts:707-714 | a demand that resolves to a declaration demands exactly these, and any other demand nothing |
| `PasteClosure.DemandsAreMet` | scripts/gen-config-catalog.ts:671-715 | with the queue empty and every demand met or queued, every transitively demanded name is met |
| `PasteClosure.UnambiguousAdvances` | scripts/gen-config-catalog.ts:673-706 | where nothing but names that do not return spoils the closure, a demanded item advances if it returns and crashes if not, and never is a violation |
| `PasteClosure.ViolationIsExplained` | scripts/gen-config-catalog.ts:674-706 | each kind of violation says what it means of the demanded names: one is unresolved; the config type is imported; a name is declared and imported, imported in two ways, or declared in two files |
| `PasteClosure.ItemTaken` | scripts/gen-config-catalog.ts:671-715 | one turn of the queue keeps the coverage and the justification of the fence, and is a step towards its end |
| `PasteClosure.CollectClosure` | scripts/gen-config-catalog.ts:663-717 | the queue ends or crashes; it crashes only if some demanded name meets an unreadable file or an import circle, always then when nothing else is ambiguous, and otherwise records a violation; no violation is recorded if and only if every demanded name has one resolution; then each resolves to a paste or a recorded import, no name is both, and nothing undemanded is pasted; each violation recorded is explained as above, and the pastes stand in the order in which they are demanded, breadth first |
| `Publication.PackageLands` | scripts/publish-npm-baseline.ts:630-650 | after a package's writes it is published with the bundle's integrity and its dist-tag names the version |
| `Publication.LaterWritesKeepInPlace` | scripts/publish-npm-baseline.ts:630-651 | a package in place stays so under every later write of the run, wherever it is cut off |
| `Publication.RerunIssuesTheRest` | scripts/publish-npm-baseline.ts:625-654 | a rerun from the registry a crash left behind issues exactly the writes the crashed run had left and ends as it would have ended |
| `Publication.CrashesLeaveNoTrace` | scripts/publish-npm-baseline.ts:625-654 | a cut-off run followed by a full one leaves the registry of one uninterrupted run |
| `PublicationSafety.IntegrityNeverChanges` | scripts/publish-npm-baseline.ts:630-649 | over any history of crashed and completed runs of any bundles, no published integrity ever changes or disappears |
| `PublicationSafety.LatestMovesLastUnlessTaggedEarly` | scripts/publish-npm-baseline.ts:630-651 | wherever a run is cut off, `latest` of the entry package has not moved or the whole bundle is published and tagged, if and only if the bundle is not itself tagged `latest` with the entry package before another package |
| `PublicationSafety.LatestIsBacked` | scripts/publish-npm-baseline.ts:625-654 | over any history of such bundles, `latest` points where it did at the start or to a version of which an attempted bundle is published whole |
| `PublicationSafety.CompletesExactlyWhen` | scripts/publish-npm-baseline.ts:630-651 | an uninterrupted run completes if and only if no package is published with other bytes and the entry package is in the bundle or already published at the version |
| `PublicationSafety.VerifiedMeansNothingToDo` | scripts/publish-npm-baseline.ts:656-698 | a completed run passes both verifications, and a registry passes them if and only if a run finds nothing to write |
| `PublicationSafety.RerunsComplete` | scripts/publish-npm-baseline.ts:625-654 | however often runs of one bundle were cut off, a last full run ends as the first would have, on the same registry, and if it completes it verifies |
| `PublicationFrame.RunOnlyTouchesItsOwn` | scripts/publish-npm-baseline.ts:630-651 | wherever a run is cut off, the registry differs only in releases of the bundle under its integrities, and in the bundle's tag on its packages and `latest` of @deepseek-ai/dsh, which then name its version |
| `PublicationFrame.CompletedRunLeaves` | scripts/publish-npm-baseline.ts:630-653 | a completed run leaves each package published with its integrity and tagged, and `latest` of @deepseek-ai/dsh at the version |
| `PublicationFrame.ConflictIsTheFirst` | scripts/publish-npm-baseline.ts:639-644 | a run that stops at a conflict names the first package published with other bytes, all before it being in place |
| `RegistryPublication.VerifyRemote` | scripts/publish-npm-baseline.ts:662-684 | accepts exactly the registries with every package in place; otherwise names the first that is not, absent before wrong integrity before wrong tag |
| `RegistryPublication.VerifyReleaseEntryDistTag` | scripts/publish-npm-baseline.ts:686-698 | accepts exactly when `latest` of the entry package names the version, else reports where it points |
| `RegistryPublication.Verify` | scripts/publish-npm-baseline.ts:656-660 | the two verifications together accept exactly the verified registries |
| `RegistryPublication.Publisher.Issue` | scripts/publish-npm-baseline.ts:634-639 | one registry write happens, or the process is dead and nothing changes |
| `RegistryPublication.Publisher.EnsureDistTag` | scripts/publish-npm-baseline.ts:755-764 | no write when the tag names the version; an error when the version is not published; else exactly one tag write |
| `RegistryPublication.Publisher.PublishPackage` | scripts/publish-npm-baseline.ts:630-650 | one turn of the loop: refuses other bytes, else issues the package's writes up to the point of death |
| `RegistryPublication.Publisher.Publish` | scripts/publish-npm-baseline.ts:625-654 | a run does to the registry what its script says, up to the write it dies at, and its final verification never rejects it |
| `ShellQuoting.QuotedScans` | scripts/publish-npm-baseline.ts:998-1003 | a quoted argument reads back as itself wherever a word may start, whatever follows |
| `ShellQuoting.CommandRoundTrips` | scripts/publish-npm-baseline.ts:994-1003 | reading a printed command by sections 2.2.1 to 2.2.3 and 2.3 of the POSIX Shell Command Language gives exactly the command and its arguments, for all strings |
| `ShellQuoting.PrintingIsInjective` | scripts/publish-npm-baseline.ts:994-1003 | different commands never print alike |
| `ShellQuoting.BareExactly` | scripts/publish-npm-baseline.ts:999-999 | an argument is printed as it is if and only if it is not empty and consists of letters, digits and _ . / : @ = + - |
| `Rescope.RunEnd` | scripts/rescope-vendor.ts:530-530 | the subpath run ends at the first quote, whitespace or end of text |
| `RescopePieces.JoinOfSplit` | scripts/rescope-vendor.ts:529-532 | cutting a line at its quotes loses nothing |
| `RescopePieces.SplitOfJoin` | scripts/rescope-vendor.ts:529-532 | and is the inverse of joining |
| `RescopePieces.TokenEndIsNextQuote` | scripts/rescope-vendor.ts:530-530 | at a quote, the pattern matches exactly when the text up to the next quote is the name or the name with a subpath and that quote is of the same kind |
| `RescopePieces.ReplaceTokensOnParts` | scripts/rescope-vendor.ts:543-543 | the left-to-right replacement over the text is the pass over the bodies between quotes |
| `RescopeTokens.RenamePartsAt` | scripts/rescope-vendor.ts:543-543 | a pass renames exactly the tokens whose opening quote does not close a renamed token, and touches no quote |
| `RescopeTokens.RenameAllAt` | scripts/rescope-vendor.ts:539-547 | all passes rename each body by the one row that hits it and leave the others |
| `RescopeTokens.RenamingTwice` | scripts/rescope-vendor.ts:539-547 | on bodies, a second sweep changes nothing if and only if no two tokens of one name share a quote |
| `RescopeTokens.GoingBack` | scripts/rescope-vendor.ts:520-547 | on bodies, the reverse sweep restores them if and only if each token of a new name follows, sharing its quote, a renamed token |
| `RescopeYaml.YamlOnHead` | scripts/rescope-vendor.ts:531-544 | the YAML rule looks only at the text before the first quote |
| `RescopeYaml.HeadHitAfter` | scripts/rescope-vendor.ts:531-544 | a renamed scalar bears the new name, and renaming it back restores the head |
| `RescopeYaml.HeadTwice` | scripts/rescope-vendor.ts:539-547 | renaming a scalar twice is renaming it once |
| `RescopeYaml.HeadBack` | scripts/rescope-vendor.ts:520-547 | the reverse sweep restores the head if and only if its scalar bore no new name |
| `RescopeLaws.StretchIdempotence` | scripts/rescope-vendor.ts:539-547 | rewriting a line twice is rewriting it once if and only if no two tokens of one name share a quote |
| `RescopeLaws.StretchReversal` | scripts/rescope-vendor.ts:520-547 | the reverse rewrite restores a line if and only if it holds no new name but behind a renamed token that shares its quote; in particular whenever no new name occurs |
| `RescopeLaws.TableOrderIsIrrelevant` | scripts/rescope-vendor.ts:520-533 | the order of the patterns, by falling length or any other, does not matter |
| `RescopeLaws.ActiveRowsAreSeparated` | scripts/rescope-vendor.ts:535-545 | switching names off for a file keeps the hypothesis of the laws |
| `RescopeLaws.TableIsSeparated` | scripts/rescope-vendor.ts:46-56 | the program's own table satisfies that hypothesis: no name is another or lies below it |
| `RescopeLaws.SharedQuoteIsMissed` | scripts/rescope-vendor.ts:530-543 | for every row, two tokens that share a quote are not rewritten idempotently |
| `RescopeLaws.NewNameIsNotRestored` | scripts/rescope-vendor.ts:530-543 | for every row, a token that already bears the new name is not restored |
| `RescopeText.Rewrite` | scripts/rescope-vendor.ts:560-580 | the loop over the lines with its fence flag computes the specified text and counts the changed lines |
| `RescopeRules.LinesRewritten` | scripts/rescope-vendor.ts:560-580 | outside Markdown every line is rewritten; in Markdown fence lines stay as they are, under docs every other line is rewritten, and elsewhere those with an odd number of fence lines before them, the others staying as they are |
| `RescopeRules.FenceExactly` | scripts/rescope-vendor.ts:567-567 | a fence line is one that starts with three backquotes behind whitespace |
| `RescopeRules.RowsInOrder` | scripts/rescope-vendor.ts:539-547 | the rows are applied one after another, each to the tokens and then to the YAML scalar of what the rows before it left |
| `RescopeRules.TokenExactly` | scripts/rescope-vendor.ts:530-530 | a token is the name, perhaps with a slash and a subpath without quotes and whitespace, between two quotes of one kind |
| `RescopeRules.YamlNameExactly` | scripts/rescope-vendor.ts:531-531 | the scalar is renamed exactly on lines of whitespace, perhaps a dash and whitespace, `name:`, blanks, the name, and blanks or a comment, and nothing else of the line changes |
| `RescopeRules.TableFollowsRule` | scripts/rescope-vendor.ts:46-56 | every row puts a package name behind @deepseek-ai/, and a plugin's short name behind @deepseek-ai/cordis-plugin- |
| `RescopeText.StretchesStayWhole` | scripts/rescope-vendor.ts:560-580 | no rename creates a line terminator |
| `RescopeText.RewritingKeepsEligibility` | scripts/rescope-vendor.ts:560-580 | the pass keeps every fence, so after it the same lines may be touched |
| `RescopeText.TextIdempotence` | scripts/rescope-vendor.ts:560-580 | a second pass over a text is idle if and only if on its eligible lines no two tokens of one name share a quote |
| `RescopeText.TextReversal` | scripts/rescope-vendor.ts:560-580 | the reverse pass restores a text if and only if each eligible line can go back |
| `ExactEdits.DirectionsAreOpposite` | scripts/rescope-vendor.ts:609-622 | for distinct forms and a count of at least one, an edit is applied in one direction exactly when it is pending in the other, and invalid in both |
| `ExactEdits.StatesByCounts` | scripts/rescope-vendor.ts:609-622 | an edit is applied if and only if the target form occurs as often as expected and the source form nowhere or inside it; pending if and only if the source form does so and the target form nowhere or inside it |
| `ExactEdits.UndoingRestoresExactlyWhenClear` | scripts/rescope-vendor.ts:664-668 | the reverse of split-and-join restores a text if and only if the result holds the target form nowhere from within the kept pieces |
| `ExactEdits.PendingEditsAreReversible` | scripts/rescope-vendor.ts:609-668 | a pending edit, applied, is judged applied and undone by its reverse if and only if that holds and the source form survives at most inside the insertions |
| `ExactEdits.ShiftedSiteIsNotRestored` | scripts/rescope-vendor.ts:609-668 | the classification alone is not enough: "ab" with b to aa is judged applied, and its reverse gives "ba" |
| `EditRuns.ApplyAll` | scripts/rescope-vendor.ts:637-668 | forward on the edits as they are, in reverse with their forms exchanged: every edit is judged before anything is written; one invalid edit and no file is touched; else the pending ones are written in order, each on the text before it |
| `EditSites.RunHitsExactlyWhenClear` | scripts/rescope-vendor.ts:662-668 | however the edits share files: each write of a run cuts its file at the sites of its own edit if and only if, with the edits before it written, the form it replaces occurs nowhere else; and then the run puts the new form at every site and leaves the rest |
| `EditSites.CleanRunLandsExactlyWhen` | scripts/rescope-vendor.ts:637-668 | a run that rejects nothing, some edits being applied already: its writes hit their sites and afterwards every edit is judged applied by its own sites, if and only if the texts are clear at each write and, with all new forms in place, each new form occurs at its sites only, as often as expected, and the old one not outside insertions |
| `EditSites.RunIsReversibleExactlyWhen` | scripts/rescope-vendor.ts:637-668 | a run and the reverse run in the same order both hit their sites if and only if the texts are clear at every write of both; and then every file is restored |
| `EditSites.ClearRunsGoThereAndBack` | scripts/rescope-vendor.ts:637-668 | under these conditions the run writes all pending edits, a second run plans and rejects nothing, and the reverse run rejects nothing, plans every edit and restores all files |
| `EditSites.TwoEditsShareAFile` | scripts/rescope-vendor.ts:664-668 | two insertions into one file meet every one of these conditions |
| `EditSites.RestoredByAccident` | scripts/rescope-vendor.ts:662-668 | clear texts are not needed to come back: "ba" becomes "caaa" and "ba" again although the way back hits another site than its own |
| `EditRuns.LoneEditIsReversibleExactlyWhen` | scripts/rescope-vendor.ts:637-668 | a pending edit that shares its file with no other is judged applied after the run and its file restored by the reverse run, if and only if it meets the single-edit condition |
| `EditRuns.NothingLeftToApply` | scripts/rescope-vendor.ts:637-668 | once every edit is applied a second run writes and rejects nothing, and the reverse run plans every edit |
| `PackageGraph.BeforeIsTotalOrder` | scripts/package-graph.ts:77-83 | the comparison by group rank, group and short name is a strict total order on packages with different short names |
| `PackageGraph.PlacedExactlyWhenChainsAreBounded` | scripts/package-graph.ts:63-74 | n rounds place a package if and only if no dependency chain from it is longer than n or leads to an absent package |
| `PackageGraph.LayerIsLongestChain` | scripts/package-graph.ts:63-74 | the round that places a package is the length of its longest dependency chain |
| `PackageGraph.UnplacedAreDoomed` | scripts/package-graph.ts:64-67 | when a round places nothing, the packages left are exactly those that depend, transitively, on a cycle or on an absent package |
| `PackageGraph.SortedPackages` | scripts/package-graph.ts:64-66 | the ready packages, sorted by the comparison |
| `PackageGraph.TopoSort` | scripts/package-graph.ts:59-75 | every package once, by layers and sorted within a layer; it throws if and only if some package depends, transitively, on a cycle or an absent package, and lists exactly those, in the order of the input |
| `PackageGraph.ListedOnce` | scripts/package-graph.ts:67-67 | the error lists each of the names once |
| `PackageGraph.ListedInOrder` | scripts/package-graph.ts:60-67 | a name listed before another one heads a package that comes before every package of that other name |
| `PackageGraph.DependenciesComeEarlier` | scripts/package-graph.ts:59-75 | each dependency is present and stands strictly earlier |
| `PackageGraph.LayeredOrderIsPermutation` | scripts/package-graph.ts:59-75 | with unique short names the result is a permutation of the packages |
| `PackageGraph.InputOrderIsIrrelevant` | scripts/package-graph.ts:59-75 | the order does not depend on the order of the input, nor does whether there is an error and which names it holds |
| `PackageGraph.PlacesInTheOrder` | scripts/package-graph.ts:59-83 | of two packages the one with shorter chains comes first; in one layer the one whose group the caller lists first, listed groups before others; of two groups not listed the collation of the groups, and in one group that of the short names |
| `PackageGraph.LastOfTheNameCounts` | scripts/package-graph.ts:60-60 | of several packages with one short name the last one counts |
| `ReferenceFaces.ContainingSplitRoot` | scripts/project-reference-faces.ts:65-71 | the split project found is the innermost one that contains the path |
| `FaceRules.SplitRootExactly` | scripts/project-reference-faces.ts:65-121 | a path lies in a split project if and only if that is its longest prefix which is a package directory with tsconfig.host.json and tsconfig.client.json |
| `FaceRules.ReferenceNames` | scripts/project-reference-faces.ts:111-114 | a reference names a JSON file or the tsconfig.json of a directory |
| `FaceRules.ExtendsNames` | scripts/project-reference-faces.ts:105-109 | an `extends` is followed only if it starts with a dot, to a JSON file, the suffix added when missing |
| `FaceRules.FaceComesFrom` | scripts/project-reference-faces.ts:88-109 | tsconfig.host.json and tsconfig.base.json of the root are Host, tsconfig.client.json and tsconfig.base.client.json of the root Client, and any other config has the face of the one it extends, if that exists |
| `FaceRules.RightExactly` | scripts/project-reference-faces.ts:42-59 | a reference is right if and only if it enters no split project or names the leaf there of the face of its config |
| `FaceRules.ReachedFromAggregates` | scripts/project-reference-faces.ts:33-60 | both aggregates are reached and the targets of right references of reached configs |
| `FaceRules.NothingElseIsReached` | scripts/project-reference-faces.ts:33-60 | and nothing else is |
| `ReferenceFaces.ProjectFace` | scripts/project-reference-faces.ts:88-103 | the face of a config is that of the first config with a face of its own up its `extends` chain; a cycle has none; only an unreadable config is an error; the two leaf names and the two base configs of the root have their face at once, and an error names a broken config up the chain |
| `ReferenceFaces.CheckReferences` | scripts/project-reference-faces.ts:39-60 | of one config: a violation for each listed reference that enters a split project by the wrong leaf, with its multiplicity, and the targets of all others |
| `ReferenceFaces.AllReachedAreVisited` | scripts/project-reference-faces.ts:33-62 | when nothing is pending, every config reached by accepted references has been visited |
| `ReferenceFaces.CollectViolations` | scripts/project-reference-faces.ts:30-63 | the walk ends and reports exactly the wrong references of configs reached by accepted references, each as often as it is listed; an error is a broken config, reached or up the `extends` chain of a reached one, and without an error no reached config is broken |
| `ReferenceFaces.NoViolationExactlyWhenAllRight` | scripts/project-reference-faces.ts:30-63 | nothing is reported if and only if every reference reachable from either aggregate that enters a split project names the leaf of its source's face |
| `AggregateFaces.LeafOfFace` | scripts/project-reference-faces.ts:49-57 | a right reference into a split project names the leaf of a face if and only if its config has that face |
| `AggregateFaces.AggregateLeavesExactlyWhenFacesAgree` | scripts/project-reference-faces.ts:19-63 | in a repository without violations, references into split projects match the aggregate that leads to them, as the comment has it, if and only if every config with such a reference has the face of each such aggregate |
| `AggregateFaces.CrossedIsAcceptedAgainstTheComment` | scripts/project-reference-faces.ts:19-63 | a repository whose Host aggregate leads, through a config that extends the client base, to the Client leaf of a split project under apps: the walk reports nothing |
| `CommentSweep.LinesAreSlices` | scripts/markdown.ts:256-256 | line k is the source text at its offset |
| `CommentSweep.CommentsAreExact` | scripts/markdown.ts:208-216 | the ranges found in an HTML node are comments up to their first closing mark or the end, in order, and no comment opens outside them |
| `CommentSweep.HtmlComments` | scripts/markdown.ts:205-217 | the loop over the nodes finds exactly those, shifted by the offsets of their nodes |
| `CommentSweep.EveryNodeContributes` | scripts/markdown.ts:208-217 | wherever a comment opens in any node of the list, the place shifted by that node's own offset is covered |
| `CommentSweep.EveryRangeIsContributed` | scripts/markdown.ts:208-217 | and every range is a comment of some node shifted by its offset |
| `CommentSweep.RangeIsRightExactlyWhenUnstripped` | scripts/markdown.ts:208-216 | the range computed for a comment of a node is the place of the comment in the source if and only if no container prefix is stripped from the node in front of the end of the comment; and then it holds a comment of the source |
| `CommentSweep.UnstrippedNodesAreCovered` | scripts/markdown.ts:208-216 | for a node from which nothing is stripped no comment opens outside the ranges either |
| `CommentSweep.StrippedPrefixIsMisplaced` | scripts/markdown.ts:208-216 | for a comment in a block quote, whose node lacks the quote mark of its second line, the range ends too early and that line is kept |
| `CommentSweep.HtmlCommentRanges` | scripts/markdown.ts:219-234 | per line: ranges that cover exactly the commented columns, present exactly when a comment touches the line, an empty line included |
| `CommentSweep.HasRenderedTextOutsideComments` | scripts/markdown.ts:238-248 | true exactly when no comment touches the line or some character outside the union of the ranges is not whitespace, whatever their order and overlaps |
| `CommentSweep.FencedLines` | scripts/markdown.ts:258-262 | the numbers of exactly the lines in code blocks |
| `CommentSweep.MarkdownProseLines` | scripts/markdown.ts:255-272 | the kept lines, in order, with their numbers |
| `CommentSweep.DroppedExactlyWhenCovered` | scripts/markdown.ts:203-272 | a line outside code is dropped if and only if a comment touches it and each of its source characters is whitespace or in a comment |
| `CommentSweep.ProseLinesExactly` | scripts/markdown.ts:255-271 | a line is kept, under its number from 1 and in order, if and only if it lies in no block of code and is not reached by a comment with nothing but whitespace and comments on it |
| `CommentSweep.EmptyLines` | scripts/markdown.ts:225-228 | an empty line is dropped if and only if a comment covers its offset |
| `WorkerPool.StepKeepsInv` | scripts/publint-all.ts:207-214 | at every await: each claimed index is held by one worker or its slot is filled with its target's result, never both |
| `WorkerPool.RunsEnd` | scripts/publint-all.ts:207-214 | every step uses up one unit of work, so every interleaving ends |
| `WorkerPool.EachTargetOnce` | scripts/publint-all.ts:207-214 | the k-th check started is that of target k: none twice, none passed over |
| `WorkerPool.EveryInterleaving` | scripts/publint-all.ts:204-220 | an ended interleaving of at least one worker took one step per target and per worker and filled every slot |
| `WorkerPool.Pool.FinishOne` | scripts/publint-all.ts:209-213 | storing a result in the shared array and taking the next index is one step of the transition system |
| `WorkerPool.Pool.Run` | scripts/publint-all.ts:207-214 | starting all workers and resuming any of them ends with every worker returned |
| `WorkerPool.RunAll` | scripts/publint-all.ts:204-221 | the results in target order; one is missing if and only if there are targets and no worker |

## Left out

- Process spawning, timers, console output, the fixed gate lists, the shapes of the manifests and everything else that is
  input and output or finite data: parameters, or not part of the models. Executors and checks are taken to resolve.
- A bound `maxActive` that is not an integer: only its integer range is checked.
- The TypeScript compiler and the mdast parser: the models start from declarations, members and references, and from
  raw HTML nodes with their offsets and the lines of code blocks.
- `CommentSweep.MarkdownProseLines`: nodes are not required to be slices of the source, as the code does not check it
  either; a comment whose text lacks a container prefix in front of its end gets a wrong range, as lemmas show.
- `ConfigTypes.Meaning`: generics, declaration merging, and user types that shadow `Partial`, `Array` and their like are
  not modelled, since neither does the walk look at them; a file that cannot be loaded during a lookup counts as a name
  that does not resolve.
- The folding of composed schema keys and the rendering of the catalog: plain graph collection and text.
- `PasteClosure.CollectClosure`: a violation is recorded by its kind and name, not by its message; the further violation that
  names a relative import without `.ts` or under another name, and the check of member documentation, are not modelled.
- `localeCompare`: any strict total order on strings.
- npm itself: hashes and tarballs are opaque integrity strings, there is one writer, a publication and its dist-tag are
  two writes between which a crash may fall, and the registry's own first `latest` for a package published under another
  tag is not modelled. Registry reads do not fail.
- `Rescope.RewriteStretch`: the YAML pattern is matched within a stretch of text between line terminators, so a text is
  given as lines cut at newlines and stretches cut at the other terminators; the file selection and the reports of the
  rescope run are not modelled.
- `EditRuns.ApplyAll`: all files are readable; the order of generic and exact edits over one file is not modelled.
- `EditSites.RunIsReversibleExactlyWhen`: for files shared by several edits the condition is exact for hitting the sites;
  a run can also restore a file by accident, as `EditSites.RestoredByAccident` shows.
- `ReferenceFaces.CollectViolations`: diagnostics are records, not messages, and their final sort is not modelled; paths
  are component lists with `/` as the separator; which directories the workspace patterns match is an input.
- Characters are Unicode scalar values; lone surrogates are not modelled.
