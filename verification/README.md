# Build and documentation tooling, verified

This project models the algorithmic core of the repository's build, release and documentation
scripts in Dafny and proves what each promises. `dafny verify dfyconfig.toml` checks everything.

Code that works by changing state is modelled by classes and loops in the same shape as the
source, each proved against a specification; the theorems about whole runs, graphs, histories and
texts are lemmas about those specifications.

**The gate scheduler** (`scripts/run-gates.ts`). `GateGraph` validates the dependency graph with the
depth-first cycle search. `GateMachine` is the scheduling loop as a state machine whose three steps
start, settle and skip a gate; any running gate may settle next. `GateLiveness` proves that it never
stalls and always ends, `GateVerdicts` and `GateConfluence` that the results depend neither on the
completion order nor on the concurrency bound, `GateReports` which gate each step takes and what a
skip reports, and `GateTiming` the greedy bound on its makespan, which `GateSkipping` shows to need
that no gate is skipped. `GateRunner` is the loop itself, which carries the trace of machines it
goes through and so inherits all of that.

**The config catalog** (`scripts/gen-config-catalog.ts`). `ConfigTypes` and `ConfigLookup` are the
three-valued lookup of a schema key path over recursive declarations, with the set of visits handed
from call to call. `ConfigPresence` defines, without the lookup and without its scan of a member
list, when a type has a path and when it definitely lacks one: by all members of all declarations of
a name, index signatures and methods included. `ConfigLookupProofs` and `ConfigMisreadings` say when
the answers agree with that, `ConfigExactness` and `ConfigStraight` when they are as definite as
they can be. `ConfigFuel` and `ConfigTermination` say when there is an answer at all, the latter by
the potentials of `Potentials`. `ExportSearch` is the search through re-exports, `PasteClosure` the
worklist of pasted declarations, `KeyPaths` the parser of key paths, and `SchemaComposition` the
fold over composed schemas with the check that uses the lookup.

**Publication** (`scripts/publish-npm-baseline.ts`). `Publication` and `PublicationSafety` describe
a registry with immutable versions and movable tags and every state a run can be cut off in;
`RegistryPublication` is the class that publishes, with a budget of commands after which it is cut
off.

**Graphs.** `PackageGraph`, `PackageSort`, `PackageOrder` and `PackageTies` are the layered
topological sort (`scripts/package-graph.ts`), `ReferenceFaces` the traversal of project references
(`scripts/project-reference-faces.ts`), `WorkerPool` the shared-counter pool
(`scripts/publint-all.ts`); `Digraphs`, `Sorting` and `Selections` hold what they share.

**Texts.** `TranslationLinks`, `TranslationLinkProofs`, `WrongLocale`, `LinkRewriting` and
`DocumentRewriting` resolve and rewrite links between language versions
(`scripts/translation-links.ts`) on the path arithmetic of `RepositoryPaths`; `ChainedLinks` holds
the links that stay wrong, in a repository that meets all assumptions. `CommentScanning` and
`CommentMasking` find and mask HTML comments (`scripts/markdown.ts`), `JsDoc` is the block state
machine (`scripts/jsdoc.ts`), `PairedDerivatives` the derivative partition
(`scripts/paired-markdown-derivatives.ts`) and `ArtifactFraming` the framing of artifacts fed to a
digest (`scripts/client-build-environment.ts`).

## Where the code falls short of what it is for

Seven properties do not hold on all inputs. Each has lemmas with failing inputs, and the condition
under which the code meets it.

- The lookup is meant to answer `missing` only for members that are definitely absent
  (`scripts/gen-config-catalog.ts:223-226` and `309-316`), but it passes over everything in a member
  list that is not a property signature written exactly with the name. A key declared by an index
  signature, by a method, in quotes or in a second declaration of the same interface is therefore
  reported as missing. `found` can be wrong too: through `keyof`, through a declared type with the
  name of a utility type, and through a type parameter with the name of a declared type.
  `ConfigMisreadings.LookupIsRight` gives the conditions, `MissingKeyIff` the one for a single key
  as a check of the declaration, and the lemmas behind it the failing declarations.
- The lookup does not end on `type A = A['x']`, because each round lengthens the path and so evades
  the guard. `ConfigTermination.LookupEnds` proves that it ends unless some cycle of references
  lengthens the path in all, and `RoomIff` that this is exactly what bounding the paths along all
  references takes; `ForwardingNeverEnds` proves that it does not end on such a cycle of mere forwarders, and
  `UnmatchedCycleEnds` shows why the references alone do not decide it.
- The search for an exported type declaration (`scripts/gen-config-catalog.ts:254-255`) takes any
  declaration of the name in a file, exported or not. `ExportSearch.PrivateIsHit` is a module whose
  private declaration is taken for the one it exports under that name; `HitIsExported` says when the
  hit is right.
- A release that is itself tagged `latest` can expose an incomplete bundle:
  `PublicationSafety.LatestSafeIff` gives the exact condition, `LatestTooEarly` the run. Manifests
  written by the tool itself are tagged `dev-` and the version
  (`scripts/publish-npm-baseline.ts:523`), so only a manifest from elsewhere can do this.
- A rewritten link can again be in the wrong locale, when documents are named `x.zh.zh.md`:
  `DocumentRewriting.RewrittenIsClean` gives the exact condition,
  `ChainedLinks.ChainedLinkStaysWrong` the links.
- The order of packages depends on the input order. Under unique short names it does exactly when
  two packages tie: `PackageTies.PackagesReversedIff`, and `TiedNamesShow` for the packages. Of a
  repeated short name the last package counts (`EntryIsLastOfName`).
- The mask of an HTML comment is placed by offsets into the text of its node
  (`scripts/markdown.ts:207-215`), from which the parser has stripped the marks of a block quote.
  `CommentScanning.MaskCoversIff` says when it still covers the comment.

Two more lemmas mark the limits of what is promised. The greedy bound on the makespan is one for
runs in which all gates pass; `GateSkipping.SkippingExceedsBound` is a run with a skip that exceeds
it. And `ConfigTermination.DiamondIsUnknown` shows what the shared visit guard of the lookup costs:
its comment speaks of recursive types, but a base reached twice without any recursion is answered
unknown too, which is not wrong, only less definite.

## Model

| member | source | states |
|---|---|---|
| GateGraph.FindDependencyCycle | scripts/run-gates.ts:744-774 | Exact cycle search over `needs` and `after`: nothing is returned iff the graph is acyclic, and a returned path starts and ends at one gate with every consecutive pair a real edge. |
| GateGraph.CycleSearch.Visit | scripts/run-gates.ts:749-766 | One depth-first visit under the `complete`/`active`/`path` invariant: a cycle through the gate, or the gate and everything below it completed with the path restored. It ends because the active set only grows along the call stack. |
| GateGraph.CycleSearch.VisitAll | scripts/run-gates.ts:758-761 | The loop over the predecessors of the gate on top of the path: all of them complete, or a real cycle. |
| GateGraph.CycleSearch.Leave | scripts/run-gates.ts:762-765 | Taking the top gate off the path undoes exactly what entering it did and completes it. |
| Digraphs.AcyclicIffRanked | scripts/run-gates.ts:744-774 | The independent reading of acyclicity: a finite graph has no cycle iff its nodes can be ranked so that every edge falls. |
| GateGraph.ValidateGateGraph | scripts/run-gates.ts:719-742 | Accepts exactly the non-empty lists with unique ids, known references and no cycle; a rejection names a true defect of the first kind that applies. |
| GateMachine.StepKeepsConsistent | scripts/run-gates.ts:798-837 | Every start, settlement and skip keeps the scheduler consistent: at most maxActive running, each running or settled gate had its `needs` passed and `after` settled, results match states. |
| GateMachine.RunIsConsistent | scripts/run-gates.ts:794-837 | So every machine of every run is consistent. |
| GateMachine.StartStep | scripts/run-gates.ts:800-807 | A start keeps consistency and moves states only forward. |
| GateMachine.SettleStep | scripts/run-gates.ts:830-836 | So does the settlement of any running gate. |
| GateMachine.SkipStep | scripts/run-gates.ts:809-828 | So does a skip. |
| GateMachine.RunAdvances | scripts/run-gates.ts:798-837 | Along every run states only move from pending over running to settled, and settled states and results never change. |
| GateMachine.StartedOnceWhenAllowed | scripts/run-gates.ts:800-807 | No gate is started twice in a run, and from its start on all its `needs` have passed and all its `after` gates have settled. |
| GateLiveness.NeverStalls | scripts/run-gates.ts:812-813 | On a validated graph, when nothing runs, nothing is ready and something is pending, some pending gate has a failed or skipped need: the stall error cannot be thrown. |
| GateLiveness.Progress | scripts/run-gates.ts:798-837 | A machine of a run that is not finished has a next step. |
| GateLiveness.StepSpendsBudget | scripts/run-gates.ts:798-837 | Every step spends from a budget of two per gate. |
| GateLiveness.RunSpendsBudget | scripts/run-gates.ts:798-837 | So a run of the loop has at most twice as many steps as there are gates. |
| GateLiveness.RunsFinish | scripts/run-gates.ts:798-837 | A run that cannot be continued has settled every gate. |
| GateVerdicts.FinalStateIsVerdict | scripts/run-gates.ts:800-836 | In a consistent settled machine the state of a gate is its recursive verdict: skipped if some needed gate did not pass, else the outcome of the executor. |
| GateVerdicts.QuiescenceReached | scripts/run-gates.ts:800-836 | Between two skips the order of settlements does not matter: once nothing runs and nothing is ready, each state is a function of the states at the start of the phase. |
| GateVerdicts.SkipStartsPhase | scripts/run-gates.ts:809-828 | A skip carries the machine into the next phase with the same expected end. |
| GateVerdicts.StepStaysOnCourse | scripts/run-gates.ts:798-837 | Every step keeps the results the run is heading for. |
| GateVerdicts.FinalResultsAreVerdicts | scripts/run-gates.ts:839-843 | A finished machine holds a result for every gate (the missing-result error cannot be thrown) with the status of its verdict. |
| GateConfluence.RunInvariant | scripts/run-gates.ts:798-837 | The induction over runs: what holds initially and survives every step from a consistent machine holds all along. |
| GateConfluence.CompleteRunResults | scripts/run-gates.ts:784-844 | Every complete run ends with the specified results, skip messages included, whatever the completion order and bound. |
| GateConfluence.CompleteRunStatuses | scripts/run-gates.ts:784-844 | Every complete run ends with the recursive verdict of every gate. |
| GateConfluence.Confluence | scripts/run-gates.ts:784-844 | Two complete runs of one aggregate, under any two bounds and completion orders, end with equal results. |
| GateReports.ResultsAreExplained | scripts/run-gates.ts:798-837 | In every complete run a gate whose needs all pass has the result of its executor. Any other was skipped by one step of the run, as the first pending gate with such a need, and its result lists, in the order of its needs, exactly the needs that had settled without passing by then; none of those passes. |
| GateReports.StartTakesFirst | scripts/run-gates.ts:800-807 | A start takes the first gate in aggregate order that may start, while a slot is free. |
| GateReports.SettleTakesReport | scripts/run-gates.ts:830-836 | A settlement records what the executor reports of any one running gate, and none waits while a slot is free and a gate may start. |
| GateReports.SkipTakesFirst | scripts/run-gates.ts:809-828 | A skip takes the first pending gate in aggregate order with a need that has settled without passing, when nothing runs and nothing may start, and lists exactly such needs in order. |
| GateTiming.GreedyBound | scripts/run-gates.ts:798-837 | For gates with durations, every complete run in which no gate is skipped has a dependency chain with maxActive * makespan <= total work + (maxActive - 1) * length of the chain. |
| GateTiming.StartKeepsGreedy | scripts/run-gates.ts:800-807 | Starting a gate keeps the accounting of work and idle time. |
| GateTiming.SettleKeepsGreedy | scripts/run-gates.ts:830-836 | Waiting for a settlement keeps it: with a free slot, the waiting time extends the chain that explains why the next gate was not ready. |
| GateTiming.TimedInvariant | scripts/run-gates.ts:798-837 | The induction over timed runs. |
| GateSkipping.SkippingExceedsBound | scripts/run-gates.ts:809-828 | With a skip the bound fails: a run of four gates on two slots takes 6, although twice that exceeds the work of 7 plus any chain. |
| GateRunner.Scheduler.constructor | scripts/run-gates.ts:794-796 | The loop starts with every gate pending and nothing running. |
| GateRunner.Scheduler.StartReady | scripts/run-gates.ts:799-807 | Fills slots in aggregate order until no slot or no ready gate is left; the trace stays a run of the machine. |
| GateRunner.Scheduler.SettleOne | scripts/run-gates.ts:830-836 | Settles any one of the running gates; the trace stays a run of the machine. |
| GateRunner.Scheduler.SkipBlocked | scripts/run-gates.ts:809-828 | Skips the first blocked gate, which exists whenever something is pending. |
| GateRunner.Scheduler.Run | scripts/run-gates.ts:798-837 | The loop ends, has settled every gate and holds the specified results. |
| GateRunner.TracedNeverStalls | scripts/run-gates.ts:813 | The throw for a stalled graph is unreachable from every state of the loop. |
| GateRunner.TracedFinish | scripts/run-gates.ts:839-843 | When the loop stops, every gate has its specified result, so the throw for a missing result is unreachable. |
| GateRunner.RunGates | scripts/run-gates.ts:784-844 | Rejects exactly invalid graphs and exactly bounds that are no positive safe integer; otherwise the results are the specified ones, in aggregate order, with the recursive verdict as status, and those of a complete run, so that each skip is explained. |
| ConfigTypes.FindsFirstProperty | scripts/gen-config-catalog.ts:335-343 | The property found is the first property signature written with the name, and none is found only if there is none. |
| ConfigPresence.PresenceIsExclusive | scripts/gen-config-catalog.ts:309-316 | Having a path and definitely lacking it, as the members themselves have it, exclude each other. |
| ConfigLookupProofs.MissingDeclIff | scripts/gen-config-catalog.ts:344-361 | On a declaration missing is right iff the walk overlooks nothing: no index signature, method, other spelling, second declaration or misread node on its way that may have the rest of the path. |
| ConfigLookupProofs.MissingTypeIff | scripts/gen-config-catalog.ts:362-402 | The same on every form of type node. |
| ConfigLookupProofs.FoundDecl | scripts/gen-config-catalog.ts:344-361 | On a declaration found is right unless the walk is misled: by `keyof`, a type parameter, a name that shadows a utility type, or a member that hides what is read. |
| ConfigLookupProofs.FoundType | scripts/gen-config-catalog.ts:362-402 | The same on every form of type node. |
| ConfigMisreadings.LookupIsRight | scripts/gen-config-catalog.ts:317-403 | Both together for every declaration, path and set of earlier visits; and on plainly written declarations missing and found are always right and refute each other. |
| ConfigMisreadings.MissingKeyIff | scripts/gen-config-catalog.ts:335-364 | For one key of an interface without bases: missing is answered iff no property is written with the name, and is right iff no member covers it; otherwise the interface declares the key. |
| ConfigExactness.LookupIsExact | scripts/gen-config-catalog.ts:317-403 | On plainly written declarations whose references form a forest the lookup answers whenever it can: found iff the declaration has the path, missing iff it definitely lacks it, unknown iff neither. |
| ConfigExactness.ImportedBaseIsRead | scripts/gen-config-catalog.ts:281-304 | The member of a base that stands in another file is found through the import, and every other key is answered missing. |
| ConfigStraight.FoundIff | scripts/gen-config-catalog.ts:317-403 | On declarations with unique keys, at most one base and no intersections, found is right iff the walk is not misled. |
| ConfigMisreadings.IndexKeyIsMissed | scripts/gen-config-catalog.ts:337 | A key that an index signature declares is answered missing. |
| ConfigMisreadings.MethodIsMissed | scripts/gen-config-catalog.ts:337 | So is a method. |
| ConfigMisreadings.QuotedKeyIsMissed | scripts/gen-config-catalog.ts:338 | So is a property written with quotes. |
| ConfigMisreadings.MergedKeyIsMissed | scripts/gen-config-catalog.ts:133-139 | So is a member of a second declaration of the interface. |
| ConfigMisreadings.KeyofIsFound | scripts/gen-config-catalog.ts:380 | A member of T is found in `keyof T`, which has no such member. |
| ConfigMisreadings.OwnPartialIsFound | scripts/gen-config-catalog.ts:392-394 | A member is found in a declared type called Partial that definitely lacks it. |
| ConfigMisreadings.ParameterIsFound | scripts/gen-config-catalog.ts:388-400 | A member is found in a type parameter that is called like a declared type. |
| ConfigMisreadings.MisledYetRight | scripts/gen-config-catalog.ts:367-369 | Being misled does not make found wrong when another part of an intersection declares the path, so that condition has no converse. |
| ConfigFuel.FuelDoesNotMatter | scripts/gen-config-catalog.ts:317-403 | A lookup that ends within some call depth has the same outcome at every greater one. |
| ConfigFuel.SeenOnlyClouds | scripts/gen-config-catalog.ts:319-326 | Two lookups of one path that differ in the shared visits agree unless one of them answers unknown. |
| ConfigTermination.EndsWithinRoom | scripts/gen-config-catalog.ts:319-326 | If every declaration has room for the paths that come to it, indexed accesses counted, the lookup ends, however cyclic the declarations. |
| Potentials.PotentialIff | scripts/gen-config-catalog.ts:381-386 | The independent reading of a growing cycle: no cycle of references grows in all iff the declarations carry numbers that rise along every reference by at least its growth. |
| ConfigTermination.RoomExists | scripts/gen-config-catalog.ts:381-386 | There is such room for paths of any length if no cycle of references lengthens the path in all. |
| ConfigTermination.RoomIff | scripts/gen-config-catalog.ts:381-386 | And only then: there is room for every length iff no cycle of references lengthens the path in all. |
| ConfigTermination.LookupEnds | scripts/gen-config-catalog.ts:317-403 | Without such a cycle one call depth serves all declarations and all paths of up to n steps. |
| ConfigTermination.RecursiveEnds | scripts/gen-config-catalog.ts:381-386 | A recursive type may lengthen the path in one reference and shorten it again in others. |
| ConfigTermination.ForwardingNeverEnds | scripts/gen-config-catalog.ts:381-386 | Aliases that do nothing but forward to each other by indexed accesses are never looked up to the end. |
| ConfigTermination.SelfIndexedNeverEnds | scripts/gen-config-catalog.ts:381-386 | In particular `type A = A['x']`. |
| ConfigTermination.UnmatchedCycleEnds | scripts/gen-config-catalog.ts:381-386 | A growing cycle alone does not keep a lookup going: a member on it may have another name than the path asks for. |
| ConfigTermination.DiamondIsUnknown | scripts/gen-config-catalog.ts:344-360 | What sharing the visits costs: on a diamond of empty interfaces a key that is definitely absent is answered unknown. |
| ExportSearch.TargetsMembers | scripts/gen-config-catalog.ts:262-273 | The successors of a site are exactly those its re-exports send it to: a star passes the name on, a named clause passes on the source name of the first element that exports the name. |
| ExportSearch.ExportSearch.constructor | scripts/gen-config-catalog.ts:256 | A search starts without visits. |
| ExportSearch.ExportSearch.Find | scripts/gen-config-catalog.ts:256-278 | One call of the search with its shared `seen`: an answer is the first end of the depth-first order; after a miss everything newly visited is exhausted. |
| ExportSearch.FindExportedTypeDecl | scripts/gen-config-catalog.ts:256-278 | On cyclic re-exports the search ends; a hit or an unreadable file is the first end in depth-first order of the re-exports, a miss means that no reachable site declares the type, and on readable files it hits iff one does. |
| ExportSearch.AnswerIsFixed | scripts/gen-config-catalog.ts:256-278 | There is at most one first end, so these conditions fix the answer. |
| ExportSearch.HitIsExported | scripts/gen-config-catalog.ts:254-278 | The hit is what the module exports under the name if every file on the way exports its own declarations under their names and no others, and no star competes with a named re-export or passes on `default`. |
| ExportSearch.PrivateIsHit | scripts/gen-config-catalog.ts:259-261 | Otherwise a declaration that the file keeps to itself is hit instead of the one it exports under the name. |
| PasteClosure.PasteQueue.constructor | scripts/gen-config-catalog.ts:672 | The queue starts with the config type. |
| PasteClosure.PasteQueue.Refuse | scripts/gen-config-catalog.ts:675-698 | A use that does not resolve or contradicts the tables records one violation and changes no table; the closure is then ambiguous. |
| PasteClosure.PasteQueue.Import | scripts/gen-config-catalog.ts:692-693 | A new or repeated import goes into the references and nowhere else. |
| PasteClosure.PasteQueue.Repeat | scripts/gen-config-catalog.ts:697 | A declaration reached again leaves the queue and changes nothing else. |
| PasteClosure.PasteQueue.Paste | scripts/gen-config-catalog.ts:706-715 | A new declaration is recorded and pasted once, and all its non-global mentions are queued. |
| PasteClosure.PasteQueue.Take | scripts/gen-config-catalog.ts:673-716 | One round takes the head of the queue, keeps the invariant in every branch, and either shortens the queue or pastes a new name. |
| PasteClosure.PasteQueue.TakeImport | scripts/gen-config-catalog.ts:681-694 | The branches of an import paste nothing. |
| PasteClosure.PasteQueue.TakeDeclaration | scripts/gen-config-catalog.ts:696-715 | The branches of a declaration either shorten the queue or paste a new name. |
| PasteClosure.PasteQueue.TakeKnown | scripts/gen-config-catalog.ts:697-705 | A name that already stands for something pastes nothing. |
| PasteClosure.PasteQueue.Drain | scripts/gen-config-catalog.ts:673-716 | The queue empties although types may be recursive. |
| PasteClosure.CollectPastes | scripts/gen-config-catalog.ts:661-717 | No violation iff the closure is unambiguous; then the pastes are exactly the closure, each once, the references exactly its imports, and no name is both or stands for two declarations. In every case pastes, references and violations are those of reading the uses one after the other, each use in the order in which it was met, so the first paste is the config type itself. |
| PasteClosure.ReportIsFixed | scripts/gen-config-catalog.ts:673-717 | Reading the uses in turn fixes the pastes, the references and the violations with their kinds and order. |
| PasteClosure.UsesKeepOrder | scripts/gen-config-catalog.ts:711-715 | The uses a paste queues are its non-global mentions in order, in the file of the declaration. |
| PasteClosure.MentionsAreCovered | scripts/gen-config-catalog.ts:711-715 | Every non-global name a paste mentions is pasted or imported, never both. |
| PasteClosure.PastesAreClosed | scripts/gen-config-catalog.ts:711-715 | The pastes contain the config type and are closed under package-local uses. |
| PasteClosure.PastesAreLeast | scripts/gen-config-catalog.ts:711-715 | They are the least such set. |
| KeyPaths.ParsePath | scripts/gen-config-catalog.ts:232-245 | The two nested loops compute the steps of the path. |
| KeyPaths.TextOfSteps | scripts/gen-config-catalog.ts:232-245 | Writing the parsed steps out gives the path back, for every text. |
| KeyPaths.ParsedIsPath | scripts/gen-config-catalog.ts:232-245 | A parsed path starts with a member, and no member has a dot or ends in `[]`. |
| KeyPaths.StepsOfText | scripts/gen-config-catalog.ts:232-245 | Conversely every such list of steps is what its text parses to. |
| SchemaComposition.ComposedFold.Fold | scripts/gen-config-catalog.ts:736-749 | One call of the recursive fold with its shared `seen`: it goes on depth first from where the callers are, adds the keys and complaints of what it comes upon, in that order, and leaves none of its listings behind. |
| SchemaComposition.FoldComposed | scripts/gen-config-catalog.ts:735-750 | Also on schemas that compose each other in a circle, keys and complaints are those of the packages and uncollected listings met in depth-first order, the given package first. |
| SchemaComposition.FoldOrderIsFixed | scripts/gen-config-catalog.ts:736-749 | There is one such order, so keys and complaints are fixed with their order. |
| SchemaComposition.FoldOrderCovers | scripts/gen-config-catalog.ts:736-749 | It meets exactly the packages composed into the given one and the listings in them that name no collected package, each once. |
| SchemaComposition.CheckSchemaKeys | scripts/gen-config-catalog.ts:750-763 | In that order every listing of a key whose lookup answers missing is reported, nothing else is, and the complaints of the fold are passed on. The check overflows the stack iff some lookup is too deep for it. |
| SchemaComposition.ReportedIsMissing | scripts/gen-config-catalog.ts:750-763 | So a key is reported iff a composed schema validates it and its lookup answers missing at some call depth; that is right iff the lookup overlooks nothing, as always on plain declarations. |
| SchemaComposition.CheckCompletes | scripts/gen-config-catalog.ts:750-763 | Without a growing cycle of references some stack is deep enough for every check. |
| Publication.AfterStored | scripts/publish-npm-baseline.ts:630-650 | The integrities after k packages: old ones untouched, missing ones those of the bundle. |
| Publication.AfterTags | scripts/publish-npm-baseline.ts:649 | The dist-tags after k packages: those of the first k packages name this version, all others are untouched. |
| Publication.RestartCatchesUp | scripts/publish-npm-baseline.ts:630-650 | A restart after k packages changes nothing until it gets past the k-th. |
| Publication.FinalIsStable | scripts/publish-npm-baseline.ts:625-654 | Publishing once more after the end changes nothing. |
| Publication.ConflictsStay | scripts/publish-npm-baseline.ts:639-643 | A restart sees the same integrity conflicts as the first run. |
| PublicationSafety.ReachedTransitive | scripts/publish-npm-baseline.ts:625-654 | A state reached by a crashed run and a restart is a state one run could have been left in. |
| PublicationSafety.HistoryIsOneRun | scripts/publish-npm-baseline.ts:625-654 | So is every state of a history of any number of runs. |
| PublicationSafety.ReachedKeepsStored | scripts/publish-npm-baseline.ts:631-648 | No stored integrity ever changes. |
| PublicationSafety.LatestSafeIff | scripts/publish-npm-baseline.ts:649-651 | The entry package gets `latest` only once every package is present with its recorded integrity and dist-tag, iff the release tag is not `latest` itself or the entry package comes last in the manifest. |
| PublicationSafety.LatestTooEarly | scripts/publish-npm-baseline.ts:649-651 | Otherwise a run from the empty registry can be cut off with `latest` on this version and a package missing. |
| PublicationSafety.HistoryIsCrashSafe | scripts/publish-npm-baseline.ts:625-654 | Both over whole histories: integrities never change, and under that condition `latest` never comes too early. |
| PublicationSafety.CompletedRunsAgree | scripts/publish-npm-baseline.ts:625-654 | Wherever in a history a run completes, it ends in the state the first one would have ended in. |
| RegistryPublication.RegistryPublication.EnsureDistTag | scripts/publish-npm-baseline.ts:755-764 | Sets exactly the one tag, or is cut off or refused without a change. |
| RegistryPublication.RegistryPublication.PublishPackage | scripts/publish-npm-baseline.ts:630-650 | One round: the package dealt with, a conflict refused without a change, or cut off before or after its commands. |
| RegistryPublication.RegistryPublication.VerifyRemote | scripts/publish-npm-baseline.ts:662-698 | Completes only after it has read back the integrity and the tag of every package in order and `latest` last, and only if every package is present and `latest` names this version; it does not fail if so. |
| RegistryPublication.RegistryPublication.Publish | scripts/publish-npm-baseline.ts:625-654 | Wherever it is cut off, the registry is in a reached state; it completes only from states that allow it, with the whole bundle read back by its last commands, and then ends in the final state; it fails only from the others, and is not cut off if 6 commands a package and 3 more are left. |
| PackageGraph.PrecedesIsPreorder | scripts/package-graph.ts:77-83 | comparePackages orders packages totally and transitively for every collation that does. |
| PackageOrder.ComparisonIff | scripts/package-graph.ts:77-83 | A package ranks first iff its group is listed at a smaller index than that of the other, or it alone is listed, or, with neither listed or the same group, the collation puts its group first, or its short name if the groups collate equal. |
| PackageOrder.EntriesKeepFirstPlace | scripts/package-graph.ts:60 | In the map the short names stand in the order in which the input has them first. |
| PackageGraph.UniqueEntries | scripts/package-graph.ts:60 | Under unique short names the map holds the packages in input order. |
| PackageTies.EntryIsLastOfName | scripts/package-graph.ts:60 | In general the map holds of each short name exactly the last package. |
| PackageSort.TopoSort | scripts/package-graph.ts:59-75 | Throws iff some dependency is unlisted or the dependencies are cyclic, and names exactly the packages that can never be placed, in input order; otherwise the output is a permutation in order of longest-path layer, then comparePackages, then input order. |
| PackageOrder.BeforeIff | scripts/package-graph.ts:59-83 | One package comes before another in the result iff its longest dependency path is shorter, or equally long and it ranks first, or neither does and it was given first. |
| PackageSort.RoundAddsLayer | scripts/package-graph.ts:63-72 | One round places exactly the next layer. |
| PackageSort.StuckMeansCycle | scripts/package-graph.ts:67 | A round with nothing ready means that some dependency is unlisted or cyclic. |
| PackageSort.DependenciesFirst | scripts/package-graph.ts:59-75 | Every dependency precedes its dependents. |
| PackageSort.PathsFitLayer | scripts/package-graph.ts:63-72 | No dependency path of a package is longer than its layer. |
| PackageSort.SomePathFillsLayer | scripts/package-graph.ts:63-72 | And one is as long: the layer is the length of the longest path. |
| PackageSort.LayersAreUnique | scripts/package-graph.ts:63-72 | The set of packages determines the layers. |
| PackageTies.LayerIsLongestPath | scripts/package-graph.ts:63-72 | The layer of a package is the length of its longest dependency path. |
| PackageTies.ResultIgnoresInputOrder | scripts/package-graph.ts:59-75 | If no two packages with equally long dependency paths tie in comparePackages, two results for the same packages are equal, whatever the input orders. |
| PackageTies.SeparateNamesFixResult | scripts/package-graph.ts:59-83 | In particular when the collation tells the short names apart. |
| PackageTies.TiesFollowInput | scripts/package-graph.ts:66 | Tied packages stand as they were given. |
| PackageTies.ReversalIgnoredIff | scripts/package-graph.ts:59-83 | Reversing the entries of the map leaves the result as it is iff no two packages tie. |
| PackageTies.PackagesReversedIff | scripts/package-graph.ts:59-83 | Under unique short names the results for a list of packages and its reversal are equal iff no two packages tie. |
| PackageTies.TiedNamesShow | scripts/package-graph.ts:77-83 | Two packages whose names a collation does not tell apart: the two input orders are a reversal of each other, and each is its own result. |
| Sorting.SortIsStable | scripts/package-graph.ts:66 | The sort keeps elements that rank equal in their given order. |
| Sorting.SortedIsUnique | scripts/package-graph.ts:66 | Without ties a sorted sequence is determined by its elements. |
| ArtifactFraming.FeedDigest | scripts/client-build-environment.ts:254-261 | The digest is fed the concatenated frames of all artifacts, each length in decimal digits that read back as that length. |
| ArtifactFraming.FrameMeans | scripts/client-build-environment.ts:255-260 | A frame is the length of the data in decimal digits, a colon and the data. |
| ArtifactFraming.DecodeEncode | scripts/client-build-environment.ts:254-261 | A decoder recovers the exact list of paths and contents. |
| ArtifactFraming.FramingIsInjective | scripts/client-build-environment.ts:254-261 | Different artifact lists never feed the digest the same bytes. |
| TranslationLinkProofs.ResuffixedTarget | scripts/translation-links.ts:162-171 | Swapping the suffix of the authored path swaps the suffix of its target. |
| TranslationLinkProofs.RebuiltTarget | scripts/translation-links.ts:152-160 | The encoded relative path, with or without `./`, means the expected file. |
| TranslationLinkProofs.ResuffixStaysInside | scripts/translation-links.ts:162-173 | Swapping the suffix makes no link external. |
| TranslationLinkProofs.ExpectedPathLeads | scripts/translation-links.ts:175-198 | The rewritten URL splits into the new path and the old query and fragment, stays internal, and resolves to the expected file if that exists. |
| TranslationLinkProofs.RewriteIsClean | scripts/translation-links.ts:268-298 | A rewritten link is in order, unless its expected document is itself the Chinese half of another pair; its query and fragment are kept. |
| WrongLocale.ViolationIff | scripts/translation-links.ts:127-198 | In a Chinese document exactly the internal links that resolve to the English half of a pair are in the wrong locale, in an English document exactly those to a Chinese half, whatever the directories. |
| WrongLocale.RewriteLeads | scripts/translation-links.ts:162-198 | Such a link to `stem.md` is rewritten to one that leads to `stem.zh.md` in the same directory, and conversely, with its query and fragment. |
| WrongLocale.RewriteKeepsPath | scripts/translation-links.ts:162-171 | A link written with the suffix keeps all the rest of its path as it is written. |
| WrongLocale.RewriteRebuilds | scripts/translation-links.ts:152-173 | A link written without it becomes the encoded relative path, after `./` if it had that before and the path does not start with a dot. |
| RepositoryPaths.WalkLaws | scripts/translation-links.ts:115-125 | Resolving a path drops empty and `.` steps, and `..` takes back a name. |
| RepositoryPaths.WalkAbove | scripts/translation-links.ts:115-121 | Above the root `..` steps remain. |
| RepositoryPaths.RelativeIsShortest | scripts/translation-links.ts:157 | The relative path of the rewritten link is the shortest way up and down again, and the only one of its length. |
| ChainedLinks.ChainContextIsGood | scripts/translation-links.ts:98-104 | The laws asked of a repository and of percent coding can be met: a small codec and a repository with documents in its root meet them. |
| ChainedLinks.ChainedLinkStaysWrong | scripts/translation-links.ts:137-144 | That exception occurs: in an English document a link to `name.zh.zh.md` is rewritten to `name.zh.md`, which is again a violation. |
| LinkRewriting.ApplyReplacements | scripts/translation-links.ts:220-226 | Splicing disjoint replacements from the last to the first equals substituting all at once, every byte outside kept. |
| DocumentRewriting.RenderConcat | scripts/translation-links.ts:220-226 | The text of a document is that of its parts, one behind the other. |
| DocumentRewriting.RenderOne | scripts/translation-links.ts:220-226 | The text of a part is its prose or its link destination. |
| DocumentRewriting.SubstituteCorrects | scripts/translation-links.ts:287-298 | Replacing the destinations of a document corrects exactly those and keeps all text between them. |
| DocumentRewriting.RewriteTranslationLinkLocales | scripts/translation-links.ts:287-298 | The new content is the document with every wrong-locale link corrected, and the count is that of the corrected links. |
| DocumentRewriting.RewrittenIsClean | scripts/translation-links.ts:268-298 | The rewritten document has no violation iff no link is of the exceptional kind, and then a second rewrite changes nothing. |
| WrongLocale.ExternalIff | scripts/markdown.ts:70-75 | A link is external iff it starts with a hash or a slash, or with a scheme and a colon. |
| CommentScanning.ScanComments | scripts/markdown.ts:207-215 | The comments found are in order and apart, each from an opener to the first closer behind it or to the end of the text, and every opener lies in one of them. |
| CommentScanning.CommentsAreUnique | scripts/markdown.ts:207-215 | This fixes the comments of a text. |
| CommentScanning.OneComment | scripts/markdown.ts:207-215 | A text with one opener has one comment, which ends with the closer behind it or with the text. |
| CommentScanning.DocumentComments | scripts/markdown.ts:204-216 | A source offset is covered iff it lies in a comment of some HTML node. |
| CommentScanning.MarkdownProseLines | scripts/markdown.ts:255-272 | The lines kept are, in order, those outside code blocks that show text once exactly these comments are masked. |
| CommentScanning.MaskCoversIff | scripts/markdown.ts:207-215 | Where the parser has stripped the starts of lines, as in a block quote, the mask covers a comment in the source iff nothing has been stripped up to the line on which the comment ends. |
| CommentScanning.SourceHasText | scripts/markdown.ts:207-215 | In a source in which each newline of the text is followed by what the parser strips, the source offset of a position holds its character. |
| CommentMasking.ColumnIsOffset | scripts/markdown.ts:218-233 | Column c of a line is the source character at the offset where the line starts, plus c. |
| CommentMasking.LineRanges | scripts/markdown.ts:221-231 | A column lies in a range of its line iff its source offset lies in a comment, and a line has no ranges iff no offset of it does. |
| CommentMasking.TouchesIff | scripts/markdown.ts:224-229 | A comment touches a line iff it covers an offset of it, where the one offset of an empty line is its end. |
| CommentMasking.HasRenderedTextOutsideComments | scripts/markdown.ts:238-248 | For overlapping, nested and unsorted ranges a line shows text iff it has no ranges or a non-blank character outside all of them. |
| CommentMasking.NextRange | scripts/markdown.ts:242-245 | One round adds exactly the uncovered text before the next range. |
| CommentMasking.ProseLines | scripts/markdown.ts:255-272 | The loop keeps exactly the lines outside code blocks that no comment touches or that have a non-blank character in no comment. |
| ReferenceFaces.NoComplaintIff | scripts/project-reference-faces.ts:40-57 | A reference draws no complaint iff it leads outside all split projects, or to the leaf of the face its config inherits in the innermost split project around its target. |
| ReferenceFaces.ComplaintIff | scripts/project-reference-faces.ts:40-56 | A complaint names the innermost split project around the target and either says that the config has no face, or which face it has, so that another leaf is meant; it is given exactly when that is so. |
| ReferenceFaces.ComplaintsStandAt | scripts/project-reference-faces.ts:40-57 | A config draws one complaint for each of its bad references, in their order. |
| ReferenceFaces.FollowedIff | scripts/project-reference-faces.ts:57-58 | The traversal follows exactly the references that keep the face. |
| ReferenceFaces.CollectViolations | scripts/project-reference-faces.ts:30-63 | On cyclic references the traversal ends and reports, sorted, exactly the bad edges whose source is reachable from the two aggregates over good edges, each as often as its config has it. |
| ReferenceFaces.CleanIff | scripts/project-reference-faces.ts:30-63 | The report is empty iff every reference of every reachable config is such a reference. |
| ReferenceFaces.ReportIsUnique | scripts/project-reference-faces.ts:62 | So the report does not depend on the order of the traversal. |
| ReferenceFaces.FaceIsInherited | scripts/project-reference-faces.ts:88-103 | A config has a face iff its chain of extended configs reaches one named for that face. |
| ReferenceFaces.ChainIsDistinct | scripts/project-reference-faces.ts:98-99 | No such chain meets a config twice: the seen set only stops cycles. |
| ReferenceFaces.SplitRootIsInnermost | scripts/project-reference-faces.ts:65-71 | The split root found is the innermost one. |
| WorkerPool.AdvanceKeepsSound | scripts/publint-all.ts:207-215 | Whichever worker moves, each target before the counter has been taken once, in order, and is either in progress with one worker or has its result. |
| WorkerPool.AdvanceUsesWork | scripts/publint-all.ts:207-215 | Every move uses up work, so the pool ends under every interleaving. |
| WorkerPool.StoppedIsComplete | scripts/publint-all.ts:217-221 | When all workers have stopped no slot is missing. |
| WorkerPool.RunAll | scripts/publint-all.ts:204-222 | Under every interleaving each target is linted once and the results are in target order. |
| JsDoc.BlocksKeepWords | scripts/jsdoc.ts:46-80 | The blocks defined by runs of lines, paragraphs and bullets hold the words of the lines, all of them and in order. |
| JsDoc.BlockParser.constructor | scripts/jsdoc.ts:40-44 | The parser starts empty. |
| JsDoc.BlockParser.FlushItem | scripts/jsdoc.ts:46-49 | The open item joins the list. |
| JsDoc.BlockParser.FlushList | scripts/jsdoc.ts:50-54 | The list with its open item becomes one block. |
| JsDoc.BlockParser.FlushPara | scripts/jsdoc.ts:55-59 | Everything pending is completed, the list first. |
| JsDoc.BlockParser.EndRun | scripts/jsdoc.ts:67 | A blank line completes everything pending and leaves the blocks in prospect as they were. |
| JsDoc.BlockParser.OpenItem | scripts/jsdoc.ts:68-75 | So does a bullet, which completes the paragraph above it first. |
| JsDoc.BlockParser.Continue | scripts/jsdoc.ts:76-77 | So does a further line, which goes to the open item or else the paragraph. |
| JsDoc.BlockParser.Feed | scripts/jsdoc.ts:60-78 | A line of prose leaves the blocks in prospect as they were, the first block tag completes them, and nothing behind it adds a block; a pending paragraph never coexists with a pending list or item. |
| JsDoc.BlockParser.ReadAll | scripts/jsdoc.ts:60-79 | After the last line and the final flush the blocks are exactly those of the prose lines. |
| JsDoc.ParseBlocks | scripts/jsdoc.ts:32-82 | The output is exactly the blocks of the prose lines before the first block tag, and so has their words in order. |
| JsDoc.LinesMean | scripts/jsdoc.ts:62-69 | A block tag is a line whose first visible character is an at sign, a bullet a hyphen with a white-space character behind it, a blank line one without visible characters. |
| JsDoc.JoinedText | scripts/jsdoc.ts:46-59 | The lines of a paragraph or item are joined as the words in them, one space apart. |
| Whitespace.SpacesAre | scripts/jsdoc.ts:45 | White space is that of the language, by code point. |
| Whitespace.WordsLaws | scripts/jsdoc.ts:45 | White space in front of a text adds no word, and a run of other characters up to white space or the end is one word. |
| PairedDerivatives.GroupByDoc | scripts/paired-markdown-derivatives.ts:35-41 | The map holds exactly the blocks of every document, in order. |
| PairedDerivatives.PartitionPairedMarkdownDerivatives | scripts/paired-markdown-derivatives.ts:30-63 | The outputs are the blocks of derivative documents and the others, and together they are the input. |
| Selections.SelectKeepsOrder | scripts/paired-markdown-derivatives.ts:57-61 | Each output is the elements of the input that qualify, standing at increasing positions and with none left out. |
| PairedDerivatives.DerivativeIff | scripts/paired-markdown-derivatives.ts:43-55 | A document is derived iff it is `stem.zh.md`, `stem.md` has blocks too, both have equally many, and their fingerprints agree one by one. |
| PairedDerivatives.DerivativeHasPrimary | scripts/paired-markdown-derivatives.ts:43-55 | The fingerprints of a derivative document are those of a document that stays primary, through chains of derivatives too. |
| LinkRewriting.SortedIsDescending | scripts/project-doc-site.ts:197-200 | Sorting disjoint replacements by descending start puts each behind all later ones, so both splices have the form that equals a simultaneous substitution. |

## Left out

- GateTiming.GreedyBound: is stated for runs in which no gate is skipped; with a skip it fails, as GateSkipping.SkippingExceedsBound shows.
- ConfigLookupProofs.FoundDecl: is an implication only; its converse is false in general, as ConfigMisreadings.MisledYetRight shows, and holds on straight declarations, by ConfigStraight.FoundIff.
- ConfigLookupProofs.FoundType: is an implication only, for the same reason.
- ConfigExactness.LookupIsExact: where declarations are met twice or are not plain, an answer may be unknown although the type has the path or lacks it, as ConfigTermination.DiamondIsUnknown shows.
- ExportSearch.HitIsExported: gives a condition under which the hit is right, not the exact one.
- ConfigTermination.LookupEnds: is an implication only; its converse is false, as ConfigTermination.UnmatchedCycleEnds shows.
- DocumentRewriting.RewrittenIsClean: the rewritten text is not parsed again; it is taken to have the same links with the new destinations.
- SchemaComposition.CheckSchemaKeys: schema keys that contain a dot are taken apart at it, as the code does, and then name another path.
- PublicationSafety.CompletedRunsAgree: compares the whole registry of the model, which holds integrities and dist-tags but no other package metadata.
- PackageOrder.BeforeIff: is stated for group lists shorter than 2^32, the greatest length of an array; beyond `Number.MAX_SAFE_INTEGER` a listed group would rank behind an unlisted one.
- GateGraph.FindDependencyCycle: which of several cycles is returned is not stated.
- ReferenceFaces.ReportIsUnique: assumes an order of messages without ties, as the order of strings is.
- WorkerPool.RunAll: a lint call is a function of its target, and its start and end are the two moves of a worker; rejected calls are not modelled.
- RegistryPublication.RegistryPublication.Publish: treats each npm command as atomic, `publish` as refusing a stored version and setting only the requested tag, and assumes no other writer; the ping, identity and confirmation steps before it change nothing and are left out.
- The executor of a gate is a function of the gate; executors that reject, and gate fields the scheduler does not read, are not modelled.
- Spawned processes, streams, timers, printing and summaries.
- The TypeScript compiler, the Markdown parser, globbing, git and the file system: declarations, re-exports, links, HTML nodes and configs are given as data, existence as a predicate, percent coding and collation as functions with the laws the code relies on (so not on texts that percent coding rejects).
- Resolution of type names through imports, taken as a given map in the lookup and in the paste closure; which keys an index pattern admits and which declarations are merged are given too.
- The call stack of the lookup is a bound on nested declarations; exceeding it stands for the thrown error.
- The walk of schema expressions, the checks of member documentation and the rendering of the catalog.
- Where a link destination lies inside a link node.
- CommentScanning.DocumentComments: counts offsets in the text of a node as the code does, also where the parser has altered it.
- SHA-256 itself: only what is fed to it.
- JSDoc delimiters, `@mode` values, `@param` and `@returns` tags and the rewriting of inline links.
- A tsconfig that does not parse.
- Sorting is a stable insertion sort with the contract of the built-in one.
- The projection of pages, their routes and the claims on projected paths in `scripts/project-doc-site.ts`; only its splice, which is the one of the translation links.
- Constant lists, such as that of the global types, are copied and nothing further is said about them.
- The concrete gate lists, environment parsing and argument checks: constants and single conditions.
