# Verified model of function-starlark

function-starlark is a Crossplane composition function: on every reconcile it runs a Starlark script
that emits composed resources, orders their creation by declared dependencies, protects those
dependencies with Usage objects, and reports readiness. This project models its hard parts in Dafny
and proves what they guarantee over every input, every run and every reachable state.

| file | part of the system |
|---|---|
| `Graphs.dfy`, `Names.dfy`, `Wrappers.dfy`, `Proto.dfy`, `Starlark.dfy` | walks, cycles and ranks of finite graphs; sorted names; protobuf and Starlark values |
| `Dependencies.dfy` | the three-colour search for dependency cycles |
| `Sequencer.dfy`, `Usages.dfy`, `Collector.dfy`, `Reconcile.dfy` | one reconcile: what a script collects, what is withheld, which Usages exist, what the response is |
| `Runs.dfy`, `UsageRuns.dfy` | runs of reconciles with Crossplane as the environment in between |
| `OciCache.dfy`, `OciResolver.dfy` | the two-layer artifact cache and the level-by-level resolver |
| `ModuleLoader.dfy` | the recursion of load, star expansion and export scanning |
| `Compact.dfy`, `Convert.dfy`, `LazyDict.dfy` | pruning, protobuf/Starlark conversion, lazily materialized dicts |
| `Schema.dfy`, `EditDistance.dfy` | schema validation and name suggestions |
| `RegexCache.dfy` | the least-recently-used cache of compiled patterns |

Main results:

- `Dependencies.ValidateDependencies` accepts exactly the acyclic dependency lists, and names a real
  simple cycle otherwise. On exactly those lists the reconcile loop converges:
  `Runs.ConvergesExactlyAtRank` gives the number of the first reconcile that desires a resource, in both
  directions, and `Runs.StarvingSetIsNeverReleased` with `Graphs.CyclicIffStarvingSet` shows that a cycle
  would block its members forever.
- `Runs.DependenciesComeFirst` shows, over every run, that a resource is created only after each of its dependencies was
  observed and ready, or led to something at its field path; `Sequencer.MetExactlyWhen` writes out what that means.
- `OciCache.AnswersAreCurrent` shows, over every sequence of calls under Always with a positive TTL, that content older than
  the TTL is served only when it is pinned, named by the registry again, or the pull failed.
- `UsageRuns.UsageNeverChangesScope` shows that no Usage changes kind or namespaces on any run whose declared
  pairs of one Usage name have one scope; `UsageRuns.CollisionChangesScope` shows that this condition cannot be
  dropped, `UsageRuns.UsageDesiredIff` and `UsageRuns.FirstDesiredWhenReady` say exactly when a Usage is desired.
- `OciResolver.Resolver.Resolve` returns a closed, acyclic artifact graph with every artifact fetched once
  at its shortest distance, or an error whose stated reason is real; either way no reference is asked for twice.
- `ModuleLoader.LoadFresh` ends on every module universe and succeeds exactly when the module lies in a set
  of modules that load only each other, without a cycle.
- `Convert.RoundTrip`, `Usages.RetainedScopeRoundTrip`, `Compact.CompactValue`, `EditDistance.Levenshtein`,
  `Schema.ValidateFields` and `RegexCache.Cache.Get` each tie the code to an independent definition.

Where the code differs from its comments, or a property one would expect of it fails, the model follows the code:

- A cache with pull policy Always and a TTL of zero never revalidates a tag (`runtime/oci/cache.go:89`), while
  the comment at `runtime/oci/cache.go:22-24` says it does; see `OciCache.ZeroTtlNeverRevalidates`.
- The number -2^63 is refused (`convert/convert.go:70`), while the comment above that line says that numbers
  of this size are kept as floats by an earlier check; that check comes later. See `Convert.ConvertValue` for the exact condition and
  `Convert.LeastInt64IsRefused` for the input.
- A schema field assignment accepts dict wrappers that construction rejects (`schema/schema.go:239`); see
  `Schema.MutationAgreesExactly` for the exact condition and `Schema.WrapperIsOnlyAssignable` for an input.
- Deferring a resource does not remove it from the desired state if an earlier pipeline step or a Usage put
  the same name there (`fn.go:346-369`, `builtins/builtins.go:443-465`); see `Runs.WithheldIsAbsentIff` for
  the exact condition and `Runs.WithheldStaysDesired` for a round.
- Two pairs with one Usage name share one Usage (`builtins/usage.go:22-25`, `builtins/usage.go:285`), which then
  follows the later ready pair; see `UsageRuns.CollisionExample`.

## Model

| member | source | states |
|---|---|---|
| `Dependencies.ValidateDependencies` | builtins/usage.go:293-373 | Succeeds exactly when every handle names a created resource and no chain of declared pairs returns to its start, self-dependencies included; otherwise reports the first missing target, or a real simple cycle. |
| `Dependencies.CheckTargets` | builtins/usage.go:295-308 | Reports the first handle whose target was not created, and nothing exactly when there is none. |
| `Dependencies.FindCycle` | builtins/usage.go:310-372 | Finds a simple cycle of declared pairs, or the graph is acyclic. |
| `Dependencies.Adjacency` | builtins/usage.go:312-318 | The adjacency lists hold exactly the declared edges and the node set exactly their ends. |
| `Dependencies.CycleSearch.Dfs` | builtins/usage.go:328-355 | A search from a white name ends with that name black and the gray stack as before, or with a simple cycle; the number of white names decreases. |
| `Dependencies.CycleSearch.VisitAll` | builtins/usage.go:331-352 | Afterwards every neighbour is black, or a simple cycle was found. |
| `Dependencies.CycleSearch.Visit` | builtins/usage.go:332-351 | A gray neighbour yields a simple cycle, a white one is searched, and in the end the neighbour is black. |
| `Dependencies.CycleSearch.CyclePath` | builtins/usage.go:333-344 | The parent-pointer walk ends; the path starts and ends at the gray neighbour, repeats no other name, and each step is a declared pair. |
| `Dependencies.Reverse` | builtins/usage.go:340-343 | The swap loop puts the walk into the opposite order. |
| `Dependencies.CycleSearch.ColoredIsDone` | builtins/usage.go:364-370 | Between two searches a name that is not white is black. |
| `Dependencies.CycleSearch.AllDone` | builtins/usage.go:364-372 | When all names are black, the order in which they turned black excludes every cycle. |
| `Names.SortNames` | builtins/usage.go:357-362 | Is the listing of exactly the names of the set in strictly ascending order. |
| `Names.LessExactly` | builtins/usage.go:357-362 | The order is lexicographic: one name ends, or has the smaller character, where the two part. |
| `Names.AscendingUnique` | builtins/usage.go:357-362 | That order is unique, so traversals over sorted map keys are deterministic. |
| `Graphs.AddEdgeAcyclic` | runtime/oci/resolver.go:218-226 | Adding an edge a to b keeps a graph acyclic if b does not reach a. |
| `Graphs.AddEdgeCyclic` | runtime/oci/resolver.go:218-221 | Adding it creates a cycle if b reaches a. |
| `Graphs.NumberedIsAcyclic` | builtins/usage.go:353-354 | A graph whose edges all lead to smaller numbers has no cycle. |
| `Graphs.RankStep` | builtins/sequencer.go:51-83 | In an acyclic graph the longest chain of a dependency is shorter than that of its dependent. |
| `Graphs.ChainBound` | builtins/sequencer.go:51-83 | In an acyclic graph no chain is longer than the number of nodes. |
| `Graphs.CyclicIffStarvingSet` | builtins/usage.go:310-372 | A graph has a cycle exactly when some non-empty set of names each depends on another name in the set. |
| `Proto.SplitJoins` | builtins/sequencer.go:303-333 | The keys of a field path join to the path again. |
| `Proto.SplitIsDotFree` | builtins/sequencer.go:303-333 | No key contains a dot. |
| `Proto.JoinSplits` | builtins/sequencer.go:303-333 | No other dot-free keys join to that path. |
| `Proto.LookupExactly` | builtins/sequencer.go:303-333 | The walk finds a value exactly when a chain of structs leads to it, key by key. |
| `Proto.TruthyExactlyWhen` | builtins/sequencer.go:335-365 | Only absent values, null, the empty string, zero and false are not truthy. |
| `Proto.IsFieldReady` | builtins/sequencer.go:303-333 | The walk over the keys decides whether the path leads to a truthy value. |
| `Sequencer.ReadyExactlyWhen` | builtins/sequencer.go:120-298 | A resource is ready exactly when its body at status.conditions has a condition Ready=True and one Synced=True; a Kubernetes Object with nested conditions is judged by those alone, by the first Ready and Synced if Ready is reported and by all of them otherwise. |
| `Sequencer.MetExactlyWhen` | builtins/sequencer.go:52-71 | A dependency is met exactly when it is observed with a body and, with a field path, the keys of the path lead to a value other than null, the empty string, zero and false, or, without one, the body counts as ready. |
| `Sequencer.UnmetReasonExactly` | builtins/sequencer.go:120-298 | No reason is given exactly for met dependencies; otherwise the reason is the one of mutually exclusive cases that applies: missing, no such field, Ready or Synced not True, or what nested conditions lack. |
| `Sequencer.WithheldExactly` | builtins/sequencer.go:73-83 | A name is withheld exactly when it is unobserved and one of its declared dependencies is not met in that sense. |
| `Sequencer.WaitsIffUnmet` | builtins/sequencer.go:52-71 | A resource waits for something exactly when one of its declared dependencies is unmet. |
| `Sequencer.WaitsAreUnmet` | builtins/sequencer.go:52-71 | What a resource is said to wait for are exactly its unmet dependencies, each with its reason. |
| `Sequencer.WaitsInOrder` | builtins/sequencer.go:52-71 | They are listed in the order of declaration, one for each unmet dependency. |
| `Sequencer.CollectUnmet` | builtins/sequencer.go:52-71 | Collects for every dependent all its unmet dependencies in declaration order, and nobody else. |
| `Sequencer.Evaluate` | builtins/sequencer.go:51-113 | Withholds exactly the unobserved resources with a declared dependency that is not observed and ready, or whose field path leads to nothing; sorted, each with all its reasons. An observed resource is never withheld. |
| `Usages.RetainedScopeRoundTrip` | builtins/usage.go:98-140 | The scope read back from a built Usage is the scope it was built with. |
| `Usages.LiveScopeResolves` | builtins/usage.go:66-89 | On the v2 API each namespaced side is looked up where it lives, the Usage is cluster-scoped exactly when neither side is namespaced, and no other scope with an override only where it is needed does this; on the v1 API there are no namespaces. |
| `Usages.PairReadyIff` | builtins/usage.go:170-180 | Both sides are observed and count as ready, and the field path, if any, leads to something. |
| `Usages.ContributedExactly` | builtins/usage.go:257-285 | A pair contributes a Usage exactly when both sides are ready or a Usage or ClusterUsage is observed under its name. Its spec.of selects the dependency and its spec.by the dependent, by label and by apiVersion and kind of the observed body, or of the collected one where that says nothing; only spec.of overrides the namespace; deletions are replayed; the scope is that of the live sides, or of the existing Usage if a side is missing. |
| `Usages.UsagesProtect` | builtins/usage.go:250-288 | A name has a Usage exactly when a declared pair calls for one, and it protects the last such pair in that way. |
| `Usages.BuildUsageResources` | builtins/usage.go:250-288 | Builds for every name exactly the Usage that protects the dependency of the last declared pair calling for it, with spec.of on the dependency and spec.by on the dependent, and none for other names. |
| `Usages.UsageComesFromPair` | builtins/usage.go:250-288 | A name is emitted exactly when a declared pair of that name contributes a Usage, and it is the last such pair's Usage. |
| `Usages.PairScope` | builtins/usage.go:257-285 | Whichever sides of a pair are observed, the Usage it contributes has the scope of the sides' namespaces, if an existing Usage of that name has. |
| `UsageRuns.UsageDesiredIff` | fn.go:337-350 | A name that neither the script's resources nor earlier steps use is desired exactly when a declared pair of that name has both sides ready or a Usage already; it is then marked ready and protects such a pair: spec.of selects the dependency and spec.by the dependent. |
| `UsageRuns.WarrantedIsDesired` | fn.go:337-350 | Whatever earlier steps desire under its name, such a pair has a Usage desired that protects a declared pair of that name, unless the script emits a resource under it. |
| `UsageRuns.ExistingUsageStaysDesired` | builtins/usage.go:186-197 | A Usage that is observed and still declared stays in the desired state, ready or not, and protects a declared pair of its name; only a resource of the script under the same name replaces it. |
| `UsageRuns.FirstDesiredWhenReady` | builtins/usage.go:170-180 | In every run a Usage is desired for the first time exactly when both sides of a declared pair of that name are ready. |
| `UsageRuns.ScopesStayLive` | builtins/usage.go:213-227 | In every run, existing Usages of declared pairs have the scope of their sides at every reconcile, if declared pairs of one Usage name have one scope. |
| `UsageRuns.UsageNeverChangesScope` | builtins/usage.go:199-227 | On such a run what is desired under the name of a declared pair never changes kind, namespace or of-namespace, whichever sides vanish or return. |
| `UsageRuns.RetainedWhenSideVanishes` | builtins/usage.go:266-284 | Every pair of distinct resources has such a run in which its Usage is created, its dependency vanishes, and the Usage stays desired. |
| `UsageRuns.CollisionChangesScope` | builtins/usage.go:22-25 | Any two pairs with one Usage name and different scopes have a run, regular in all else, on which that Usage changes its scope. |
| `UsageRuns.CollisionExample` | builtins/usage.go:22-25 | Two such pairs, one namespaced and one cluster-scoped. |
| `Collector.SkipTriggerIff` | builtins/collector.go:613-631 | A transitive skip is triggered exactly when some item refers to a skipped resource, and names the first one. |
| `Collector.PairsExactly` | builtins/collector.go:708-763 | A depends_on list records one pair for each handle, string, and two-element tuple of either with a non-empty path, in order, and fails exactly on a tuple of another length, another type, or a tuple without a non-empty path. |
| `Collector.RecordedIff` | builtins/collector.go:708-763 | A pair is recorded exactly when its dependent is the declared resource and some item names its dependency in that form, with its path and as a handle or a string. |
| `Collector.ResourceCallDecides` | builtins/collector.go:543-781 | A call emits its body, readiness and connection details and records exactly the dependencies its list names, when its gate is open, it has a body and refers to nothing skipped; re-emits the observed body when a closed gate keeps an existing one; and otherwise is skipped with its reason, gating the composite once unless its closed gate is optional. Nothing else changes. |
| `Collector.ResourceCallHalts` | builtins/collector.go:543-781 | A call fails exactly on a gate of the wrong type, an observed body that cannot be kept, or an emission with an unusable body, a malformed dependency, or readiness or connection details of the wrong type. |
| `Collector.OtherCallsDecide` | builtins/collector.go:332-357 | skip_resource fails exactly on a collected resource and otherwise records the skip without gating; set_condition fails exactly on the reserved type; the last override counts. |
| `Collector.PairsAreGenuine` | builtins/collector.go:708-763 | Every recorded dependency belongs to the resource being declared, and handle dependencies name resources the script holds a handle of. |
| `Collector.CallCoherent` | builtins/collector.go:543-781 | Every builtin call keeps the collected state coherent: dependents and handle targets are collected, gating skips are recorded once, the reserved condition is never set by a script. |
| `Collector.RunCoherent` | builtins/collector.go:543-781 | So does every successful script run. |
| `Collector.ScriptRunIsSound` | fn.go:301-388 | After every successful script run the missing-target check cannot fail, deferred names are collected, and emitted and deferred resources partition the collected ones. |
| `Collector.ScriptCollector.Skip` | builtins/collector.go:332-357 | Records a skip once per name, gating only if asked to. |
| `Collector.ScriptCollector.FindSkipped` | builtins/collector.go:613-631 | Finds the first skipped reference in depends_on, alone or in a pair. |
| `Collector.ScriptCollector.AddDependencies` | builtins/collector.go:708-763 | Records one pair for each item that names a dependency, in order, or stops exactly when some item is malformed. |
| `Collector.ScriptCollector.CallResource` | builtins/collector.go:543-781 | The gate, the missing body, the transitive skip and the normal path, with body, readiness and connection details, change the collector as the call's specification says; every other field keeps its value. |
| `Collector.ScriptCollector.Dispatch` | builtins/collector.go:362-386 | The same for every builtin that collects. |
| `Collector.ScriptCollector.RemoveResources` | builtins/collector.go:521-528 | Removes exactly the named resources. |
| `Reconcile.ResponseBuilder.ApplyResources` | builtins/builtins.go:443-465 | Every collected resource is desired with its body, readiness and connection details, and every other entry stays as it was. |
| `Reconcile.ResponseBuilder.ApplyUsages` | fn.go:337-350 | Every Usage is desired with its body and marked ready, and every other entry stays as it was. |
| `Reconcile.ResponseBuilder.ApplyCompositeReady` | builtins/builtins.go:516-592 | Readiness and the one gating condition, with reason, message and target, follow from the override, the gating skips, the deferrals and convergence. |
| `Reconcile.ResponseBuilder.ApplyConditions` | builtins/conditions.go:194-212 | The collected conditions are reported in order, any other status as unknown and any other target as the composite. |
| `Reconcile.Sequence` | fn.go:352-394 | Removes exactly the withheld resources, sets the TTL, and records each deferral with all it waits for, or convergence. |
| `Reconcile.Apply` | fn.go:405-434 | What is applied at the end, up to a dxr or a context that cannot be converted. |
| `Reconcile.RunPostExecution` | fn.go:300-438 | The whole step from collected state to response, with its early returns, is the response function that the run theorems are about. |
| `Runs.FatalExactly` | fn.go:300-438 | A round fails exactly on a handle without its resource or a circle of dependencies, a sequencing TTL that does not parse where there are dependencies, or a dxr or context that does not convert, in this order. |
| `Runs.FailedExactly` | fn.go:300-438 | A failed round reports no conditions and, unless only the context failed, leaves readiness as it was; before sequencing it keeps the default TTL, and invalid dependencies leave the desired state as it was. |
| `Runs.EmittedExactly` | fn.go:352-388 | A collected resource is emitted exactly when it is observed or waits for no unmet dependency. |
| `Runs.DesiredContents` | builtins/builtins.go:443-465 | Every emitted resource is desired with the body, readiness and connection details that the script gave it; every other desired name that is no Usage is as earlier steps desire it, and nothing of theirs is dropped. |
| `Runs.TtlExactly` | fn.go:352-394 | The user's TTL, zero clearing it; otherwise the sequencing TTL while something is withheld, none once nothing is, and the default without dependencies. |
| `Runs.DesiredFromScript` | fn.go:365-410 | A name that only the script can desire is desired exactly when the script emits it and it is not withheld. |
| `Runs.WithheldIsAbsentIff` | fn.go:337-410 | A withheld resource is absent from the desired state exactly when no earlier step and no Usage desires its name. |
| `Runs.WithheldStaysDesired` | fn.go:365-410 | A round in which a withheld resource is desired because an earlier step desires its name. |
| `Runs.ReleasedWhenMet` | builtins/sequencer.go:51-83 | A resource that is not observed yet is released only if each of its dependencies is observed and ready, or leads to something at its field path. |
| `Runs.DependenciesComeFirst` | fn.go:365-388 | In every run from nothing observed, a resource is first observed right after a reconcile that released it with all dependencies met, hence strictly after each of them was first observed. |
| `Runs.DesiredFromRankOn` | builtins/sequencer.go:51-83 | If external dependencies stay met and emitted resources are ready by the next reconcile, a resource is desired from reconcile number rank on. |
| `Runs.NotBeforeRank` | builtins/sequencer.go:51-83 | Before that reconcile it is neither desired nor observed. |
| `Runs.ConvergesExactlyAtRank` | builtins/sequencer.go:51-113 | A resource is desired by reconcile i if and only if i has reached the length of its longest dependency chain. |
| `Runs.PromptRunsExist` | fn.go:300-438 | Every script that depends on its own resources only has such runs of every length, starting with nothing observed: the premises of the schedule can be met. |
| `Runs.ConvergesInTheEnd` | builtins/builtins.go:516-575 | After as many reconciles as there are resources, nothing is withheld and all-ready is reported unless a skip gates it. |
| `Runs.StarvingSetIsNeverReleased` | builtins/sequencer.go:51-83 | A set of unobserved resources each depending on another in the set is never emitted, on any run. |
| `Runs.AtMostOneGatingCondition` | builtins/conditions.go:127-129 | Every response has at most one ComposedResourcesReady condition. |
| `Runs.ReportsScriptConditions` | builtins/conditions.go:194-212 | The conditions set by the script come first and in order, an unknown status as unknown and any target but CompositeAndClaim as the composite. |
| `Runs.GatingExactly` | builtins/builtins.go:516-592 | Which gating condition comes last, word for word, and the readiness of the composite, for an override, a blocked, a converged and a formerly blocked composite. |
| `Runs.BlockersAreExplained` | builtins/builtins.go:577-623 | The gating condition of a blocked reconcile lists its gating skips and exactly the withheld resources, each with exactly its unmet dependencies and their reasons. |
| `Runs.PersistedStatusIsCurrent` | builtins/collector.go:427-435 | After every completed reconcile the persisted status, once present, is True exactly when that reconcile had no gating skip and no deferral. |
| `OciCache.Cache.Lookup` | runtime/oci/cache.go:72-93 | Miss, stale or fresh by policy, TTL and clock, with the content of the tag's digest. |
| `OciCache.Cache.StoreTag` | runtime/oci/cache.go:106-114 | Only the entry of the tag changes; it expires one TTL later. |
| `OciCache.Cache.StoreContent` | runtime/oci/cache.go:118-127 | Content is stored unless the digest has content already. |
| `OciCache.Cache.Resolve` | runtime/oci/resolver.go:246-333 | Cache, pinned digest, HEAD, pull and stale fallback; answer and cache are those of the resolution that the rows from `OciCache.FreshIsAnswered` to `OciCache.UnparsableIsRefused` describe. |
| `OciCache.FreshIsAnswered` | runtime/oci/resolver.go:246-252 | A tag that is held and fresh, by policy, without TTL, or within it, is answered from the cache, whatever the registry says. |
| `OciCache.PinnedIsAnswered` | runtime/oci/resolver.go:253-259 | Otherwise a pinned digest with content is answered from the cache. |
| `OciCache.StaleIsRenewed` | runtime/oci/resolver.go:289-304 | Otherwise a stale tag whose HEAD names cached content is answered with that content and renewed, to expire one TTL after the write. |
| `OciCache.PulledIsStored` | runtime/oci/resolver.go:306-333 | Otherwise, stale or missing, the files of a pulled image are the answer, the tag points at its digest and expires one TTL after the write, and the content is stored unless the digest has some. |
| `OciCache.FailedPullFallsBack` | runtime/oci/resolver.go:306-333 | A failed pull changes nothing: stale files are answered only then, a missing tag is an error, and so is an image without files or digest. |
| `OciCache.UnparsableIsRefused` | runtime/oci/resolver.go:260-288 | A reference that does not parse is refused once the registry would have to be asked. |
| `OciCache.AnswersAreCurrent` | runtime/oci/resolver.go:246-333 | Under Always with a positive TTL, over every sequence of calls, an answer that is not pinned was recorded by a call for the tag within the TTL, or this very call asked the registry, which named or gave the content, or could not be pulled from. |
| `OciCache.RunKeepsContent` | runtime/oci/cache.go:72-127 | Over every sequence of calls content is written once per digest and every tag has content, so the branch for a tag without content is dead. |
| `OciCache.PresentIsForever` | runtime/oci/cache.go:86-88 | Under IfNotPresent the answer for a cached reference never changes. |
| `OciCache.TagsAreRecorded` | runtime/oci/resolver.go:287-333 | Every tag entry was written by a call for that tag, and its content is what that call answered. |
| `OciCache.FreshWithinTtl` | runtime/oci/cache.go:86-92 | Under Always with a positive TTL a fresh answer was given, and recorded, by a call for the same tag at most one TTL ago. |
| `OciCache.ZeroTtlNeverRevalidates` | runtime/oci/cache.go:86-92 | With a TTL of zero, Always never revalidates a cached tag. |
| `OciResolver.ReachesSearch` | runtime/oci/resolver.go:111-129 | The search with an explicit stack ends and decides whether a path exists. |
| `OciResolver.Group` | runtime/oci/resolver.go:138-146 | The targets of a level by reference, with the references in order of first appearance. |
| `OciResolver.EdgeKeeps` | runtime/oci/resolver.go:218-226 | Recording an edge that closes no cycle keeps the graph real and acyclic and every level a distance from the roots. |
| `OciResolver.LoadSound` | runtime/oci/resolver.go:154-164 | So does fetching an artifact that is due at the current level. |
| `OciResolver.LevelIsShortest` | runtime/oci/resolver.go:231-240 | The level of a fetch is the length of the shortest load path from the roots. |
| `OciResolver.Resolver.ScanTarget` | runtime/oci/resolver.go:198-227 | A scanned target is answered or queued and its edge recorded, or the cycle, missing file or other error reported is real. |
| `OciResolver.Resolver.ScanArtifact` | runtime/oci/resolver.go:186-228 | After the scan every load of a new artifact is recorded and every target answered or queued. |
| `OciResolver.Resolver.MapTargets` | runtime/oci/resolver.go:166-180 | The requested files of an artifact are mapped to their URLs, or one is missing. |
| `OciResolver.LogFetch` | runtime/oci/resolver.go:154-164 | Asking for a reference that is not loaded keeps the log of fetches in step with the cache, with the artifacts loaded and with the world's answers, and asks for nothing twice. |
| `OciResolver.OneFetchEach` | runtime/oci/resolver.go:151-164 | While all fetches succeed there are as many artifacts as fetches. |
| `OciResolver.LoadedExactly` | runtime/oci/resolver.go:154-164 | The artifacts loaded are exactly those that some fetch returned, with its files. |
| `OciResolver.Resolver.Fetch` | runtime/oci/resolver.go:154-164 | One reference resolution per new artifact, recorded at the current level; an error is that resolution's answer. |
| `OciResolver.Resolver.ResolveLevel` | runtime/oci/resolver.go:133-243 | One level and all levels below it: sound and complete at the end, and successful or not each artifact is asked for at most once. |
| `OciResolver.Resolver.Resolve` | runtime/oci/resolver.go:94-100 | Success: every requested URL and every URL scanned from any loaded file maps to its file, the graph is exactly who loads whom and acyclic, every artifact was fetched once at its shortest distance, none at the depth limit loads another. Failure: a real cycle through the edge named, a missing file, the cache's own answer to the last fetch, or an artifact at the depth limit that loads another. In both cases no reference was asked for twice, the artifacts loaded are exactly those fetched, and every fetch is what the cache answers then. |
| `ModuleLoader.LoadFresh` | runtime/loader.go:128-375 | A load always ends, and succeeds, with exactly the module's exports, if and only if the module lies in a set of modules that exist, compile, load only each other and exported names, and have no load cycle. |
| `ModuleLoader.Loader.Load` | runtime/loader.go:286-297 | Cached results, the sentinel of a load in progress or a new load; nil sentinels stay exactly the active loads, and no key is executed twice. |
| `ModuleLoader.Loader.LoadNew` | runtime/loader.go:296-375 | From sentinel to final entry; modules not in the cache decrease. |
| `ModuleLoader.Loader.ResolveStar` | runtime/loader.go:390-612 | Expansion ends; its program imports for each star exactly the target's exports that compile; modules not expanding decrease. |
| `ModuleLoader.Loader.ScanStars` | runtime/loader.go:418-598 | All star targets are scanned successfully, or the expansion fails. |
| `ModuleLoader.Loader.ScanExports` | runtime/loader.go:618-672 | The exports found by running a module without caching it are those that loading it gives. |
| `ModuleLoader.Loader.Execute` | runtime/loader.go:326-358 | A program runs to its end only if every module it loads is loaded and has the names. |
| `ModuleLoader.RanIsGood` | runtime/loader.go:336-374 | A module that ran to its end loads only finished modules and names they export. |
| `ModuleLoader.GoodIsSane` | runtime/loader.go:286-297 | Modules numbered so that each loads only smaller ones form a closed set without a load cycle. |
| `ModuleLoader.SaneIsGood` | runtime/loader.go:286-297 | Conversely such a set can be numbered that way. |
| `Compact.CompactValue` | builtins/dict.go:306-320 | Copy-on-first-change equals recursive pruning; fails exactly when a visited value lies deeper than 32; the flag is true exactly when something was pruned, and otherwise the input comes back. |
| `Compact.CompactDict` | builtins/dict.go:327-383 | The same for a dict of any kind; the result is a plain dict. |
| `Compact.CompactList` | builtins/dict.go:389-414 | The same for a list. |
| `Compact.PruneElems` | builtins/dict.go:389-414 | Pruning keeps the length of a list. |
| `Compact.PruneExactly` | builtins/dict.go:296-414 | Exactly the None-valued entries of a dict go, the others are pruned and keep their order; every element of a list is pruned; anything else stays. |
| `Compact.FitsExactly` | builtins/dict.go:306-320 | The depth limit is met exactly when nothing that is visited, which entries of value None are not, lies deeper than 32. |
| `Compact.PruneLeavesNoNone` | builtins/dict.go:296-305 | No None-valued dict entry remains under dicts and lists. |
| `Compact.PruneIdempotent` | builtins/dict.go:296-305 | Pruning twice is pruning once, and it changes a value exactly when there is something to prune. |
| `Convert.RoundTrip` | convert/convert.go:61-138 | Every Starlark form of a protobuf value converts back to that value with absent values made null, and only values without a whole number of magnitude 2^63 or more have a form. |
| `Convert.HasForm` | convert/convert.go:87-110 | Every value without such a number has a form. |
| `Convert.ConvertValue` | convert/convert.go:87-110 | Fails exactly on such numbers; the result is a form of the value and converts back to it. |
| `Convert.LeastInt64IsRefused` | convert/convert.go:61-72 | The number -2^63 is refused. |
| `Convert.IntegersUpToSafe` | convert/convert.go:61-72 | Whole numbers are integers up to and including 2^53 and floats from the next float64 on. |
| `Convert.PresentIsNormal` | convert/convert.go:87-110 | The value that comes back differs exactly when something inside was absent. |
| `Convert.SendableExactly` | convert/convert.go:253-301 | What can be sent: null, booleans, floats, strings, integers of magnitude up to 2^53, dicts with string keys and lists, of such values. |
| `Convert.ToProtoExactly` | convert/convert.go:189-314 | What is sent: a struct with a field for every key of a dict, holding its last value, a list element by element, and other values as they are. |
| `Convert.ConvertFields` | convert/convert.go:33-50 | The dict lists the fields, in any order, each once. |
| `Convert.ConvertList` | convert/convert.go:114-138 | The list has the converted elements in order. |
| `Convert.StructToStarlark` | convert/convert.go:18-28 | An absent struct becomes an empty dict; otherwise as for values. |
| `Convert.ConvertBack` | convert/convert.go:253-301 | Fails exactly on integers beyond 2^53, non-string keys, tuples and other types. |
| `Convert.DictToFields` | convert/convert.go:189-250 | The same for the items of a dict of any kind. |
| `Convert.ListToValues` | convert/convert.go:304-314 | The same for the elements of a list. |
| `LazyDict.AnswersLikeEager` | convert/starlark_dict.go:42-57 | Whatever was asked in whatever order, some eager conversion of the source gives the same answers throughout. |
| `LazyDict.FrozenForGood` | convert/starlark_dict.go:150-163 | After a freeze nothing changes the dict. |
| `LazyDict.ApplyExactly` | convert/starlark_dict.go:228-423 | What each operation answers and changes: a write replaces the entry of its key in place or appends one, a deletion takes it out, reads change nothing, and writes to a frozen dict and unhashable keys are refused. |
| `LazyDict.LazyStarlarkDict.Ensure` | convert/starlark_dict.go:85-113 | Materializes once, frozen if a freeze was asked for, and remembers a failed conversion. |
| `LazyDict.LazyStarlarkDict.DoFreeze` | convert/starlark_dict.go:153-163 | Freezes without forcing the conversion. |
| `LazyDict.LazyStarlarkDict.DoGet` | convert/starlark_dict.go:235-240 | Reads fail exactly when the source cannot be converted, and are otherwise those of the eager dict. |
| `LazyDict.LazyStarlarkDict.DoKeys` | convert/starlark_dict.go:295-309 | The same for the keys. |
| `LazyDict.LazyStarlarkDict.DoSetKey` | convert/starlark_dict.go:228-230 | Writes act as on the eager dict, refused once frozen, also when the source cannot be converted. |
| `LazyDict.LazyStarlarkDict.DoDelete` | convert/starlark_dict.go:367-384 | So do deletions. |
| `LazyDict.LazyStarlarkDict.DoClear` | convert/starlark_dict.go:415-423 | So does clearing. |
| `LazyDict.LazyStarlarkDict.DoLen` | convert/starlark_dict.go:264-266 | The length is that of the eager dict. |
| `Schema.ConformsExactly` | schema/schema.go:84-198 | A dict conforms exactly when each key has a declared field that admits its value, None only if optional, and every required field is there. |
| `Schema.AcceptsExactly` | schema/schema.go:113-180 | A field with a nested schema admits instances and conforming dicts, a list with an element schema lists of those, and any other field values of its type that, with an enum, equal one of its values. |
| `Schema.HasTypeExactly` | schema/validate.go:14-50 | Which values each type name admits. |
| `Schema.StoredExactly` | schema/schema.go:113-180 | A dict in the place of a schema is stored as an instance with its validated items, an instance as it is, a list element by element, and any other value unchanged. |
| `Schema.ValidateFields` | schema/schema.go:84-198 | No error exactly when the arguments conform recursively; the result is then the validated form. The errors are exactly the problems at every level, undeclared keys, missing required fields, wrong types and values outside an enum, each with its path. |
| `Schema.CheckGiven` | schema/schema.go:89-181 | The first phase: the errors are exactly the problems of the arguments, at every level. |
| `Schema.ApplyDefaults` | schema/schema.go:183-195 | The second phase: exactly the missing required fields are errors, each at its path, and missing optional fields get their defaults. |
| `Schema.CheckValue` | schema/schema.go:113-180 | Nested schemas, lists of schemas, types and enums are checked as the field declares; the errors are exactly the problems of the value and inside it, and the stored value is the validated one. |
| `Schema.CheckElems` | schema/schema.go:133-166 | Every element is an instance or a conforming dict, stored as instances in order; the errors are the problems of all elements, each under its index. |
| `Schema.CheckEnum` | schema/validate.go:51-58 | Decides membership in the enum. |
| `Schema.ValidateMutation` | schema/schema.go:211-290 | Its own checks accept and store exactly what assignment is specified to, including defaults for None and wrappers for nested schemas; an error is a problem of the assigned value, at or below the field. |
| `Schema.AssignNested` | schema/schema.go:228-249 | An instance, a conforming dict or a wrapper around one is stored as an instance, and nothing else is. |
| `Schema.AssignList` | schema/schema.go:252-276 | Stores the elements as instances in order, or stops with a problem of the first that is neither an instance nor conforms. |
| `Schema.ValidatedFields` | schema/schema.go:84-198 | For conforming arguments the validated form holds, for each declared field, the stored form of a value other than None, otherwise its default if it has one, and nothing else. |
| `Schema.MutationAgreesExactly` | schema/schema.go:211-290 | Construction accepts a field value if and only if assignment does and it is not a wrapper for a nested schema; both then store the same. |
| `Schema.WrapperAssigned` | schema/schema.go:239-249 | A wrapper is assigned to a nested-schema field exactly when the dict in it conforms, and is stored as an instance. |
| `Schema.WrapperIsOnlyAssignable` | schema/schema.go:239-244 | An empty converted dict can be assigned to a nested-schema field but not passed to the constructor. |
| `Schema.MutationStoresTheSame` | schema/schema.go:211-290 | Assigning each field of a conforming dict stores what construction stores. |
| `Schema.StoredIsStable` | schema/schema.go:113-180 | A stored value is accepted again and stored as it is. |
| `Schema.ValidIffDefaultsFit` | schema/schema.go:106-107 | Defaults are not checked: a validated dict satisfies its own schema exactly when every default that was used fits its field. |
| `Schema.Revalidates` | schema/schema.go:84-198 | Validating again then changes no field. |
| `EditDistance.Levenshtein` | schema/levenshtein.go:5-32 | The two-row loop computes the recursive edit distance. |
| `EditDistance.FillRow` | schema/levenshtein.go:20-29 | One pass turns a row of distances into the next one. |
| `EditDistance.DistIsLowerBound` | schema/levenshtein.go:3-32 | No alignment of two strings costs less than their distance. |
| `EditDistance.DistIsAchieved` | schema/levenshtein.go:3-32 | Some alignment costs exactly that. |
| `EditDistance.DistCountsEdits` | schema/levenshtein.go:3-32 | The distance is the least number of single insertions, deletions and substitutions that turn one string into the other. |
| `EditDistance.Symmetric` | schema/levenshtein.go:5-32 | The distance is symmetric. |
| `EditDistance.ZeroOnlyWhenEqual` | schema/levenshtein.go:5-32 | It is zero exactly for equal strings. |
| `EditDistance.Triangle` | schema/levenshtein.go:5-32 | It satisfies the triangle inequality. |
| `EditDistance.Suggest` | schema/levenshtein.go:36-54 | The earliest candidate of minimum distance, if that is at most one or at most a third of the length of the name, or the empty string when there is none. |
| `RegexCache.Cache.Get` | builtins/regex.go:60-84 | The answer is a fresh compilation; map and list stay the most recently requested distinct patterns, in recency order, as many as fit. |
| `RegexCache.Cache.MoveToFront` | builtins/regex.go:64-67 | The entry comes first and the others keep their order. |
| `RegexCache.Cache.PushFront` | builtins/regex.go:74-81 | The new entry comes first and the last one leaves when the capacity is exceeded. |
| `RegexCache.RecentIsByRecency` | builtins/regex.go:39-45 | The listing that the cache is compared with holds exactly the requested patterns, each once, by last request. |
| `RegexCache.TakeExactly` | builtins/regex.go:74-81 | The cache keeps the first entries of that listing, as many as its capacity, or all if there are fewer. |
| `RegexCache.RecentHit` | builtins/regex.go:64-67 | Requesting a pattern in the cache moves it to the front of that listing. |
| `RegexCache.RecentMiss` | builtins/regex.go:74-81 | Requesting another one pushes it and drops the oldest. |

## Left out

- Registry access, manifest and tar extraction, and reference parsing: what they return is a parameter of each resolution.
- The Starlark interpreter and compiler: a script is the sequence of builtin calls it makes, a module its load statements and exports. The language refuses load statements inside conditionals, loops and functions, so a module with one does not compile; a module that exceeds its step limit, which is counted per module (runtime/loader.go:326-334), fails on its own.
- The text rewriting of star imports: only which names each rewritten load imports.
- Star expansion of the main script, which uses the same expansion with no enclosing load, and the memo of modules without star imports, which does not change results.
- Events, metrics, warnings about unmatched string references, labels and external names, requirements, the composite's own connection details, and the contents of dxr and pipeline context: presentation, or plain copies. Whether dxr and context convert is a given; the wording of the gating message and of skip reasons is not modelled, what they list is.
- Mutexes: each locked operation is one step. Data races are not modelled.
- The preparation of a resource body before it is collected (compaction, conversion, labels) is modelled by `Compact.dfy` and `Convert.dfy` apart from the collector, which takes prepared bodies.
- Hashes: Usage names and label values are given functions, which may collide.
- Rounding of float64: finite numbers are reals, and negative zero is zero. Durations are integers.
- Update in place of nested Starlark containers and aliasing between them: dicts and lists are values, keys are compared structurally (an int key and an equal float key are different keys here), and a nested dict obtained from a lazy dict is not written through.
- Unicode: strings are sequences of code units, as the byte loops of the edit distance see them.
- Deep merge and the other dict builtins, YAML, crypto, encoding and the regex builtins besides the cache.
- `starlark.Equal`, on which enum checks rely, is a given function.
- OciCache.FreshWithinTtl: assumes that the registry is content-addressed, that is, that an image's digest determines its files.
- OciCache.AnswersAreCurrent: assumes the same.
- OciResolver.Resolver.Resolve: states closure for the targets that the scan of a source returns, which keeps one target per reference and file (runtime/oci/scanner.go:101-114); the depth error can also be raised when the artifact loaded from the deepest level is already loaded.
- UsageRuns.UsageNeverChangesScope: assumes that the two sides of declared pairs keep their namespace, that scripts and earlier pipeline steps leave the names of declared pairs alone, and that others set no scope on them; nothing is assumed about other Usages.
- Runs.ConvergesExactlyAtRank: assumes that the names of the script's resources are its own, that is, neither desired by earlier pipeline steps nor Usage names.
- Schema.ValidateFields: requires string keys in every dict it descends into, where the code would panic otherwise; error paths are modelled, error texts are not.
