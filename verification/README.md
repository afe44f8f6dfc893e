# lemonfig, modelled and proved in Dafny

lemonfig keeps a DAG of values derived from a configuration document and rebuilds it whenever the
document, or a secret the document names, changes. This project models the parts of it whose
correctness is hardest to see by reading, and proves what they promise. `dafny verify
dfyconfig.toml` checks everything.

## What is modelled

**Rebuilding the DAG** (`Dag`, `Rebuild`, `Lifecycle`, `Invariants`, `Runs`, `Propagation`, `Applied`,
`Releases`, `Flags`, `Staleness`). A value has a *meaning* (the class of values that behave alike) and
an *instance* (which object it is). `reflect.DeepEqual` may only identify values of one meaning and may
refuse to. A transform may answer differently at every call: it is given the position of the call in the
log of all calls, and must only respect meaning; a transform with a cleanup function returns an instance
of its own each time. A run is any sequence of registrations, `Start`, `Reload`, `Stop` and single
cleanup steps. The incremental manager is proved to refine a manager without old values or dirtiness,
and every resource is followed through its whole life. `Applied` says on the fields of each node which
value is which argument.

**Objects** (`ManagerObjects`, `DocumentObjects`, `Polling.PollingSource`, `Cache.SecretCache`). What
the program changes in place is a class here, each method proved equal to the step of the
specification that the theorems are about: `Manager`, `generationBuilder`, the containers of a decoded
document with the path buffer that siblings share, the polling source, the secret cache.

**TestVal** (`Eager`) and **lock-free readers** (`Snapshots`). In `Snapshots` a reload takes one step
per node and one pointer store, also the one inside a `Start`, a `Get` loads the pointer in one step and
looks its value up in another, and all interleave freely.

**Documents and secrets** (`Grammar`, `Secrets`, `Document`, `Order`, `Lexicographic`, `Parsing`,
`Fields`, `Acceptance`, `ReadConfig`). The grammar of string leaves, locating and filling references,
which documents parse and which error is reported, the field that a key decodes into, the check that
follows a path through possibly recursive Go types, and the whole of `readConfig` with the order of its
failures. Sealing is an abstract function with an inverse.

**Resolving** (`Pool`, `Cancellation`, `Cache`) **and noticing change** (`ChangeKey`, `WatchKey`,
`Polling`). The worker pool and the cache are step machines in which the environment picks the order,
the answers, the clock, and when the caller's own context ends; the change key is the exact byte stream
that is hashed, from the document to the bytes; polling interleaves with manual reloads, edits,
rotations, failures, and stopping and starting again.

### Where the code and its documentation differ

- `Stop` is documented to run a final cleanup (`manager.go:125`, `README.md:133`). What is live then is
  never released: `Runs.StopReleasesNothing`.
- A source must compare with the last *applied* content (`source.go:31-36`). The poller records the key
  of what it keyed, which need not be what was applied: `Polling.ThereAndBackStrands` and
  `Polling.ManualReloadStrands` leave it stranded, `Polling.TruthfulIffSteady` says exactly which runs
  keep its record true, and `Polling.GoodTickSettlesIff` exactly when a poll recovers.
- "The same content is offered again on the next tick until it applies" (`source/polling.go:51-52`) holds
  if and only if the key of that content differs from the recorded one: `Polling.OfferedAgainIff`. Two
  families fail. Content with an empty key (an empty document, no change key) looks like a nil `lastKey`:
  `Polling.EmptyKeyIsNotRetried`. And `lastKey` survives `Stop` and `Start`, so content recorded by an
  earlier watch is not offered again when the apply of the new baseline fails, whatever the key, the one a
  `Manager` installs included: `Polling.RestartStrands`.
- An escaped literal is unescaped by `fill` and then refused by the decode hook when it lands on a
  `Secret` field, so `!!secret x` cannot give such a field the value `!secret x`:
  `Secrets.SecretLiteralsWritable`.
- A load drops an instance of a cleanup node, neither live nor ever released, if and only if the
  from-scratch walk of its config fails at a later node, and the node has no old value or change has
  spread to it by then: `Runs.DroppedIff`, with `Runs.AbandonedIffReloadFailed` for what happens
  afterwards and a run that does it in `Staleness.FailedStartDropsResource`.
- Only the direct children of a resource are sure to follow it when it is replaced. A deeper descendant
  may keep what it had (`Staleness.GrandchildMayBeStale`); it is recomputed, on the new values, exactly
  when change spreads from one of its parents: `Propagation.TransformsRunIff`,
  `Propagation.TransformsSeeNewValues`.

## Model

| member | source | states |
|---|---|---|
| Runs.IncrementalRefinesSimple | manager.go:156-204 | over every history the incremental manager accepts, rejects, versions and fails (at the same node) as the manager that reruns everything |
| Runs.LiveMeansScratch | manager.go:182-204 | in every reachable state each live value means what evaluating the whole DAG afresh on the last accepted config gives, at any moment, and covers the same nodes |
| Applied.LiveValuesAreComputed | derived.go:314-333 | in every reachable state a live value is what the node's own function gives: `get` or `unmarshal` of the live config (the zero value for a missing sub-tree), or `transform`, `combine`, `combine3` of values that mean the live values of its own parents, each in its own place, and are the very instance for a parent with a cleanup function |
| Applied.LoadFailsIff | manager.go:186-194 | a load fails at a node if and only if the from-scratch walk gets there and the node's own function fails, on its part of the config or on what its own parents mean, in order |
| Rebuild.SoundMeansScratch | derived.go:241-270 | values each explained by a call whose arguments mean the live parents agree with a from-scratch run |
| Rebuild.WalkFailsWithScratch | manager.go:186-194 | the incremental walk stops at node n exactly when the from-scratch walk first fails at n |
| Rebuild.WalkKeepsInv | manager.go:186-196 | what every prefix of a walk that has not failed keeps: explained values, kept clean values, one call per node, new dirty resources, contained change; one that failed keeps an honest log, whose calls are `Propagation.LoadRunsIff` |
| Rebuild.VisitSound | derived.go:314-333 | one node's recompute keeps every value explained, whether carried forward or computed |
| Rebuild.VisitCleanKept | derived.go:241-270 | a node marked unchanged means what it meant before, and a resource so marked is the same instance |
| Rebuild.VisitContained | derived.go:361-381 | a node becomes dirty, or its transform runs, only without an old value or below a changed root |
| Runs.ResourcesConserved | manager.go:186-257 | every instance a cleanup node's transform ever returned is in exactly one of live, pending at one position, released at one position, abandoned |
| Runs.ReleaseIsSafe | manager.go:244-256 | the instance a cleanup goroutine is about to release is not live and was not released before |
| Runs.QuiescentResources | manager.go:223-257 | once the batches are done a resource is live, released, or was dropped by an aborted reload |
| Runs.DroppedIff | manager.go:182-204 | in every continuation an instance of cleanup node n built by a load is dropped if and only if the from-scratch walk of its config fails behind n and n has no old value or change has spread to it by then |
| Runs.AbandonedIffConfigFails | manager.go:186-194 | a resource that a load built is dropped if and only if the from-scratch walk of the config fails |
| Runs.AbandonedIffReloadFailed | manager.go:182-204 | a resource is dropped if and only if the reload that built it failed at a node: then it is never live, scheduled or released in any continuation, and otherwise it was made live |
| Runs.AbandonedIsNeverReleased | manager.go:186-194 | a resource built by a reload that fails at a node is not released in any continuation |
| Staleness.FailedStartDropsResource | manager.go:186-194 | one Start that builds a resource, fails at the node behind it, and leaves it neither live, scheduled nor released |
| Runs.CallbacksSeeEveryReload | manager.go:206-211 | OnReload is called once for every successful reload but the first; the config pairs form a chain that ends at the live config |
| Runs.StopReleasesNothing | manager.go:125-139 | a resource live at Stop is never released, however long the cleanup goroutines run on, unless the manager loads again |
| Invariants.NextKeepsInv | manager.go:57-257 | every event keeps conservation, explained values, the origin of each scheduled item, and the order of batches |
| Invariants.BatchIsExact | manager.go:223-242 | a batch holds the old value of exactly the dirty nodes that had one, each once, later nodes first |
| Runs.BatchHasReplaced | manager.go:198-218 | a load that succeeds, by Reload or by Start, adds at most one batch, which holds a live resource exactly when the new generation holds another instance |
| Runs.DescendantsReleasedFirst | manager.go:229-242 | in every batch of every run a node comes before each of its transitive ancestors |
| Releases.DescendantReleasedBefore | manager.go:229-256 | over every run: when a resource of a scheduled batch has been released, each of its transitive descendants in that batch was released before it |
| Dag.AncestorIsEarlier | manager.go:57-77 | ids grow with registration, so an ancestor's id is smaller |
| Runs.DirectDependentsAreFresh | derived.go:241-262 | each derived value was computed by one call, on arguments that mean what the generation holds for the parents, and that are the very instance for every parent with a cleanup function |
| Staleness.GrandchildMayBeStale | derived.go:263-269 | one reload after which a grandchild holds the instance that has been replaced and waits for release |
| Runs.ChangeIsContained | derived.go:241-247 | every load of an accepted config, by Reload or by Start, successful or aborted, runs a transform only for a node without an old value or below a root that compares changed; a derived node that did not run keeps the identical value, and every node does when the load fails |
| Propagation.LoadRunsIff | manager.go:186-196 | every load of an accepted config, successful or aborted, runs a node's transform if and only if the from-scratch walk gets to the node and there is no old value or change has spread to it from a parent |
| Propagation.FailedWalkLog | manager.go:186-194 | of a walk that failed: every earlier call gave a value, and it stopped at a root that does not decode or at a node whose own call failed |
| Propagation.TransformsRunIff | derived.go:241-270 | a load that succeeds runs a node's transform if and only if the node has no old value or change spreads from a parent: a root that compares unequal, a rebuilt resource, another node recomputed to a value that compares unequal |
| Propagation.TransformsSeeNewValues | derived.go:314-333 | every transform that a successful load runs is given the very instances the new generation holds for its parents, and its result is what that generation holds |
| Runs.QuietReload | manager.go:223-242 | when every node has a value and all roots decode to values that compare equal, a load succeeds, runs no transform, schedules nothing, and every derived value stays |
| Runs.EveryNodePresentAfterStart | manager.go:82-98 | after one successful Start exactly the registered ids have values, whatever happens next |
| Flags.StartFreezes | manager.go:63-93 | from the first call of Start on, failed or not, every registration panics and the nodes stay, in every continuation |
| Flags.OpenUntilStart | manager.go:63-67 | without a call of Start a manager is never frozen |
| Flags.StartedMeansRunning | manager.go:82-139 | the manager is started exactly when some Start succeeded and no Stop came since |
| Flags.StartAndStopAlternate | manager.go:86-132 | Start is refused exactly while the manager runs, Stop exactly while it does not |
| Flags.RefusedChangesNothing | manager.go:141-194 | whatever is refused or fails leaves the pointer, the batches, the releases, the callbacks and the nodes as they were, and, unless a transform failed, the log of calls too |
| ManagerObjects.GenerationBuilder.constructor | generation.go:23-29 | the builder starts with no values |
| ManagerObjects.GenerationBuilder.Set | generation.go:31-34 | one value and its dirty mark change |
| ManagerObjects.GenerationBuilder.Freeze | generation.go:36-42 | the generation holds exactly what was set |
| ManagerObjects.Manager.constructor | manager.go:45-55 | a new manager is the initial state |
| ManagerObjects.Manager.TestVal | testing.go:17-25 | a manager whose only value is the given one, under id 0 |
| ManagerObjects.Manager.NextId | manager.go:57-61 | hands out the next id |
| ManagerObjects.Manager.AddNode | manager.go:69-77 | appends to the nodes and, for a root, to the roots; in eager mode reruns all nodes |
| ManagerObjects.Manager.Register | derived.go:161-167 | a registration is the Register event: refused once frozen, otherwise the node has the next id and position |
| ManagerObjects.Manager.RecomputeKey | derived.go:104-113 | agrees with the specification of recompute |
| ManagerObjects.Manager.RecomputeStruct | derived.go:182-208 | agrees with it, a missing sub-tree giving the zero value |
| ManagerObjects.Manager.RecomputeMap | derived.go:241-270 | agrees with it, call for call |
| ManagerObjects.Manager.RecomputeCombine | derived.go:314-333 | agrees with it, call for call |
| ManagerObjects.Manager.RecomputeCombine3 | derived.go:361-381 | agrees with it, call for call |
| ManagerObjects.Manager.WalkNodes | manager.go:185-196 | the loop fills the builder as the specified walk does, or stops at the same node with the same calls made |
| ManagerObjects.Manager.ScheduleCleanup | manager.go:223-257 | the reverse loop schedules exactly the specified batch, and none when it is empty |
| ManagerObjects.Manager.Swap | manager.go:198-218 | publishes one generation, one version up, calls back with both configs, and schedules what it replaced |
| ManagerObjects.Manager.ReloadLocked | manager.go:156-221 | the whole state after a reload; a failed one leaves the pointer and the batches alone |
| ManagerObjects.Manager.Reload | manager.go:144-148 | is the Reload event of the machine |
| ManagerObjects.Manager.Start | manager.go:82-123 | is the Start event: frozen even when the first load fails, started only when it succeeds |
| ManagerObjects.Manager.Stop | manager.go:126-139 | is the Stop event |
| ManagerObjects.Manager.CleanUpNext | manager.go:244-256 | one step of one cleanup goroutine |
| ManagerObjects.Manager.Get | derived.go:50-60 | the value in the current generation, or a panic |
| ManagerObjects.Manager.RecomputeTestNodes | testing.go:29-49 | reruns every node over the values already there, or panics with the pointer unchanged |
| Eager.EagerEqualsBatch | testing.go:17-49 | after any registrations on a TestVal one more panics exactly when one from-scratch walk fails, and otherwise every value is what that walk gives: in meaning always, outright for pure transforms |
| Eager.RerunMeansScratch | testing.go:29-49 | rerunning all nodes over stale values ends where the from-scratch walk ends |
| Snapshots.GetReadsOneSnapshot | derived.go:50-60 | in every interleaving a Get reads one fully built generation: its very value for the node, found exactly when that generation covers it, meaning what the from-scratch walk of that generation's config gives |
| Snapshots.GetReadsTheLiveGeneration | derived.go:50-60 | a Get that nothing interrupts reads the live generation's value for its own node, and a panic exactly where that has none |
| Snapshots.VersionsNeverGoDown | derived.go:50-60 | the versions one reader sees never go down |
| Snapshots.FinishIsReload | manager.go:182-204 | a Reload, or the load of a Start, that runs node by node among readers ends as the one-step event: one version more, or the pointer left alone |
| Snapshots.LockIsHeld | manager.go:141-148 | while a reload runs no registration, Start, Stop or other Reload happens; the cleanup goroutines go on |
| Snapshots.FlightLands | manager.go:185-196 | a reload among readers gets to its end, the manager unchanged until it stores |
| Snapshots.EveryEventHappens | manager.go:141-148 | whatever one event does in one step the stepwise system can do, from every reachable state in which the lock is free |
| Snapshots.ServedGetsMissNothing | manager.go:82-98 | in every interleaving a Get that loaded the pointer after a successful Start finds a value for exactly the registered ids |
| Snapshots.LoadsAfterStartAreServed | manager.go:89-96 | every load of the pointer after the load of a Start succeeded, however much later, counts as such |
| Snapshots.AdvanceKeepsWorld | manager.go:63-98 | every step keeps: published generations sound and numbered in order, readers hold published ones only, nothing registered and nothing missing since the first successful Start |
| Grammar.ExactlyOneKind | secretref.go:45-63 | every string is exactly one of reference, escaped literal and plain, told apart by its shape |
| Grammar.SpacesAre | secretref.go:50-50 | what is trimmed are the 25 white space code points of Unicode |
| Grammar.ReferencesExactly | secretref.go:43-51 | a string refers to a name exactly when it is the tag, a space, and the name with any white space around it |
| Grammar.EscapeRoundTrip | secretref.go:228-237 | one more "!" on exactly the strings that need it is undone by the leaf rule, for every string |
| Grammar.OnlyEscapeReadsAs | secretref.go:53-63 | a leaf reads as a literal if and only if it is that literal's escaped form |
| Grammar.NameRoundTrip | secretref.go:43-51 | a name read from a reference reads as itself when written back |
| Secrets.RevealUndoesSeal | secret.go:78-114 | Reveal gives back what was sealed or resolved, empty for the empty string; an unresolved secret reveals nothing and is not empty |
| Secrets.EqualIffSamePlaintext | secret.go:38-42 | two secrets are equal exactly when name and plaintext are; unresolved ones equal no resolved one |
| Secrets.DumpsNeverBecomeSecrets | secret.go:116-125 | the printed form of any secret put back on a Secret field is a reference to the same name, or refused, or the empty secret |
| Secrets.PrintHidesPlaintext | secret.go:116-125 | a named secret prints the same whatever its plaintext; a nameless one shows only emptiness |
| Secrets.SecretLiteralsWritable | secret.go:168-188 | the literals a Secret field accepts are exactly those other than the redaction marker and references |
| Document.UsesAreGenuine | secretref.go:131-142 | every recorded path leads to a reference with the recorded name |
| Document.EveryReferenceIsRecorded | secretref.go:131-142 | every reference in a tree that parsed is recorded under the path that leads to it |
| Document.PathsAreDistinct | secretref.go:131-142 | no path is recorded twice |
| Document.LeavesAreDistinct | secretref.go:164-224 | the string leaves in walk order: each is where its path leads, and none is listed twice |
| Document.EveryStringIsLeaf | secretref.go:164-224 | no string of the tree is missing from them |
| Document.UsesAreReferencesAmongLeaves | secretref.go:131-142 | without an error the uses are exactly the references among the string leaves, in the same order |
| Order.OrderIsDetermined | secretref.go:183-200 | a set of steps has one ascending order |
| Order.KeysBefore | secretref.go:183-200 | a key comes first if it is a proper prefix, or has the lower letter where the two first differ |
| Order.WalkOrderIsStable | secretref.go:164-200 | with its keys in ascending order the walk of a mapping depends on its entries alone |
| Document.FillIsLeafwise | secretref.go:226-237 | a path leads to a leaf of the filled tree exactly when it leads to a leaf that fills to it |
| Document.FillNeedsOnlyUsedNames | secretref.go:226-237 | fill looks up only recorded names |
| Document.ParsedHasNoRefKeys | secretref.go:175-180 | a tree that parsed has no reference among its keys, so the walk of fill cannot fail |
| Parsing.ParsesIff | secretref.go:131-180 | a tree parses if and only if no path that leads into it ends on a key that is a reference, and no string in it is a reference without a name |
| Parsing.ErrorsAreJustified | secretref.go:131-180 | a reported error names such a place: the path of the mapping and the key, or the path of the string |
| Parsing.CollectReadsMarks | secretref.go:164-224 | the walk reads every key before what is below it, in order, and stops at the first problem |
| Parsing.FirstErrorIsReported | secretref.go:183-189 | the error is that of the first offending key or string in walk order |
| Document.FilledReferences | secretref.go:226-237 | with a value of its own name for each recorded name, every reference becomes the Secret of the name it gives |
| Document.WrittenReadsBack | secretref.go:53-63 | escaping every string of a tree of literals and filling it gives the tree back |
| DocumentObjects.Append | secretref.go:169-169 | append may overwrite what siblings wrote behind the path, never the path itself |
| DocumentObjects.SecretDoc.VisitLeaf | secretref.go:131-141 | the two visit functions: a recorded use has a path of its own, a filled leaf is replaced in place |
| DocumentObjects.SecretDoc.Child | secretref.go:168-174 | visiting or walking one element changes the containers below it as the pure walk says, and leaves the caller's path as it was |
| DocumentObjects.SecretDoc.VisitKid | secretref.go:182-194 | one turn of the loop replaces one element and no sibling |
| DocumentObjects.SecretDoc.WalkKids | secretref.go:181-222 | the loops over mapping and list give the pure walk's uses and error, or the pure fill |
| DocumentObjects.SecretDoc.Walk | secretref.go:164-224 | the walk in place is the pure walk |
| DocumentObjects.SecretDoc.Parse | secretref.go:131-142 | records exactly the pure walk's uses, or its error, and leaves the tree unchanged |
| DocumentObjects.SecretDoc.FillIn | secretref.go:226-237 | fill in place gives the leaf-by-leaf fill and leaves the uses alone |
| Fields.FieldByKey | secretref.go:318-354 | finds type u if and only if the least trail of field indexes, through squashed structs that are exported or embedded and nowhere tagged "-", to an exported field whose tag, or name without one, folds to the key, ends on a field of type u |
| Fields.FirstMatchIsField | secretref.go:318-354 | the list with squashed structs laid flat has that field as its first match |
| Acceptance.ReasonIsExact | secretref.go:281-316 | a path is accepted exactly when some trail of types, entered step by step, ends on Secret; also for recursive types |
| Acceptance.ReasonIsWhereItStops | secretref.go:281-316 | the reason given is why the path stops at the type that the steps before it lead to |
| Acceptance.Covers | secretref.go:245-257 | a target covers a path exactly when its keys fold-match the path's first steps, and the rest is what remains |
| Acceptance.Judge | secretref.go:263-273 | accepts a use exactly when some target reads it and in every such target it ends on Secret, and otherwise blames the first that refuses |
| Acceptance.Violations | secretref.go:259-279 | one error per refused use, in document order, with its path, name and reason |
| Acceptance.RefusedAreThose | secretref.go:259-279 | the refused uses are exactly those that are not acceptable, each as often as it occurs, in document order |
| Acceptance.CaseDoesNotMatter | secretref.go:245-257 | whether a use is accepted does not depend on the case of the keys on its path |
| Acceptance.NoneRefusedIffAllAcceptable | secretref.go:259-279 | no violations if and only if every use is acceptable |
| ReadConfig.FailuresInOrder | secretref.go:509-538 | parse failure, then refused references, then resolution, then the merge into Viper; nothing is resolved unless the document parses and every reference lands on a Secret field |
| ReadConfig.ReadSucceedsIff | secretref.go:509-538 | a document is read if and only if it decodes and parses, every reference lands on a Secret field, its names are cached, or need no resolving, or all have usable values and the caller's context holds until every worker has passed its check, and Viper takes the filled tree |
| ReadConfig.AcceptedIffAllOnSecrets | secretref.go:518-526 | the check passes exactly when every reference in the tree, not only the recorded ones, lands on a Secret |
| ReadConfig.SuccessfulReadIsFilled | secretref.go:527-538 | after a successful read each reference is the Secret of its own name, on a path that ends on a Secret field, and each other string the literal it stands for |
| ReadConfig.CacheAnswers | secretref.go:584-605 | whatever callers interleave on whatever documents, the values the cache returns to a caller fit the document that caller holds |
| ReadConfig.CachedReadIsFilled | secretref.go:527-538 | a read with values from the shared cache succeeds and fills just as one that resolves, in every interleaving |
| ReadConfig.ResolutionMayBeStored | secretref.go:597-603 | what a successful resolution gives is what a caller may store |
| ReadConfig.ResolutionFits | secretref.go:432-507 | resolution gives a Secret of its own name for exactly the distinct names, or fails, for want of a resolver exactly when there are names, none is configured, and they are to be resolved |
| ReadConfig.FailureBlames | secretref.go:451-492 | a failed resolution names the first use of all for want of a resolver, and otherwise the first use of a name whose answer the fault fits |
| ReadConfig.DecodesIff | secret.go:168-188 | a leaf decodes into a Secret field if and only if it is a Secret, kept as it is, or a string other than "[REDACTED]" and references, which is sealed |
| ReadConfig.ResolvedReferenceReveals | secretref.go:527-538 | after a read each reference of the document decodes to a Secret that reveals what the resolver answered for its name |
| ReadConfig.CallsAreDistinct | secretref.go:429-440 | the resolver is asked once per distinct name at most, and for names of the document only |
| ReadConfig.CallsAreThoseOfTheRun | secretref.go:475-496 | the calls are those that begin in the run, in order, and none without a resolver or references; a resolution that succeeds has asked for every name |
| Pool.FirstUses | secretref.go:433-440 | the loop collects the first use of each distinct name, in order |
| Pool.FirstIsFirst | secretref.go:433-440 | no earlier use has the name of a collected one |
| Pool.FirstIsInOrder | secretref.go:433-440 | collected uses stand in the order of the document |
| Pool.PoolIsBounded | secretref.go:461-496 | in every reachable state at most 8 calls are in flight, none was made twice, and at most 7 began after a worker's failure cancelled the context |
| Cancellation.EightAndSeven | secretref.go:29-30 | in the history of every run: at most eight calls in flight, no worker begins two, at most seven begin after a worker's failure cancelled the context |
| Cancellation.CallsInFlight | secretref.go:472-483 | for every n up to eight and as many names, a run after which exactly n calls are in flight |
| Cancellation.CallerDoneStopsCalls | secretref.go:479-483 | once the caller's context has ended, the only calls that still begin are those of workers that had passed the check by then |
| Cancellation.UncheckedWorkerFailsPool | secretref.go:479-482 | when the caller's context ends while some worker has not passed the check, the finished pool has failed |
| Cancellation.FailedWorkerStopsCalls | secretref.go:461-482 | a worker that failed gives its slot back only once the context is cancelled, so from then on calls begin only for workers that had passed the check, whoever gets the slot |
| Cancellation.WorkersWaitFor | secretref.go:473-497 | a worker that is not done waits only while eight workers hold slots, or while the first failure is being recorded; a call may answer anything at any time |
| Pool.NeverStuck | secretref.go:474-498 | while work remains some goroutine can move |
| Pool.StepsRunOut | secretref.go:474-498 | every step makes what remains smaller |
| Pool.PoolFinishes | secretref.go:474-498 | every run, wherever it stands, can be finished |
| Pool.PoolResult | secretref.go:498-506 | the result is the first recorded failure, which blames cancellation only if the caller's own context ended, or a map on exactly the names |
| Pool.PoolSucceedsIff | secretref.go:459-506 | while the caller's own context lives, the pool succeeds if and only if every name has a usable value, and then each Secret holds the answer for its own name |
| Cancellation.PoolSucceedsIffWell | secretref.go:457-506 | for every run: the pool succeeds if and only if every name has a usable value and the caller's context holds until every worker has passed the check; then each Secret holds the answer for its own name |
| Pool.FirstFailureStays | secretref.go:462-471 | once a failure is recorded, every continuation of the run keeps that one |
| Pool.StepKeepsLate | secretref.go:457-496 | what bounds late calls: goroutines past the context check, without the one that cancels |
| Cache.ValuesFitTheDocument | secretref.go:580-605 | in every interleaving a caller's values have exactly the distinct names of its own document, each Secret its own name |
| Cache.ValuesAreRecent | secretref.go:584-604 | values returned at t come from a resolution begun after t - d - D, also when callers overlap |
| Cache.RefreshRateIsBounded | secretref.go:580-604 | the times of k successful resolutions of unchanged bytes by calls that do not overlap span at least (k-1)·d |
| Cache.MissesUntilStored | secretref.go:580-600 | bytes that miss go on missing until some caller stores, whatever else fails meanwhile, so each further call resolves again |
| Cache.FailureLeavesCache | secretref.go:580-600 | a failed resolution changes nothing but its own caller |
| Cache.StoredValuesServe | secretref.go:589-604 | after a store, until the next, a call is served from the cache if and only if it has the same bytes and comes within the interval, and then gets exactly the stored values; any other resolves at once |
| Cache.SecretCache.Check | secretref.go:589-596 | the first critical section: reuse exactly for the same bytes within the interval |
| Cache.SecretCache.Save | secretref.go:601-603 | the second critical section replaces data, values and time together |
| ChangeKey.StreamIsFaithful | secretref.go:547-568 | two observations give the same stream if and only if bytes and all resolved values are equal |
| ChangeKey.FieldIsPrefixFree | secretref.go:549-552 | a length-prefixed field can be cut off a stream in one way only |
| ChangeKey.BigEndianInjective | secretref.go:550-550 | k bytes tell apart all numbers below 256^k |
| ChangeKey.BigEndianBytes | secretref.go:550-550 | the most significant byte comes first: each byte counts its own power of 256 |
| ChangeKey.Sorted | secretref.go:563-563 | each name once, in strictly increasing order |
| ChangeKey.BytesLess | secretref.go:563-563 | names are in the order of their bytes: proper prefixes first, otherwise the lower byte where two first differ |
| Lexicographic.LessIff | secretref.go:563-563 | a string is less than another if and only if it is a proper prefix or has the lower letter where they first differ |
| ChangeKey.Feed | secretref.go:549-567 | the loop feeds the hash exactly that stream |
| ChangeKey.KeysTellObservationsApart | secretref.go:540-567 | a key is missing exactly when resolution failed, and otherwise equal exactly for equal bytes and secrets, a rejected document counting as one without secrets |
| WatchKey.KeyMissingIff | secretref.go:543-562 | from the document on: no key if and only if a reload would accept the document, nothing is cached, and its secrets cannot be resolved; a document that a reload would reject is keyed on its bytes alone |
| WatchKey.KeyIsOfContent | secretref.go:547-568 | a key is that of the content polling compares: the bytes, and the plaintexts of the secrets of an accepted document |
| WatchKey.OtherBytesOtherKey | secretref.go:549-553 | keys of different bytes differ, whatever the documents and their secrets |
| WatchKey.KeyChangesIffRotated | secretref.go:540-542 | two polls of one accepted document have the same key if and only if the resolver gave every name the same value |
| Polling.TruthfulIffSteady | source/polling.go:48-86 | lastKey is nil or the key of the live content in every state of a run if and only if it is at the start and every step of the run is steady |
| Polling.SteadyApplyRestoresTruth | source/polling.go:78-83 | from any start, restarted sources included, a steady run in which an apply succeeds keeps lastKey true from there on |
| Polling.OfferedAgainIff | source/polling.go:48-53 | content whose apply failed is offered again by every later tick that sees it, while nothing applies, if and only if its key differs from the recorded one |
| Polling.GoodTickSettlesIff | source/polling.go:73-83 | one successful tick makes the content live and recorded if and only if its key is not already held over other content |
| Polling.Convergence | source/polling.go:48-86 | from any start, after a steady history that began true or in which an apply succeeded, and any failures and restarts once content stops changing, one good tick makes it live and until the next restart no tick calls onChange |
| Polling.QuietKeepsSettled | source/polling.go:78-83 | settled content stays settled and is not offered again before the next restart |
| Polling.StrandedForever | source/polling.go:78-83 | content whose key is held over other content is never applied by polling alone |
| Polling.ThereAndBackStrands | source/polling.go:63-67 | a concrete way to strand: the document changes around one apply and back |
| Polling.ManualReloadStrands | manager.go:144-148 | a concrete way to strand: a manual reload of other content between polls |
| Polling.EmptyKeyIsNotRetried | source/polling.go:58-67 | an empty key is not retried after a failed first apply, since nil looks like it |
| Polling.RestartStrands | source/polling.go:58-67 | for every key: after Stop and Start on other content, content recorded earlier is not retried when the apply of the new baseline fails |
| Polling.TheTwoKeys | source/polling.go:39-46 | the installed key tells all contents apart and never looks like nil; the bare bytes miss rotated secrets and can be empty |
| Polling.RotationIsNoticed | source/polling.go:39-83 | with the key a Manager installs, a round on the bytes just applied calls onChange once more if and only if some secret has changed |
| Polling.BareBytesMissRotation | source/polling.go:39-46 | without one it never does |
| Polling.PollingSource.FetchKey | source/polling.go:39-46 | an error exactly when the fetch, or an installed key function, fails; otherwise the installed function of what was fetched, or its bytes when none is installed |
| Polling.PollingSource.SetChangeKey | source/polling.go:33-37 | installs the key and nothing else |
| Polling.PollingSource.Watch | source/polling.go:54-86 | the loop ends in the state of the step machine, with manual reloads between any two of its steps: same lastKey, same live content, same number of calls of onChange |

## Left out

- Runs.DirectDependentsAreFresh: for direct children only, because a grandchild below a node that compares equal keeps what it had (`Staleness.GrandchildMayBeStale`; exactly when, `Propagation.TransformsRunIff`).
- Polling.Convergence: assumes that each apply reads content with the key its tick saw and that manual reloads and restarts keep it, because without that the code can strand; the exact conditions are `Polling.TruthfulIffSteady` and `Polling.GoodTickSettlesIff`.
- Cache.RefreshRateIsBounded: for calls that do not overlap, because overlapping callers may both resolve.
- Cache.ValuesAreRecent: takes as given a bound D on the time from the start of a resolution to its store.
- Cache.ValuesFitTheDocument: one fixed format and config type, because neither is part of the cache test or the change key; and resolved values, not those of DecodeUnresolved, which never shares its manager.
- Pool.PoolFinishes: supposes that resolver calls return.
- WatchKey.KeyChangesIffRotated: for an encoding of strings as bytes that tells apart the names and values involved, as UTF-8 does; one fixed document.
- ChangeKey.StreamIsFaithful: about the stream before SHA-256, and for strings shorter than 2^64 bytes.
- Secrets.RevealUndoesSeal: AES-GCM and HMAC are an abstract seal with an inverse; the length that ciphertext gives away is not modelled.
- DocumentObjects.SecretDoc.Walk: takes a mapping's entries in the order it is to visit them; that ascending order makes the walk independent of the map is `Order.WalkOrderIsStable`, the sort itself is the library's. Strings are compared by code point, which is the order of their UTF-8 bytes.
- DocumentObjects.SecretDoc.WalkKids: map[any]any keys that print alike collapse in the program and are distinct here; aliasing between containers is excluded, as decoding produces trees.
- Fields.FieldByKey: assumes that chains of pointers and squashed structs are well founded, which Go requires of embedding by value but not by pointer.
- ManagerObjects.Manager.Register: parents belong to the same manager; `Combine` over two managers is not modelled.
- ManagerObjects.Manager.Start: fetching, reading and validating arrive as one outcome, as in Reload and ReloadLocked; installing the change key and launching the watch goroutine are in `Polling`, not in this method.
- ManagerObjects.Manager.ReloadLocked: fetching, reading and validating the document arrive as one outcome; reading is `ReadConfig`.
- ManagerObjects.GenerationBuilder.Freeze: hands over a copy of the values where the program shares the map, which nothing writes to afterwards.
- ManagerObjects.Manager.Stop: does not wait for the watch goroutine, so that Stop, holding the lock, may wait for a reload that waits for it, is outside the model.
- ReadConfig.SuccessfulReadIsFilled: ends at the filled tree that Viper takes; what Viper then answers is a decode function per root.
- Decoding of YAML, JSON and TOML, YAML tags, Viper, environment overrides and mapstructure: a decoded tree and a decode function per root stand for them.
- Hashing, file watching, timers, logging and options: effects outside the state, or plumbing.
- Error texts: the class of an error, the node, the path and the name are kept.
- ManagerObjects.Manager.Swap: an OnReload callback that panics, after the pointer is stored and before cleanup is scheduled, so that the replaced resources are never scheduled; callbacks return here.
- Panics inside a transform: they lose what the walk built before, as a failing transform does; transforms return here.
- Panics inside a cleanup function: recovered by the program, so the item counts as released.
- The overflow of the version counter.
- Registration while a reload is running: registration belongs to startup, so the two are separate steps.
