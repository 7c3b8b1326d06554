# Verified models of DVT's reconciliation, inference and migration code

DVT is a visual ETL platform. This project models the parts of it whose correctness
is hard to see, and proves what they promise, for every input, every run and every
reachable state. `dafny verify dfyconfig.toml` checks all of it.

Where the source updates objects, lists or tables in place, the model has classes and
loops, each proved against a function; the promises are lemmas about that function.

- **JSON structure inference.** `JsonObservation` defines what observation records,
  `JsonObserver` is the mutating observer, `JsonInvariants` its two invariants,
  `JsonSchema` the compiled schema and its soundness, `JsonBudget`, `JsonTruncation` and
  `JsonStats` the node budget, when it truncates, and the statistics, `JsonSamples` what
  nodes keep, `JsonFlatten` and `JsonOffers` the flatten candidates, `JsonPath` the two
  spellings of a location, `JsonTabular` and `JsonMatrices` the matrix normaliser.
- **Orchestrator.** `Liveness` is a transition system with a nondecreasing clock in
  which heartbeats, reaping, telemetry, restarts and supervisor passes interleave at
  every await; PostgreSQL answers as it likes. `Cancellation` with `CancellationOutcome`
  and `WorkerLoss` define the two reconciliation passes on such a world, `WorkerRegistry` and `ExecutionSupervisor`
  are the stateful classes, in which others act on the same objects wherever a pass
  waits, and `OomGuard` is the memory guard.
- **Migration graph.** `RevisionGraph`.
- **Data migrations.** `ReferenceExpressions` and `VariablePayloads` (0045),
  `ColumnRules` and `KeysetMigration` (0063), `ExtensionIdentity` (0062).
- **Cache codec.** `Codec`, `UnionRestore` and, on dictionary objects, `UnionPayload`.
- **Re-export resolver.** `ModuleExports`, `ExportIndex` and `ExportMeaning`.

`Text` and `Options` hold what several modules share.

## Where a promise fails

Each of these comes with the exact condition and, where that does not name one already,
with an input that breaks it.

- A WORKER_LOST verdict is safe at the moment it is acted on, always. It is not safe
  with respect to the time at which the pass began: the scheduler reaps on its own
  (services/orchestrator/scheduler.py:104), so a worker heard from inside that window
  can be reaped while the pass waits (`Liveness.PassWindowCanFail`,
  `Liveness.PassWindowExactly`).
- A cancel request is put forward by every pass and yet never reaches PostgreSQL when its
  reason is not one of the five that reconciliation may write
  (`Cancellation.UnreconcilableNeverCommits`, `Cancellation.VisitExactly`).
- One finalisation that raises ends the pass over lost workers; those after it and the
  orphans wait (`WorkerLoss.RaisingHidesTheNext`, `WorkerLoss.PutForwardExactly`,
  `WorkerLoss.GoesOnExactly`).
- Fresh telemetry that arrives while orphans are collected can be dropped
  (`WorkerLoss.FreshRecordIsDropped`, `WorkerLoss.StoredExactly`,
  `WorkerLoss.OrphansExactly`).
- Kills on one host can be accepted closer than a cooldown
  (`OomGuard.LeastGapIsReached`, `OomGuard.AcceptancesExactly`).
- Reference names with a lone surrogate are not read back from their expression
  (`ReferenceExpressions.SurrogateNameIsLost`, `ReferenceExpressions.NameRoundTrip`).
- Two accepted extension identities can share a storage schema
  (`ExtensionIdentity.UnderscoresShareSchema`, `ExtensionIdentity.DigestSharesSchema`,
  `ExtensionIdentity.SchemasCollideExactly`).
- The root and a single empty key have one machine path, and paths with an empty token
  or a trailing blank do not parse back (`JsonPath.MachineInjective`,
  `JsonPath.MachineRoundTrip`).
- Matrix columns can collide and overwrite cells (`JsonTabular.CollidingHeader`,
  `JsonTabular.ColumnsDistinctExactly`, `JsonTabular.RowsKeptExactly`).
- The codec writes dataclasses and combined flags that it cannot read, and meets integers
  that msgpack refuses (`Codec.HiddenFieldIsLost`, `Codec.FlagCombinationIsLost`,
  `Codec.RoundTripExactly`).
- The pydantic engine records classes for union fields only, so that a subclass
  instance elsewhere comes back as the declared class, and an item of a list of unions as
  whatever the union picks (`UnionRestore.SubclassIsLost`, `UnionRestore.ListItemIsLost`,
  `UnionRestore.RoundTripExactly`).

## Model

| member | source | states |
|---|---|---|
| JsonObserver.CreateChild | core/metadata/json_structure.py:77-92 | the mutable tree finds or adds exactly the child that the budget allows, keeps every other subtree, and marks truncation exactly when the budget is spent |
| JsonObserver.ObservedNode.Record | core/metadata/json_structure.py:128-142 | the counters, kinds and examples of a node after one more value; its children stay |
| JsonObserver.ObserveValue | core/metadata/json_structure.py:128-176 | the in-place observer leaves the tree and the budget that the recursive definition of observation gives, and touches no node outside its tree |
| JsonObserver.InferJsonStructure | core/metadata/json_structure.py:95-125 | no tree for anything but an object or a list; otherwise the observed tree; truncation is reported if and only if the document exceeds its limits, and an untruncated result gives a schema that the input meets |
| JsonInvariants.ObserveTruthful | core/metadata/json_structure.py:128-176 | every observation keeps the counters of all nodes equal to counts over the values shown to them, and each child saw only values that a visited container holds |
| JsonInvariants.ObserveComplete | core/metadata/json_structure.py:128-176 | an observation that does not truncate keeps each child equal to all values below its parent, as a multiset |
| JsonInvariants.ObserveRootInvariants | core/metadata/json_structure.py:110-113 | both invariants hold for the tree of every document under all limits |
| JsonSchema.DescribedConforms | core/metadata/json_structure.py:373-428 | a value among those that a schema summarises exactly conforms to that schema at every depth |
| JsonSchema.CountsDecide | core/metadata/json_structure.py:222-224 | equal counters mean that every object has the key, and conversely |
| JsonSchema.SchemaDescribes | core/metadata/json_structure.py:197-255 | without truncation the schema of a tree is the exact summary of what the tree was shown: kinds, nullability, properties, required keys, item bounds |
| JsonSchema.InferenceSound | core/metadata/json_structure.py:95-125 | for every document and all limits: unless truncation is reported, the document conforms to its inferred schema at every depth |
| JsonSchema.RequiredAlwaysHolds | core/metadata/json_structure.py:222-224 | in any truthful tree, a key marked required is in every object visited at that node, at every node |
| JsonSchema.TruncatedRequiredHolds | core/metadata/json_structure.py:222-224 | the same for every document and all limits, truncated or not |
| JsonBudget.ObserveAccounted | core/metadata/json_structure.py:77-92 | the counter grows by exactly the number of nodes that an observation adds, and never past the total once it is reached |
| JsonBudget.ObserveFits | core/metadata/json_structure.py:148-176 | no observation builds a tree deeper than the depth that is left |
| JsonBudget.WithinBudget | core/metadata/json_structure.py:77-92 | nodes_created is the size of the tree, which is 1 or within max_total_nodes; no node is deeper than max_depth; for all limits, negative ones included |
| JsonTruncation.VisitsExactly | core/metadata/json_structure.py:144-176 | the listed paths are exactly those of the positions that can be reached: every container on the way less deep than max_depth, every index inside the slice that its width limit leaves |
| JsonTruncation.ObserveFollows | core/metadata/json_structure.py:77-92 | every observation gives nodes to the reached positions in order as long as there is room, and marks truncation if and only if a reached container is too deep or too wide or a position is refused |
| JsonTruncation.TruncatedExactly | core/metadata/json_structure.py:95-176 | for every document and all limits: truncation is reported if and only if a reached container is too deep or too wide, or the reached positions have more different paths than nodes may be made |
| JsonTruncation.NodesExactly | core/metadata/json_structure.py:77-92 | truncated or not, a path has a node if and only if it is the root or is reached before max_total_nodes other paths were |
| JsonSamples.RootSampled | core/metadata/json_structure.py:129-142 | at every node the examples are different scalars that were seen, within their limit, and all of them while there is room; the sampled count is the number of items looked at |
| JsonSamples.NodeSays | core/metadata/json_structure.py:197-255 | what a node of the structure model says about the values seen at its position: occurrences, nullability, kinds, item bounds, samples and examples |
| JsonStats.BuildStats | core/metadata/json_structure.py:267-288 | the stack walk returns the recursive counts, which are the numbers of nodes of each kind and the largest depth |
| JsonStats.TallyExactly | core/metadata/json_structure.py:267-288 | objects, arrays, unions and scalars each count the nodes of that kind in the whole tree, the total counts all, and the depth is the largest |
| JsonStats.StatsWithinBudget | core/metadata/json_structure.py:267-288 | the reported totals and depth stay within the limits of the inference |
| JsonFlatten.BuildFlattenCandidates | core/metadata/json_structure.py:291-363 | the stack walk collects the candidates of all nodes except those whose path and kind were used before; the result is in order and a permutation of these |
| JsonFlatten.RankedIsSorted | core/metadata/json_structure.py:335-338 | sorting by falling confidence, display path and kind gives that order and loses nothing |
| JsonFlatten.NoCandidateIsSkipped | core/metadata/json_structure.py:341-363 | for every inferred document nothing is ever skipped, although the root and an empty key share a machine path: the result is a permutation of all candidates |
| JsonOffers.KindMeans | core/metadata/json_structure.py:258-264 | the kind of a node in terms of the values seen: only objects or only arrays (nulls aside), values of two kinds, or no container |
| JsonOffers.ReportedExactly | core/metadata/json_structure.py:291-338 | for every document and all limits, exactly these candidates are reported: explode where only arrays were seen, record source where moreover their items are objects, metadata where no container was seen, with the confidence that the items and the root decide |
| JsonPath.TokenRoundTrip | core/metadata/json_utils.py:23-28 | unescaping undoes escaping, for every token |
| JsonPath.ParseMachine | core/metadata/json_utils.py:78-96 | what parsing a machine path gives back for every token list: empty tokens go, the last token loses trailing space |
| JsonPath.MachineRoundTrip | core/metadata/json_utils.py:78-96 | a machine path parses back to its tokens if and only if no token is empty and the last has no trailing white space |
| JsonPath.MachineInjective | core/metadata/json_utils.py:140-146 | two token lists share a machine path if and only if they are equal, or are the root and the single empty key |
| JsonPath.ScanDisplay | core/metadata/json_utils.py:99-137 | the index and buffer loop splits as the recursive scanner does and never returns an empty token |
| JsonPath.DisplayRoundTrip | core/metadata/json_utils.py:99-137 | a display path parses back if and only if every token is `[]` or free of dots and embedded `[]` and not empty, and the last has no trailing white space |
| JsonPath.DisplayNormalises | core/metadata/json_utils.py:162-163 | both spellings of such a location normalise to the same machine path |
| JsonTabular.BuildColumns | core/metadata/json_tabular.py:132-176 | the loop with its counters gives each column its name or its numbered copy, and warns of each copy |
| JsonTabular.ColumnsDistinctExactly | core/metadata/json_tabular.py:171-176 | column names are distinct if and only if no header name reads as a numbered copy that the header makes of another name |
| JsonTabular.CollidingHeader | core/metadata/json_tabular.py:171-176 | the header a, a__2, a gives two equal columns |
| JsonTabular.RenamesExactly | core/metadata/json_tabular.py:147-151 | a renaming is reported if and only if a header name is repeated |
| JsonTabular.SyntheticColumnsAreClear | core/metadata/json_tabular.py:156-158 | columns named by position are always distinct and never `_extra_values` |
| JsonTabular.DominantIsBest | core/metadata/json_tabular.py:75-79 | the dominant length is a most frequent row length, and the largest of these |
| JsonTabular.RowsKeptExactly | core/metadata/json_tabular.py:187-206 | every row can be read back from its record, for all rows, if and only if the columns are distinct and none is `_extra_values` |
| JsonTabular.MaterializeMatrix | core/metadata/json_tabular.py:179-208 | the loops over rows build one record per data row and report the matrices inside the cells, in order |
| JsonTabular.NormalizeValue | core/metadata/json_tabular.py:36-57 | the recursion over dictionaries, lists and matrices gives the normal form and the reports of all matrices, in the order found |
| JsonTabular.ChangedExactly | core/metadata/json_tabular.py:36-57 | a value comes out changed if and only if a matrix is reported |
| JsonTabular.NothingIsLost | core/metadata/json_tabular.py:36-57 | where matrices are clear in that sense, every entry, item and cell at every depth is found in its place in the result |
| JsonTabular.DetectExactly | core/metadata/json_tabular.py:60-129 | a list is a matrix if and only if it has two items, all are lists, and four in five have one length of at least two; its first row is a header if and only if it has that length and three in four of its cells hold a text that is not blank |
| JsonMatrices.ReportsExactly | core/metadata/json_tabular.py:36-57 | exactly the matrices of a value are reported, at every depth, each at the keys, items and columns that lead to it |
| JsonMatrices.ReportSays | core/metadata/json_tabular.py:88-120 | a report counts the data rows and warns if and only if names are generated, a row is too short, or a row is too long |
| Liveness.NextKeeps | services/orchestrator/worker_registry.py:56-226 | every step (heartbeat, reaping, telemetry, a pass beginning, visiting or ending, restart, time passing) keeps: OFFLINE means silent for a whole timeout |
| Liveness.RunInvariant | services/orchestrator/execution_supervisor.py:123-172 | that invariant in every state of every run |
| Liveness.WorkerLostIsSafe | services/orchestrator/execution_supervisor.py:123-172 | in every run, at the moment of a WORKER_LOST attempt nothing was received from the worker for a whole timeout, unknown workers after a restart included |
| Liveness.OfflineIsSilent | services/orchestrator/worker_registry.py:197-226 | in every reachable state an OFFLINE worker has been silent for a timeout and offers no slots |
| Liveness.LostExactly | services/orchestrator/execution_supervisor.py:132-151 | a worker is judged lost if and only if it was reaped since the pass began, or was silent for the timeout before the pass and is known or overdue after a restart |
| Liveness.PassWindowExactly | services/orchestrator/scheduler.py:100-112 | the window before the start of the pass was silent too if and only if the scheduler did not reap the worker while the pass was waiting |
| Liveness.PassWindowCanFail | services/orchestrator/scheduler.py:100-112 | a run in which a heartbeat lies inside the window before the pass and the worker is reported lost |
| Liveness.OfferExactly | services/orchestrator/worker_registry.py:89-195 | the task, busy flag and slots of a worker after a heartbeat, by what it reported: nothing about availability, a busy flag, or slots |
| Liveness.ReapExactly | services/orchestrator/worker_registry.py:197-226 | reaping takes exactly the workers offline that are online and were not heard of in time, with their task and slots |
| WorkerRegistry.Registry.MarkBusy | services/orchestrator/worker_registry.py:34-40 | in place: the named worker becomes busy, all others stay |
| WorkerRegistry.Registry.MarkIdle | services/orchestrator/worker_registry.py:42-54 | in place: the worker becomes idle unless it is busy with something else; slots only while online |
| WorkerRegistry.Registry.UpdateFromHeartbeat | services/orchestrator/worker_registry.py:69-195 | in place: a new worker joins, a known one is refreshed and comes back online; the object kept is the one returned |
| WorkerRegistry.Registry.GetAliveWorkers | services/orchestrator/worker_registry.py:56-67 | exactly the workers that are online and heard from within the timeout |
| WorkerRegistry.Registry.ReapDeadWorkers | services/orchestrator/worker_registry.py:197-226 | in place: exactly the online workers that are not alive go OFFLINE, and these are reported |
| Cancellation.ExecutionRegistry.GetStale | services/orchestrator/execution_registry.py:42-48 | exactly the records whose age has reached the timeout, each once |
| Cancellation.VisitExactly | services/orchestrator/execution_supervisor.py:290-349 | one visit: the request is put forward if and only if its telemetry is absent or stale, its age has reached the delay for its reason, its mode is known and terminating it does not raise; PostgreSQL is asked if and only if moreover the reason is one of the five that reconciliation may write; a user stop is terminated if and only if its grace period is over |
| Cancellation.UnreconcilableNeverCommits | src/modules/task_execution/flow/use_cases/reconcile_execution.py:40-55 | a request with any other reason (none, a superseded execution, a legacy text) never reaches PostgreSQL and changes nothing, and yet every due visit puts it forward again |
| Cancellation.PassOrdered | services/orchestrator/execution_supervisor.py:278-363 | in every pass each user stop is terminated before its commit, and nothing is cleaned up, released or announced before a commit |
| Cancellation.PassVisitsExactly | services/orchestrator/execution_supervisor.py:278-363 | what a pass does with a listed request, in terms of the world in which its own telemetry is read |
| Cancellation.PassAttemptsExactly | services/orchestrator/execution_supervisor.py:278-363 | in terms of the world in which the pass began: attempted if and only if due then and not hindered, although earlier visits clean up, as long as nobody else touches its telemetry |
| Cancellation.DuePassAttempts | services/orchestrator/execution_supervisor.py:278-363 | over every sequence of passes, telemetry and other activity: a pass at or after both request time plus delay and last telemetry plus stale timeout attempts the request |
| CancellationOutcome.CleanupExactly | services/orchestrator/task_finalizer.py:65-125 | a visit removes telemetry, frees the worker, releases the wait and announces if and only if PostgreSQL was asked and finalised the task with the status that its reason calls for; the announcement carries that status |
| CancellationOutcome.PassCleanupExactly | services/orchestrator/task_finalizer.py:65-125 | the same for every listed request of a pass |
| CancellationOutcome.VisitWorldExactly | services/orchestrator/task_finalizer.py:79-105 | the registries are what others make of them unless the commit succeeded; then the record is gone and the worker is freed, each unless that step raised |
| CancellationOutcome.PassTelemetryExactly | services/orchestrator/execution_supervisor.py:278-363 | what a whole pass leaves of the telemetry of a listed request, whatever others do: what they make of it, except that a successful commit of its own visit drops what was stored until then |
| CancellationOutcome.WorkersUntouched | services/orchestrator/execution_supervisor.py:278-363 | as long as no visit commits and frees a worker, the workers are what others make of them |
| WorkerLoss.GoesOnExactly | services/orchestrator/execution_supervisor.py:132-167 | a visit takes place if and only if no earlier one raised |
| WorkerLoss.PutForwardExactly | services/orchestrator/execution_supervisor.py:132-151 | the executions put to PostgreSQL as WORKER_LOST are exactly those whose worker is found lost at their own visit, up to and including the first visit that raises |
| WorkerLoss.RaisingHidesTheNext | services/orchestrator/execution_supervisor.py:132-167 | two executions of workers never heard from, past the startup grace: if finalising the first raises, the second is not put forward although its worker is as lost; it is if the first visit goes on |
| WorkerLoss.RunReachable | services/orchestrator/execution_supervisor.py:123-172 | whatever others do at the awaits and PostgreSQL answers, every state of the pass is a state of a run of the orchestrator |
| WorkerLoss.LossIsSafe | services/orchestrator/execution_supervisor.py:132-151 | whoever is put forward as lost has been silent for a whole timeout at that moment |
| WorkerLoss.QuietVerdicts | services/orchestrator/execution_supervisor.py:132-145 | if nobody is heard from or reaped while the pass waits, each verdict is the one right after the pass reaped |
| WorkerLoss.LossCleanupExactly | services/orchestrator/execution_supervisor.py:146-167 | a visit cleans up if and only if the worker is found lost and PostgreSQL finalises the task; it is announced as an error |
| WorkerLoss.PassLossCleanup | services/orchestrator/execution_supervisor.py:132-167 | the same for every listed task of a pass, up to the first visit that raises |
| WorkerLoss.LossWorldExactly | services/orchestrator/execution_supervisor.py:132-167 | a live worker is marked busy with its task; a lost one changes nothing until PostgreSQL finalises the task, and then its record is gone and it is freed |
| WorkerLoss.OrphansExactly | services/orchestrator/execution_supervisor.py:174-186 | what is left of every execution, whatever others store or drop meanwhile: an orphan has what the acts from its own turn on make of nothing, anything else what all acts make of its record; orphans are exactly the executions with a stale record that were not listed |
| WorkerLoss.StoredExactly | services/orchestrator/execution_supervisor.py:174-186 | a record that others store meanwhile and then leave alone remains if and only if its execution is no orphan or it was stored after the turn of that orphan |
| WorkerLoss.UntouchedExactly | services/orchestrator/execution_supervisor.py:174-186 | a record that others leave alone remains if and only if its execution was listed or it is fresh |
| WorkerLoss.OrphanIsGone | services/orchestrator/execution_supervisor.py:180-186 | the clean-up of an orphan removes whatever is stored then; only what others do from then on counts |
| WorkerLoss.FreshRecordIsDropped | services/orchestrator/execution_supervisor.py:176-186 | of two orphans, a fresh record of the second that arrives during the clean-up of the first is dropped |
| ExecutionSupervisor.Supervisor.Others | services/orchestrator/deps/worker_event_callbacks.py:56-103 | an await: heartbeats, reaping, telemetry and finished executions act on the same registry objects as the specification says |
| ExecutionSupervisor.Supervisor.FinalizeTask | services/orchestrator/task_finalizer.py:45-125 | commit first: telemetry, worker, nested wait and announcement follow only a successful commit, each tried on its own; others act while PostgreSQL is asked |
| ExecutionSupervisor.Supervisor.VisitTask | services/orchestrator/execution_supervisor.py:290-349 | the effects and the new registries of one listed request |
| ExecutionSupervisor.Supervisor.ReconcileCancelRequested | services/orchestrator/execution_supervisor.py:278-363 | the effects and the new registries of a whole pass, in order; it is a stretch of a run |
| ExecutionSupervisor.Supervisor.Cleanup | services/orchestrator/execution_supervisor.py:188-209 | removes the telemetry and frees the worker, and nothing else |
| ExecutionSupervisor.Supervisor.VisitOwned | services/orchestrator/execution_supervisor.py:132-167 | one visit: the verdict is taken on the registry as it is then; others act while PostgreSQL is asked, whatever it answers, and while the end is announced |
| ExecutionSupervisor.Supervisor.FinalizeLost | services/orchestrator/execution_supervisor.py:123-172 | reaps, and visits what is listed until a visit raises |
| ExecutionSupervisor.Supervisor.CollectOrphans | services/orchestrator/execution_supervisor.py:174-186 | cleans up exactly the orphans found at first; others act after each |
| ExecutionSupervisor.Supervisor.ReconcileStaleExecutions | services/orchestrator/execution_supervisor.py:123-186 | the whole step: orphans are collected only if no visit raised, and listed after others acted once more; it is a stretch of a run |
| OomGuard.ArgMax | services/orchestrator/execution_supervisor.py:405-409 | the first index of a largest key |
| OomGuard.KillsAreSpaced | services/orchestrator/execution_supervisor.py:384-476 | over the life of a supervisor, whatever the mode, telemetry and answers of each pass (a request may also raise and end its pass): the passes of two accepted kills on one host are at least a cooldown apart, and their acceptances are in order and at least a cooldown less the wait of the earlier one apart |
| OomGuard.LeastGapIsReached | services/orchestrator/execution_supervisor.py:396-412 | for every cooldown and every wait there is a run whose two acceptances on one host are exactly that far apart, so that the bound is the best one |
| OomGuard.AcceptancesExactly | services/orchestrator/execution_supervisor.py:396-412 | where requests are answered within a given wait, acceptances are a cooldown apart in all runs if and only if the wait is zero or there is no cooldown |
| OomGuard.HostPassVictims | services/orchestrator/execution_supervisor.py:384-421 | the host guard adds at most one kill per host under pressure, of a largest consumer there |
| OomGuard.VictimsAreOffenders | services/orchestrator/execution_supervisor.py:365-476 | each kill that a pass adds is a maximal offender meeting the threshold of that pass and was accepted when its answer says, and no two are on one host |
| OomGuard.CandidateExactly | services/orchestrator/execution_supervisor.py:431-460 | a record is a candidate if and only if its host does not cool down and it reaches the configured share of its memory limit or the configured size |
| OomGuard.HostPassExactly | services/orchestrator/execution_supervisor.py:384-421 | under host pressure a kill of a heaviest task is requested on every host that reaches the threshold and does not cool down, until a request raises, and on no other |
| OomGuard.GuardPassExactly | services/orchestrator/execution_supervisor.py:365-476 | what a pass adds to the kills: nothing when disabled, exactly the accepted requests of those hosts, or what one request for a worst candidate gives |
| OomGuard.OomSupervisor.ApplyHostPressureGuard | services/orchestrator/execution_supervisor.py:384-421 | the loop over hosts leaves the cool-down table and kills of the specified pass |
| OomGuard.OomSupervisor.ApplyWorkerThresholdGuard | services/orchestrator/execution_supervisor.py:423-476 | the same for the worker threshold mode |
| RevisionGraph.FinishVertex | scripts/.pre_commit/check_migration_revisions.py:165-182 | a vertex whose parents are finished can be finished: no cycle runs through the finished part |
| RevisionGraph.CycleFinder.Visit | scripts/.pre_commit/check_migration_revisions.py:165-182 | the depth-first visit terminates, restores the active path, and finishes everything above or returns a closed walk |
| RevisionGraph.FindCycle | scripts/.pre_commit/check_migration_revisions.py:160-188 | None if and only if the combined graph is acyclic, else a genuine closed walk, for any order of the outer loop |
| RevisionGraph.ConnectedThroughEnds | scripts/.pre_commit/check_migration_revisions.py:191-258 | if degrees and acyclicity pass, every revision lies on a down_revision chain from the head to the base |
| RevisionGraph.Validate | scripts/.pre_commit/check_migration_revisions.py:191-258 | each error is reported if and only if its check is the first to fail; an accepted graph is connected through its ends |
| ReferenceExpressions.NameRoundTrip | migrations/versions/0045_normalize_variable_io_and_input_payloads.py:82-113 | a name is read back from its expression if and only if it holds no lone surrogate, whatever the identifier tables say |
| ReferenceExpressions.SurrogateNameIsLost | migrations/versions/0045_normalize_variable_io_and_input_payloads.py:97-113 | a name that is not read back |
| VariablePayloads.UpgradeCleans | migrations/versions/0045_normalize_variable_io_and_input_payloads.py:116-142 | after an upgrade no `var` node and no `expr` node with `var_type` is left at any depth |
| VariablePayloads.UpgradeIdempotent | migrations/versions/0045_normalize_variable_io_and_input_payloads.py:116-142 | upgrading twice is upgrading once |
| VariablePayloads.ChangedExactly | migrations/versions/0045_normalize_variable_io_and_input_payloads.py:170-197 | the changed flag is set if and only if the payload comes out different, in both directions |
| VariablePayloads.NormalizePayload | migrations/versions/0045_normalize_variable_io_and_input_payloads.py:170-197 | the recursive loops compute the rewriting and that flag |
| VariablePayloads.RoundTripExactly | migrations/versions/0045_normalize_variable_io_and_input_payloads.py:116-167 | downgrade after upgrade gives the payload, minus what an upgrade forgets, if and only if every surviving node is canonical |
| VariablePayloads.RowRoundTripExactly | migrations/versions/0045_normalize_variable_io_and_input_payloads.py:200-219 | the same for a whole row: if and only if it did not use the new key and all it holds is canonical |
| VariablePayloads.FilterComplete | migrations/versions/0045_normalize_variable_io_and_input_payloads.py:221-249 | a row that the rewriting would change is always loaded |
| VariablePayloads.UpgradedFields | migrations/versions/0045_normalize_variable_io_and_input_payloads.py:116-142 | which fields of a variable node go, change and stay in an upgrade, in both modes |
| VariablePayloads.DowngradedFields | migrations/versions/0045_normalize_variable_io_and_input_payloads.py:145-167 | the same for an expression node in a downgrade, by whether its value refers to a name |
| ColumnRules.DowngradeUndoesUpgrade | migrations/versions/0063_column_rules_contract.py:91-201 | for every node, stored value and set of connected inputs: if an upgrade changes it, a downgrade returns exactly the stored value |
| ColumnRules.EditsSurvive | migrations/versions/0063_column_rules_contract.py:91-201 | no sequence of upgrades and downgrades alters a payload whose generated field was edited |
| ColumnRules.EditingGeneratedField | migrations/versions/0063_column_rules_contract.py:183-201 | editing any generated field of an upgraded payload makes it such a payload |
| ColumnRules.OtherEditsAreKept | migrations/versions/0063_column_rules_contract.py:183-201 | whatever was stored, an edit of another field survives the downgrade that undoes the generated ones; a stored text comes back only if the edit changed nothing |
| ColumnRules.BindingsAreThePorts | migrations/versions/0063_column_rules_contract.py:103-111 | for every node and port: an input fed by a link or an expression is recorded under the path of the port and the rule holds the placeholder there; any other is not recorded and the rule holds its value there, or the default |
| ColumnRules.UnhashableTypeRaises | migrations/versions/0063_column_rules_contract.py:103-111 | an unconnected input whose stored `__dvt_type` is a list makes the upgrade raise |
| ColumnRules.UpgradeExactly | migrations/versions/0063_column_rules_contract.py:91-111 | an upgrade touches a payload if and only if the node is known, no marker is there and no field of the new contract is set; it then raises if and only if an unconnected input has an unhashable type |
| ColumnRules.UpgradedHolds | migrations/versions/0063_column_rules_contract.py:113-180 | an upgraded payload holds its one rule as a constant list under the field of its contract, and everything stored elsewhere |
| ColumnRules.PairsExactly | migrations/versions/0063_column_rules_contract.py:136-142 | a replace rule has one pair per key of the dictionary, in order, with the key as old and the value stored under it as new; none if there is no dictionary |
| ColumnRules.ColumnRuleFixed | migrations/versions/0063_column_rules_contract.py:155-169 | id, enabled, compatibility and input bindings of every column rule |
| ColumnRules.OutputExactly | migrations/versions/0063_column_rules_contract.py:143-154 | the output mode of each node, and its two flags if and only if it writes to a new column |
| ColumnRules.OtherRulesFixed | migrations/versions/0063_column_rules_contract.py:113-128 | a calculated column overwrites, and a column binding names no source |
| KeysetMigration.CollectConnected | migrations/versions/0063_column_rules_contract.py:214-231 | the edges of one page give each of its rows all its connected inputs |
| KeysetMigration.FedExactly | migrations/versions/0063_column_rules_contract.py:214-231 | an input is connected if and only if a link of the project ends at the node with the handle `input-` and its name |
| KeysetMigration.PageIs | migrations/versions/0063_column_rules_contract.py:208-213 | a keyset page is the next slice of the id order |
| KeysetMigration.Table.ConvertPage | migrations/versions/0063_column_rules_contract.py:232-253 | one page converts exactly its rows, each once |
| KeysetMigration.Table.Migrate | migrations/versions/0063_column_rules_contract.py:204-254 | the loop ends, fetches every matching row exactly once in id order, and leaves the table in which all matching rows are converted at once; it succeeds if and only if no conversion of a matching row raises, and otherwise nothing changes |
| ExtensionIdentity.SchemaFits | migrations/versions/0062_canonical_extension_identity.py:41-51 | no storage schema is longer than 63 characters |
| ExtensionIdentity.CanonicalIsItsKey | migrations/versions/0062_canonical_extension_identity.py:23-38 | the name given to an extension is exactly the key it is compared by |
| ExtensionIdentity.ClaimKeys | migrations/versions/0062_canonical_extension_identity.py:63-74 | a row claims its keys if and only if no other row has one of them |
| ExtensionIdentity.ClaimAll | migrations/versions/0062_canonical_extension_identity.py:63-74 | the migration goes on if and only if the key sets of distinct rows are disjoint |
| ExtensionIdentity.NamesStayUnique | migrations/versions/0062_canonical_extension_identity.py:76-79 | then names are unique before, after every single update, and at the end |
| ExtensionIdentity.ExtensionTable.Upgrade | migrations/versions/0062_canonical_extension_identity.py:54-79 | aborts without touching a row if and only if two rows answer to names with one key; otherwise every row gets the canonical name everywhere, its former names as aliases in order, and the storage schema of its old name, by updates none of which the unique index can refuse |
| ExtensionIdentity.ConflictExactly | migrations/versions/0062_canonical_extension_identity.py:63-72 | the conflict check accepts a table if and only if no two rows answer (by name, alias or new name) to names with one key |
| ExtensionIdentity.UpdateKeepsIdentity | migrations/versions/0062_canonical_extension_identity.py:66-75 | an updated row answers to exactly the names it answered to before |
| ExtensionIdentity.UpgradeKeepsKeys | migrations/versions/0062_canonical_extension_identity.py:66-75 | the conflict check judges the updated table as it judged the table before |
| ExtensionIdentity.SchemasCollideExactly | migrations/versions/0062_canonical_extension_identity.py:41-51 | for all names and every digest function, when two names get one schema: both without a digest, if they differ in outer blanks and underscores only (a name of underscores counting as `extension`); both with, if stems and digests are equal; one with, if the other is its stem and digest up to outer blanks and underscores |
| ExtensionIdentity.BareExactly | migrations/versions/0062_canonical_extension_identity.py:41-51 | the name without outer underscores is the only part of it that has none at its ends and only underscores around it |
| ExtensionIdentity.UnderscoresShareSchema | migrations/versions/0062_canonical_extension_identity.py:41-74 | the conflict check accepts rows named `_a` and `a`, which get one schema |
| ExtensionIdentity.DigestSharesSchema | migrations/versions/0062_canonical_extension_identity.py:41-74 | it accepts `A` and the plain name that reads as the schema of `A`, whatever the digest |
| Codec.DecodeExactly | core/dump_engine/codec.py:140-176 | decoding what was encoded gives the value if it is restorable and fails otherwise, with the untagged branches made errors or not |
| Codec.PackableExactly | core/dump_engine/codec.py:33-35 | a payload can be packed if and only if all integers fit 64 bits |
| Codec.RoundTripExactly | core/dump_engine/codec.py:33-120 | a value survives dump and load if and only if its integers fit, its classes can be imported, its enum values have the names of members and its dataclasses can be called with their fields; it never comes back as another value |
| Codec.HiddenFieldIsLost | core/dump_engine/codec.py:169-172 | a dataclass with a field outside its constructor is written and cannot be read |
| Codec.FlagCombinationIsLost | core/dump_engine/codec.py:174-176 | a combination of flags is written under a name that no member has |
| UnionRestore.CollectUnionMetadata | core/dump_engine/_pydantic.py:71-107 | the recursive loop collects the entries in field order |
| UnionRestore.CollectRecords | core/dump_engine/_pydantic.py:71-107 | the entries are exactly the union positions of the tree, each once and with its class |
| UnionRestore.Turn | core/dump_engine/_pydantic.py:116-154 | while the ancestors of a position wait, the turn of its entry changes exactly that position |
| UnionRestore.EveryWalkArrives | core/dump_engine/_pydantic.py:114-133 | at every turn of every restoration, all proper ancestors of the recorded position are still dictionaries |
| UnionRestore.RestoreEntry | core/dump_engine/_pydantic.py:116-154 | the walk and the assignment of one round, with every way in which it gives up |
| UnionPayload.RestoreAt | core/dump_engine/_pydantic.py:116-154 | one round in place, on nested dictionary objects: exactly the named position of the tree changes |
| UnionPayload.RestoreUnionModels | core/dump_engine/_pydantic.py:110-154 | in place: the payload object holds the result of all entries, deepest first |
| UnionPayload.Load | core/dump_engine/_pydantic.py:191-209 | of what dump wrote for a model, gives back that model if and only if it is faithful to its declarations |
| UnionRestore.RestoreComplete | core/dump_engine/_pydantic.py:110-154 | for every model tree: every union model is rebuilt with its own class around those below it, and no other position changes |
| UnionRestore.StaysExactly | core/dump_engine/_pydantic.py:188-209 | when a value in a list, a dictionary or a plain field comes back from its dump alone: models of their declared classes, and unions that pick the same again |
| UnionRestore.RoundTripExactly | core/dump_engine/_pydantic.py:174-209 | a model comes back from load after dump unchanged if and only if it is faithful to its declarations |
| UnionRestore.SubclassIsLost | core/dump_engine/_pydantic.py:174-209 | a subclass instance in a field declared as the base class comes back as the base class |
| UnionRestore.ListItemIsLost | core/dump_engine/_pydantic.py:86-107 | a list of unions is not recorded: an item comes back as whatever class the union picks for its dump |
| ModuleExports.CollectRuntimeExports | scripts/analysis/extension_imports_check.py:259-346 | the recursive loops fill the exports with the run-time bindings of all statements in order, without what only a type checker runs, and the names answered by `__getattr__` |
| ModuleExports.LastBindingWins | scripts/analysis/extension_imports_check.py:268-308 | the binding that a name was given last is the one exported |
| ModuleExports.OnlyBindings | scripts/analysis/extension_imports_check.py:268-308 | no other name is exported |
| ModuleExports.AssignedNames | scripts/analysis/extension_imports_check.py:542-559 | the recursive loops over targets collect exactly the names that tuples and lists bind at any depth |
| ModuleExports.TypeCheckingExactly | scripts/analysis/extension_imports_check.py:577-590 | a branch is recognised if and only if its test is the flag under any number of `not`s; their parity decides which way |
| ModuleExports.AnsweredExactly | scripts/analysis/extension_imports_check.py:593-612 | a name is answered if and only if some comparison has the first argument and that text among its operands, directly or in a tuple, list or set |
| ModuleExports.LiteralNames | scripts/analysis/extension_imports_check.py:593-612 | the loops over comparisons and operands collect those names |
| ModuleExports.RelativeExactly | scripts/analysis/extension_imports_check.py:520-539 | a relative import names a module if and only if it does not climb above the top and names a part; the name has exactly the parts of the package, trimmed, and of the import |
| ExportIndex.RevisitNotExported | scripts/analysis/extension_imports_check.py:183-191 | a chain that comes back to a key it has passed never ends in a binding |
| ExportIndex.SeenGrows | scripts/analysis/extension_imports_check.py:183-191 | the set of keys that are still unseen shrinks at every hop, so that the search ends on every repository |
| ExportIndex.HostRepositoryIndex.GetModulePath | scripts/analysis/extension_imports_check.py:149-181 | the cached answer is what the file system says, now and later |
| ExportIndex.HostRepositoryIndex.GetModuleInfo | scripts/analysis/extension_imports_check.py:216-257 | the same for the bindings of a module; an unreadable module is recorded as such |
| ExportIndex.HostRepositoryIndex.HasExportFrom | scripts/analysis/extension_imports_check.py:183-214 | terminates on every repository, cycles included; true if and only if the re-export chain reaches a definition, a dynamic export, a submodule or a module outside the host |
| ExportIndex.HostRepositoryIndex.HasExplicitExport | scripts/analysis/extension_imports_check.py:98-101 | true if and only if the module exists and the chain ends in a binding |
| ExportIndex.HostRepositoryIndex.Resolve | scripts/analysis/extension_imports_check.py:103-126 | which of the four answers is given, and exactly when |
| ExportIndex.HostRepositoryIndex.DependencyForAttributeChain | scripts/analysis/extension_imports_check.py:128-147 | the longest prefix of the attributes that leads through modules, and the attribute after it |
| ExportIndex.LocateExactly | scripts/analysis/extension_imports_check.py:149-181 | where a module is found: `config` as a file only, below src and core a file before a package before a directory, nothing elsewhere |
| ExportMeaning.InfoMeans | scripts/analysis/extension_imports_check.py:259-346 | a name is exported if and only if a statement that runs gives it a value, and then as the last such statement does; it is answered dynamically if and only if a `__getattr__` that runs answers to it |
| ExportMeaning.TakenExactly | scripts/analysis/extension_imports_check.py:183-214 | where `from M import n as local` gives a name its last value, it can be imported if and only if M is no host module, or M.n is a module and M is not config, or n can be imported from M |
| ExportMeaning.ImportedExactly | scripts/analysis/extension_imports_check.py:278-283 | where `import a.b` or `import a.b as c` does, if and only if a, or a.b, is no host module or exists |
| ExportMeaning.DefinedIsExported | scripts/analysis/extension_imports_check.py:268-308 | a name whose last value is a definition or an assignment can be imported |
| ExportMeaning.AnsweredOrUnbound | scripts/analysis/extension_imports_check.py:183-202 | a name that is answered dynamically can be imported, and one that no statement gives a value cannot |

## Left out

- The execution facade beyond the guard on reasons, Celery, gRPC, WebSocket and Valkey: their answers are parameters, and any answer is possible.
- Nested-wait reservations and the outbox: the deciding code is not part of this model; a release is only an effect.
- Log messages, reasons in prose and message texts of errors and warnings.
- Awaits that only wait for a free lock of a registry, which never suspend because no holder of these locks does.
- What others do during the last waits of a cancellation pass, after which it reads nothing, counts as done after the pass.
- `json_safe`: documents are taken as it returns them, with distinct keys in every object; NaN and infinities are not modelled.
- Lone surrogates in JSON paths, codec strings and extension names: Dafny characters are Unicode scalar values.
- `str` of a matrix cell that is not text is a parameter, and the thresholds of the matrix normaliser are compared as exact fractions.
- Timestamps, ages and memory figures are real numbers, without rounding.
- Reading migration files, and the RELEASE file (`parse_release_text`, `sync_release`).
- SQL of the migrations other than row selection, order and update; edge handle renames of 0045.
- ColumnRules.Downgrade: a damaged backup whose `previous` lists pairs with keys that are not text is taken to raise; Python would store such keys.
- SHA-256, and Unicode lower-casing and normalisation, in 0062 and Python's identifier tables in 0045 are parameters.
- Codec kinds `special` and `engine`, bytearray and memoryview, enum members that are also str or int, flags without a name, subclasses of the built-in containers, dataclasses with `__post_init__` or `eq=False`, and the recursion limits of msgpack. Floats are reals.
- In the codec, the key order of an untagged dictionary, which the encoder never writes, is the sorted one.
- pydantic: `model_dump` writes every field of every nested model, calling a class keeps ready instances and builds declared classes; validation errors, classes that cannot be imported, tuples and sets of models, and the leaving out of fields that a subclass adds are not modelled. What a union picks for a dictionary or a list is a parameter.
- Model trees with cycles, which the identity stack of `_collect_union_metadata` cuts.
- UnionPayload.RestoreAt: goes down the objects by recursion where the source has a loop; UnionRestore.RestoreEntry has that loop, on values.
- ExportIndex.HostRepositoryIndex.HasExportFrom: the set of seen keys is passed by value; the caller never reads what a call adds.
- ExportIndex.HostRepositoryIndex.GetModuleInfo: for a module name with empty parts, relative imports are resolved as for the name without them.
- ModuleExports.LiteralNames: the comparisons of a function, nested ones included, come with it; walking its syntax tree is left out.
- dtype, SQLAlchemy, pandas, dask and Arrow mapping, storage wrappers, configuration, gateway, installer, schema-only migrations: plumbing, or easy members only.
