# Verification of the provisioning platform

A Dafny model of the parts of the platform whose correctness depends on several functions, several
processes or a whole history, with proofs about every input, run or reachable state. Check it with
`dafny verify dfyconfig.toml`.

## What is modelled

**The provisioning job protocol.** `JobModel` holds one job row with its 26 steps and every
transaction that changes it; `JobInvariant`, `JobRuns`, `JobMedia`, `JobSetup`, `JobRetry`,
`JobRecovery` and `JobWitnesses` prove what all runs of a job have in common. `JobStore` is the
imperative code over the job table, method by method, proved to perform exactly those transactions.
`JobExecute` shows that the stage loop refines them, `JobOutcome` when it completes a job, and
`JobFields` what each transaction and the whole loop leave in the fields of the rows.
`Fleet` and `FleetOwnership` put any number of workers, tasks and API requests around the table;
`FleetCapacity` says when a worker can come to hold too many jobs, and what becomes of a job whose
task is gone.

**The dependency resolver.** `AppGraph` says what an installation order is, `AppSearch` what the
search lists and in which order, `StableOrder` which order the resolver returns. `Resolver` is the
coloured search and the sort, `AdminCatalog` the catalog edits and the two places that resolve,
`InstallOrders` when the result depends on the order of the selection.

**The answer image.** `IsoFormat` and `IsoReader` are a reader of ISO 9660 volumes (ECMA-119:
sections 7.2.3 and 7.3.3 for the byte orders, 8.4 for the descriptor, 9.1 for directory records, 9.4
for path tables). `IsoLayout` and `IsoPlan` say where every byte belongs, `IsoBuilder` and `IsoImage`
write it, `IsoRecovery` and `AnswerMedia` prove that the reader gets the files back, `IsoDeterminism`
that the image depends on nothing but the files. `IsoNumbers` says what the image is in plain numbers,
without the functions that writer and reader share.

**Kernels.** `RefreshTokens`, `RateLimiter`, `Histogram`, `InstallerPaths`, `Ipv4` and `StaticIpv4`;
`Maps`, `Names`, `Numbers`, `Options` and `Text` are what they share.

## Assumptions

- One committed transaction is one step. `_interrupt` and its media release are one step, so are
  `_apply_cancellation` and the loop iteration after it, and attaching the media and committing the
  artifacts of the preparation.
- A worker whose job was reaped stops writing; pipeline writes are not fenced by `worker_id`.
- A task may end in any state of its job. Where an interruption or a crash catches the media clean-up
  between its vCenter call and its commit, the media is gone and the artifact that says so is not
  recorded.
- A stage key is its position in `ORDERED_STAGES`. Rows are values of a table, because every session
  writes whole rows. The last-resort handler for a crashed pipeline runs only while the job is
  running: event publishing swallows its own errors, and nothing else follows the final commits.
- New ids, task ids, worker ids, token ids and families are fresh. VM names are lower-cased as ASCII
  and not limited in length, so that a new one can always be found.
- Handlers, vCenter and the preflight are parameters. A handler's outcomes are limited to those the
  code of `stage_create_vm`, `stage_prepare_unattended_install`, `stage_power_on` and
  `stage_cleanup_unattended_media` can return; other handlers may return anything.
- The number of stages, the 26 names and their order are those of
  `backend/app/workers/state_machine.py:23-50`.

## Where the code does not do what it says

Each of these is modelled as written. The exact condition is proved for all inputs; the last name in
the brackets is a concrete case, unless something else is said.

- `execute` returns early only for FAILED. A cancellation that lands in the last stage ends
  COMPLETED, although a comment in `_finalize_success` says only a verified deployment gets there
  (`CompletionIsEarned`, `CancelledJobReportsCompleted`).
- The artifact merge keeps an old `media_removed`. After a second preparation no stop path removes
  the media, and `may_hold_unattended_media` denies it is there (`RecordedIffPreparedOnce`,
  `StopLeavesMediaIff`, `SecondPreparationLeaksMedia`).
- A job that stopped with nothing unfinished cannot be retried (`StoppedJobRetryable`,
  `InterruptedBetweenStagesIsRefused`). Without step rows, or with every step done, nothing at all
  can complete it (`CompletableIff`, `CancelledBeforeClaimIsStuck`).
- A task's done-callback removes whatever task the entry of its job names. A worker that claims a job
  again before the old task is done loses track of the new one and takes more jobs than it has slots
  (`CapacityKeptIff`, `ReclaimExceedsConcurrency`).
- `_process_job` handles only a cancelled task. An error outside the pipeline ends the task with the
  row still RUNNING: the worker then takes more jobs than it has slots (`CapacityKeptIff`,
  `AbandonedJobExceedsConcurrency`), until the job is reaped, which needs a silent heartbeat timeout
  (`AbandonedIsReapable`).
- `_assert_acyclic` filters error texts by phrase, so a disabled application named like a phrase
  makes sound edits fail (`AssertAcyclic` and `UpdateApplication` say exactly when,
  `MisleadingBefore` before the edit; `SoundEditRefused`).
- Only creating an application checks its name, and the table has no unique constraint on it. Renaming
  can give two applications one name (`EditKeepsNamesIff`). More than one order is then admissible
  (`OneOrderIff` counts the admissible ones), and the order of the selection can decide which of them
  the resolver returns (`OrderKeptIff` says exactly when; `RenamingChangesOrder`).
- The root directories of an image have one sector each and nothing checks that they fit
  (`ListsAllIffFits`, `JolietRecoversIff`, `NumberedNotListed`); a directory that fits is not harmed
  by one that does not. Upper-case identifiers may collide (`RecoversIff`, `ClashLosesAFile`). The two
  files of the answer medium always fit and never collide (`BuildAnswerMedia`).
- Presenting a revoked token does not revoke its family, contrary to the module's description; it
  does not have to, because families are revoked as a whole (`FamiliesShareTheirFate`; nothing fails,
  so there is no case).
- The comment in `Histogram.observe` promises cumulative counts; only observations in bucket order
  keep them (`ExactIffInOrder`, `SmallAfterLargeIsLost`).
- A call of the limiter reads the clock before it takes the lock. If the readings are out of order
  and the limit is at least two, a window can hold more admitted calls than the limit (`SafeIff` says
  exactly how long an interval may be, `BoundIsTight`). The only caller, `RedisRateLimiter.allow`, runs
  in one event loop, where readings are in order: it takes a caller with threads.
- The request model accepts reserved gateways and unusable name servers that the list of problems
  objects to (`ValidatorsDiffer`, `ReservedGatewayDisagrees`, `UnusableServerDisagrees`).

## Model

| member | source | states |
|---|---|---|
| JobInvariant.StepKeepsInv | backend/app/workers/pipeline.py:55-160 | every committed transaction of a job (claim, heartbeat, start, stage begin/finish/fail/stop, finalise, crash, interrupt, retry, cancel) keeps the invariant: done steps are a prefix of the stage order, a running step is the next one, ownership columns match the status, media bookkeeping matches the VM |
| JobInvariant.FirstCancellation | backend/app/workers/pipeline.py:357-385 | cancelling while a stage runs closes every open step, removes unbooted media and keeps the invariant |
| JobInvariant.ReleaseKeepsInv | backend/app/workers/stages.py:1189-1244 | removing the answer media puts a prepared but unbooted stage back without breaking the prefix of done steps |
| JobInvariant.CancelOpenKeepsInv | backend/app/repositories/jobs.py:311-321 | closing pending and running steps changes no done step and leaves nothing running |
| JobRuns.ReachableInv | backend/app/workers/engine.py:192-244 | the invariant holds in every state of every run, with any number of retries and interruptions |
| JobRuns.DoneStepsArePrefix | backend/app/workers/pipeline.py:55-77 | in every reachable state the done steps are exactly the first n stages, for some n |
| JobRuns.StepKeepsDone | backend/app/workers/stages.py:1224-1230 | a transaction can take only the preparation out of the done steps, and not once power-on is done |
| JobRuns.StaysDone | backend/app/repositories/jobs.py:261-296 | what is done stays done to the end of any run (the preparation: once Setup was started) |
| JobRuns.CompletedWorkIsNotRepeated | backend/app/repositories/jobs.py:264-268 | each stage but the preparation completes at most once in a run and is never begun again; the preparation is not begun again once power-on succeeded |
| JobRuns.CompletionIsEarned | backend/app/workers/pipeline.py:60-79 | a job that becomes COMPLETED has every stage done if and only if it did not get there through a cancellation during a stage |
| JobRuns.CompletedMeansDone | backend/app/workers/pipeline.py:276-286 | COMPLETED means all 26 stages are done, in every run in which no cancellation lands in the last stage |
| JobRuns.FailureStatus | backend/app/workers/pipeline.py:206-217 | a failing stage leaves PARTIALLY_COMPLETED exactly when it comes after create_vm, FAILED otherwise |
| JobMedia.RecordedIffPreparedOnce | backend/app/repositories/jobs.py:298-309 | media that is on the VM is recorded as such exactly when preparation has succeeded once |
| JobMedia.StoppedJobsHoldNoMedia | backend/app/workers/stages.py:1189-1264 | if removals succeed and nothing crashes, a job that is not executing holds answer media only after a second preparation |
| JobMedia.StopLeavesMediaIff | backend/app/workers/pipeline.py:148-151 | with successful removals, a stop leaves the media behind if and only if the job was prepared at least twice and the stage that stops had not just cleaned up |
| JobSetup.StepKeepsReady | backend/app/workers/stages.py:1189-1244 | every transaction keeps: a job that is prepared but not powered on has its answer media on the VM |
| JobSetup.SetupStartsWithMedia | backend/app/workers/stages.py:848-961 | in every run the power-on stage begins with the answer media attached, whatever was retried, interrupted or cancelled before |
| JobOutcome.CompletesIff | backend/app/workers/pipeline.py:55-79 | an execution not yet cancelled ends COMPLETED if and only if, in the stages left, no handler fails, no cancellation is found before a stage and none arrives during a stage other than the last |
| JobOutcome.CancelledEnds | backend/app/workers/pipeline.py:69-72 | a cancellation found before a stage ends the job CANCELLED |
| JobOutcome.StoppedEnds | backend/app/workers/pipeline.py:102-106 | a user stop during a stage ends COMPLETED exactly when it is the last stage |
| JobExecute.ExecuteRefines | backend/app/workers/pipeline.py:55-79 | every execution of the stage loop, whatever handlers, vCenter and users do, is a sequence of the modelled transactions |
| JobExecute.HandlerRefines | backend/app/workers/pipeline.py:81-160 | however a handler ends, the row changes and the rest of the loop are such a sequence |
| JobExecute.AfterStop | backend/app/workers/pipeline.py:102-106 | after a user stop the loop cancels a second time at the next stage, but after the last stage it falls through to success |
| JobExecute.PerformsKeepsInv | backend/app/workers/pipeline.py:55-79 | performed transactions keep the invariant, hence so does every execution of the loop |
| JobRetry.ExecuteCompletes | backend/app/workers/pipeline.py:55-79 | with handlers that return and no cancellation the loop ends COMPLETED with every stage done |
| JobRetry.RetryMakesProgress | backend/app/repositories/jobs.py:261-296 | after any retry that resets a step (of the whole job or of one stage), one claim and one undisturbed execution complete the job |
| JobRetry.StoppedJobRetryable | backend/app/services/provisioning/service.py:271-273 | a job that has just stopped can be retried if and only if a condition on the job before the stop holds: some step was left unfinished |
| JobRecovery.CompletableIff | backend/app/services/provisioning/service.py:217-322 | a stopped job can still be brought to completion by cancelling and retrying, with the executions between, if and only if some step row of it is not done |
| JobRecovery.StuckForGood | backend/app/services/provisioning/service.py:217-322 | a stopped job without step rows, or with every step done, stays stopped whatever is tried |
| JobRecovery.UndoneIsResettable | backend/app/repositories/jobs.py:261-296 | a failed, cancelled or partially completed job with a step that is not done can always be retried |
| JobWitnesses.CancelledJobReportsCompleted | backend/app/workers/pipeline.py:73-79 | a concrete run that ends COMPLETED with a cancelled last stage |
| JobWitnesses.SecondPreparationLeaksMedia | backend/app/workers/pipeline.py:148-151 | a concrete run without failed removals that ends with media on the VM which may_hold_unattended_media denies |
| JobWitnesses.CancelledBeforeClaimIsStuck | backend/app/services/provisioning/service.py:292-322 | a job cancelled before its first claim cannot be retried, and nothing can complete it |
| JobWitnesses.InterruptedBetweenStagesIsRefused | backend/app/workers/engine.py:309-353 | a job interrupted between two stages is refused a retry, but can be completed after a cancellation |
| JobStore.JobTable.SelectDue | backend/app/repositories/jobs.py:107-114 | the selected rows are due, unlocked and distinct, oldest first; no more than the limit, and none is left out while there is room or while a younger one is taken |
| JobStore.JobTable.ClaimDueJobs | backend/app/repositories/jobs.py:99-123 | the rows claimed are queued, due and not locked, distinct, oldest first and at most `limit`, and none is left out while there is room or while a younger one is taken; they, and only they, become RUNNING with this worker and a heartbeat |
| JobStore.JobTable.Heartbeat | backend/app/repositories/jobs.py:125-156 | the heartbeat moves only for the owner of a running job; the answer is the cancel flag, false for a job this worker finished, none for a lost one |
| JobStore.JobTable.EnsureSteps | backend/app/repositories/jobs.py:229-248 | missing step rows are added, existing ones are untouched |
| JobStore.JobTable.ResetForRetry | backend/app/repositories/jobs.py:261-296 | exactly the eligible steps become PENDING, listed in stage order; the job is requeued if and only if there is one |
| JobStore.JobTable.CancelOpenSteps | backend/app/repositories/jobs.py:317-320 | pending and running steps become CANCELLED, others are untouched |
| JobStore.JobTable.CancelJob | backend/app/services/provisioning/service.py:292-322 | an ended job is refused and unchanged; any other is handed to a worker, finalised or flagged, as its status and media demand |
| JobStore.JobTable.ReleaseUnattendedMedia | backend/app/workers/stages.py:1189-1244 | the media is released exactly when it may be there and vCenter agrees |
| JobStore.JobTable.FailBeforePipeline | backend/app/workers/engine.py:265-299 | the job is FAILED and unowned, its open steps are CANCELLED |
| JobStore.JobTable.Interrupt | backend/app/workers/engine.py:309-353 | running steps become FAILED and retryable, the job INTERRUPTED and unowned, the media is released if possible |
| JobStore.JobTable.ApplyCancellation | backend/app/workers/pipeline.py:357-385 | releases the media, then closes the open steps and the job |
| JobStore.JobTable.HandleFailure | backend/app/workers/pipeline.py:190-274 | the step is FAILED, the job PARTIALLY_COMPLETED or FAILED, and the media is released if possible |
| JobStore.JobTable.RecordOutcome | backend/app/workers/pipeline.py:139-153 | the step takes the very outcome its handler returned (SUCCEEDED, SKIPPED, WARNING or NOT_APPLICABLE), any other value counting as SUCCEEDED, and artifacts are merged |
| JobStore.JobTable.EndStage | backend/app/workers/pipeline.py:101-153 | the three ways a handler can end |
| JobStore.JobTable.RunStage | backend/app/workers/pipeline.py:81-160 | one attempt more; the row of the stage ends with the outcome its handler returned, FAILED with the retryable flag of the error, or CANCELLED together with the job |
| JobStore.JobTable.ExecuteStage | backend/app/workers/pipeline.py:56-75 | one turn of the loop is one unfolding of its specification |
| JobStore.JobTable.Execute | backend/app/workers/pipeline.py:55-79 | the loop leaves behind exactly the specified job and no other job is touched; where nothing disturbs it the job is COMPLETED, every stage that was not done carries its own handler's outcome and one attempt more, and every other row is as before |
| JobFields.ExecutePasses | backend/app/workers/pipeline.py:55-79 | the loop passes every stretch of stages whose handlers answer and in which nobody cancels: it goes on behind it from a job in which exactly the rows of these stages have changed, each to its own handler's outcome |
| JobFields.DisturbedExecution | backend/app/workers/pipeline.py:66-75 | the first cancellation found before a stage, or the first failing handler, ends the loop: the stages before it carry their outcomes, and only the cancellation or the failure is applied to what they left |
| JobFields.RunStageMeans | backend/app/workers/pipeline.py:101-153 | the row of a stage after it has run, for each way its handler can end |
| JobFields.ReleaseMeans | backend/app/workers/stages.py:1189-1244 | nothing changes unless the media may be there and is removed; then it is detached and recorded as removed, and the preparation becomes PENDING exactly when it had succeeded and the VM was not powered on |
| JobFields.CancellationMeans | backend/app/workers/pipeline.py:357-385 | the rows that become CANCELLED are those PENDING or RUNNING and a preparation that the removal of the media undoes |
| JobFields.FailStageMeans | backend/app/workers/pipeline.py:190-274 | the row, the status of the job by whether create_vm is done, the other rows and the media after a failure |
| JobFields.InterruptMeans | backend/app/workers/engine.py:309-353 | running rows become FAILED and retryable, the job INTERRUPTED without owner and heartbeat; then the media is released |
| JobFields.RetryAllowedMeans | backend/app/services/provisioning/service.py:217-252 | the retry service accepts the four statuses FAILED, PARTIALLY_COMPLETED, CANCELLED and INTERRUPTED, and a named stage only if its row exists, is retryable and is FAILED or CANCELLED |
| JobFields.RetryMeans | backend/app/repositories/jobs.py:261-296 | the rows a retry puts back to PENDING are the FAILED and CANCELLED ones, and the RUNNING ones of an interrupted job, of all stages or the named one; without one nothing changes, otherwise the job is queued, due now, unowned and no longer cancelled |
| JobFields.RequestCancelMeans | backend/app/services/provisioning/service.py:292-322 | the fields of the job after a cancellation request in each status |
| Fleet.EventKeepsExclusive | backend/app/models/jobs.py:112-140 | every transaction of the API and of any number of workers keeps active names and addresses and all idempotency keys unique |
| Fleet.ReservationsAreExclusive | backend/app/services/provisioning/service.py:120-184 | in every history no two active jobs share a lower-cased VM name or a reserved address, and no two jobs share an idempotency key |
| Fleet.SubmissionOutcome | backend/app/services/provisioning/service.py:80-184 | a job is created exactly when its key is new, its reservations are free and the preflight passes; a known key is answered with the one job that has it if and only if the stored user is the same and the stored fingerprint, where there is one, is the same, and refused otherwise; unless a job is created nothing changes |
| Fleet.NewSubmission | backend/app/services/provisioning/service.py:93-184 | with a new key the name is checked first, then the address, then the preflight; the new row is QUEUED, due now, without owner, steps or cancellation, and nothing else changes |
| Fleet.HeldMeans | backend/app/services/provisioning/service.py:120-150 | a name is taken by another queued, running or interrupted job whose name is the same but for the case of ASCII letters, an address by one that reserves it |
| Fleet.RetryOutcome | backend/app/services/provisioning/service.py:217-290 | the five answers to a retry, in the order in which they are decided, and that only one of them changes anything |
| Fleet.RetryKeepsExclusive | backend/app/services/provisioning/service.py:253-273 | a retry that requeues takes its reservations back only if nobody holds them; a refused one changes nothing |
| Fleet.OnlyRetryActivates | backend/app/services/provisioning/service.py:217-290 | only a retry makes an ended job active again |
| FleetOwnership.JobOfFleetRuns | backend/app/workers/engine.py:144-162 | the states of one job in any history of the fleet are a run of that job, so all theorems about runs apply under any interleaving |
| FleetOwnership.EventActsOnJob | backend/app/workers/engine.py:144-244 | each event of the fleet is, for each job, one of its own transactions or none |
| FleetOwnership.OwnershipAlways | backend/app/workers/engine.py:84-86 | in every history RUNNING means owned with a heartbeat, QUEUED and INTERRUPTED mean neither |
| FleetOwnership.CapacityWhileCareful | backend/app/workers/engine.py:84-86 | a live worker's running jobs are in its task map and never exceed its concurrency, as long as no worker claims a job it still holds a task for and no task ends while its job is RUNNING |
| FleetCapacity.CapacityKeptIff | backend/app/workers/engine.py:153-162 | the exact condition: after careful events, one more event leaves the capacity of all workers safe in every careful continuation if and only if it is careful too, that is, neither a claim of a job the worker still holds a task for nor the end of a task whose job is RUNNING |
| FleetCapacity.ReclaimExceedsConcurrency | backend/app/workers/engine.py:153-162 | a concrete history in which a reclaim is the only careless event and a worker comes to hold more running jobs than its concurrency |
| FleetCapacity.AbandonedJobExceedsConcurrency | backend/app/workers/engine.py:185-190 | a concrete history in which the end of a task whose job is RUNNING is the only careless event, with the same outcome |
| FleetCapacity.EndedTaskAbandons | backend/app/workers/engine.py:192-220 | a task that ends while its job is RUNNING leaves a job nobody runs, and the worker no longer excludes the job from its reaping |
| FleetCapacity.AbandonedUntilReaped | backend/app/workers/engine.py:355-363 | until it is reaped, an abandoned job keeps its status, owner, steps and last heartbeat, whatever happens |
| FleetCapacity.AbandonedIsReapable | backend/app/workers/engine.py:365-388 | a live worker without an entry for an abandoned job can reap it if and only if its last heartbeat lies further back than the timeout; the job is then INTERRUPTED |
| FleetOwnership.BatchClaimsInTurn | backend/app/workers/engine.py:144-151 | a batch claim bounded by the free slots is a run of single claims that each find a free slot |
| FleetOwnership.HeartbeatIsLastBeat | backend/app/repositories/jobs.py:125-144 | the stored heartbeat of a running job is the time of its latest claim or heartbeat |
| FleetOwnership.ReapedMeansSilent | backend/app/workers/engine.py:365-388 | a job is reaped only when its every claim and heartbeat lies more than three intervals back |
| Names.LeTransitive | backend/app/services/applications/resolver.py:81-90 | the order names are sorted by is transitive |
| Names.LeAntisymmetric | backend/app/services/applications/resolver.py:81-90 | the order names are sorted by tells different names apart |
| Names.LeMeans | backend/app/services/applications/resolver.py:81-90 | the order is that of dictionaries: a name before those it begins, and otherwise the first characters that differ decide |
| AppGraph.TopologicalIsWellFounded | backend/app/services/applications/resolver.py:35-60 | a duplicate-free dependency order that holds the selection shows that nothing reachable is missing or cyclic |
| AppGraph.InstallOrderIsUnique | backend/app/services/applications/resolver.py:81-90 | with distinct names the installation order depends only on the set of selected applications: it is the one greedy least-name topological order |
| AppGraph.NoTieIsUnique | backend/app/services/applications/resolver.py:81-90 | an order in which no application of the same name was available at any position is the only one |
| InstallOrders.OneOrderIff | backend/app/services/applications/resolver.py:81-90 | how many orders the specification by dependencies and names admits: exactly one if and only if at no position another application of the same name was available |
| InstallOrders.OrderKeptIff | backend/app/services/applications/resolver.py:62-90 | the exact condition for the code: every order of the selected applications gives the same result if and only if, wherever two applications of one name became available together, each selected application searched on its own lists the one first that is installed first; otherwise some permutation changes the result |
| InstallOrders.DistinctNamesSettle | backend/app/services/applications/resolver.py:81-90 | with distinct names that condition holds |
| InstallOrders.LateTieIsSettled | backend/app/services/applications/resolver.py:81-90 | a concrete tie that leaves two admissible orders, but not two results: one of the two becomes available later |
| InstallOrders.EditKeepsNamesIff | backend/app/api/v1/admin_applications.py:99-126 | a committed edit keeps names distinct if and only if it does not give an application the name of another one; only creation checks this |
| InstallOrders.RenamingChangesOrder | backend/app/api/v1/admin_applications.py:99-126 | a concrete edit history after which selecting two applications in either order installs them in that order |
| AppGraph.PathGoesDown | backend/app/services/applications/resolver.py:35-60 | along a dependency path the positions in a topological order go down, so no cycle fits in one |
| Resolver.Walk.Visit | backend/app/services/applications/resolver.py:40-60 | the coloured depth-first search lists what its functional form does, keeps its chain a path of grey nodes and its list topological; an error is raised only for a true defect |
| AppSearch.VisitsAdd | backend/app/services/applications/resolver.py:40-63 | what a search adds to earlier ones is what it lists on its own, in the same order, less what was listed before |
| AppSearch.AllListFirst | backend/app/services/applications/resolver.py:62-63 | if each selected application, searched alone, lists one application before another, so does the whole search |
| AppSearch.LeaderDecides | backend/app/services/applications/resolver.py:62-63 | the application selected first decides, if it leads to either of the two |
| AppSearch.SearchOfOne | backend/app/services/applications/resolver.py:40-60 | searching one application of a sound catalog lists its dependencies in ascending order of their ids, and then itself |
| AppSearch.SearchOfMore | backend/app/services/applications/resolver.py:62-63 | searching one application more adds at the end, in the same order, what it lists on its own and was not listed |
| AppSearch.SearchIsTopological | backend/app/services/applications/resolver.py:35-63 | the search of a sound selection lists exactly what is reachable, dependencies first |
| Resolver.Walk.RecordCycle | backend/app/services/applications/resolver.py:44-48 | meeting a grey node means there is a cycle, and the error names its applications in turn, each once |
| Resolver.Walk.RecordMissing | backend/app/services/applications/resolver.py:49-53 | a missing dependency is reported and shows that the closure is not well founded |
| Resolver.FindRequired | backend/app/services/applications/resolver.py:35-65 | the search lists exactly the reachable applications that exist, in the order of its functional form, also where it finds errors; exactly the missing ones are reported, each once, and a cycle exactly when there is one; without an error the list is in dependency order |
| Resolver.BuildGraph | backend/app/services/applications/resolver.py:73-79 | in-degrees count the dependencies, and the edge lists are exact and in the order of the search |
| Resolver.Relax | backend/app/services/applications/resolver.py:86-89 | one emission lowers exactly the in-degrees of its dependents and frees exactly those that become available, in the order of the search |
| Resolver.SortKeepsTies | backend/app/services/applications/resolver.py:81-90 | sorting by name keeps applications of one name in the order in which they became available |
| StableOrder.AllEmitted | backend/app/services/applications/resolver.py:92-94 | while anything is left something is available: the branch for an inconsistent sort is unreachable |
| Resolver.KahnSort | backend/app/services/applications/resolver.py:72-96 | the sort emits every required application once, each after its dependencies and least-named among those available; of one name, the one first that became available first, and of those that did so together the one listed first |
| StableOrder.ResultIsUnique | backend/app/services/applications/resolver.py:72-96 | there is only one such order for a list of required applications |
| StableOrder.ResultExists | backend/app/services/applications/resolver.py:72-96 | and there is one for every topological list |
| StableOrder.ResultIsInstallOrder | backend/app/services/applications/resolver.py:22-31 | it meets the specification that knows the selection only as a set |
| Resolver.ResolveInstallOrder | backend/app/services/applications/resolver.py:22-96 | no errors if and only if everything reachable exists, is enabled and is acyclic; the result is then each required application once, after its dependencies, and nothing else; of two that could be installed at one position the one first in the dictionary comes first, of equal names the one that could be installed earlier, and then the one the search lists first. Otherwise all missing and disabled applications are reported, the disabled ones last and as the search lists them, and a cycle is named if there is one |
| Resolver.ResolvableIff | backend/app/services/applications/resolver.py:22-70 | a selection can be installed if and only if it is part of some list of enabled applications with each of them once and after its dependencies |
| Resolver.OrderMeans | backend/app/services/applications/resolver.py:72-96 | the installation order in the terms of the catalog, position by position |
| AdminCatalog.AssertAcyclic | backend/app/api/v1/admin_applications.py:36-52 | the check accepts exactly the sound catalogs without a disabled application named like one of the two phrases it filters by |
| AdminCatalog.MisleadingMeans | backend/app/api/v1/admin_applications.py:49-52 | a disabled application misleads the check exactly when its name is some text, one of the two phrases, and some text |
| AdminCatalog.SoundIff | backend/app/api/v1/admin_applications.py:36-52 | a catalog is sound exactly when dependencies exist and there is no cycle |
| AdminCatalog.CommittedStaysSound | backend/app/api/v1/admin_applications.py:55-65 | a committed edit keeps the catalog sound |
| AdminCatalog.ReplacedIsSound | backend/app/api/v1/admin_applications.py:36-52 | giving an application new dependencies closes a cycle if and only if they lead to it already |
| AdminCatalog.CreateCommitsIff | backend/app/api/v1/admin_applications.py:74-96 | in a sound catalog a new application is refused only for its name, an unknown dependency or a misleading entry; it cannot close a cycle |
| AdminCatalog.UpdateCommitsIff | backend/app/api/v1/admin_applications.py:99-126 | in a sound catalog new dependencies are refused exactly when one is unknown or leads back to the application, or an entry is misleading |
| AdminCatalog.EveryCatalogIsSound | backend/app/api/v1/admin_applications.py:74-145 | every catalog reached by creating, updating and deleting applications is acyclic and dependency-closed |
| AdminCatalog.MisleadingBefore | backend/app/api/v1/admin_applications.py:49-52 | the condition for that refusal, read off the request and the catalog before the edit |
| AdminCatalog.SoundEditRefused | backend/app/api/v1/admin_applications.py:49-52 | a concrete sound edit that is refused |
| AdminCatalog.ApplicationCatalog.CreateApplication | backend/app/api/v1/admin_applications.py:74-96 | the application is stored, with its name, state and dependencies, if and only if the edit may be committed, in a sound catalog by the condition of `CreateCommitsIff`; otherwise nothing changes |
| AdminCatalog.ApplicationCatalog.UpdateApplication | backend/app/api/v1/admin_applications.py:99-126 | name, state and, if the request mentions them, dependencies are stored if and only if the edit may be committed, in a sound catalog by the condition of `UpdateCommitsIff`; otherwise nothing changes |
| AdminCatalog.ApplicationCatalog.DeleteApplication | backend/app/api/v1/admin_applications.py:129-145 | an application is removed, and nothing else, if and only if it exists and no other one depends on it |
| AdminCatalog.PreflightAgreesWithExecution | backend/app/workers/stages.py:1899-1916 | for every catalog and list of selected applications, resolving against the enabled applications succeeds exactly when resolving against all of them does, and then with the same order, also where names are tied |
| StableOrder.OrderSame | backend/app/services/applications/resolver.py:62-96 | a catalog that agrees with a sound one on all that is reachable returns the same order |
| AdminCatalog.CheckApplications | backend/app/services/provisioning/preflight.py:435-466 | the preflight passes if and only if the selection can be resolved at execution, and reports the order that the execution installs |
| IsoFormat.ReadsBoth32 | backend/app/services/windows_unattend.py:362-363 | a number recorded in both byte orders is read back, and the two agree |
| IsoFormat.ReadsBoth16 | backend/app/services/windows_unattend.py:358-359 | the same for 16 bits |
| IsoFormat.RecordRoundTrip | backend/app/services/windows_unattend.py:375-387 | a directory record is read back as its entry, wherever it lies |
| IsoFormat.DirectoryRoundTrip | backend/app/services/windows_unattend.py:477-486 | a reader of a directory finds exactly its records, in order |
| IsoFormat.CutRoundTrip | backend/app/services/windows_unattend.py:477-486 | a reader of a directory that is cut off finds exactly the leading records that are there in full |
| IsoFormat.FoundRecordsFit | backend/app/services/windows_unattend.py:477-486 | the records a reader finds never take more room than the directory has |
| IsoBuilder.DirectoryRecord | backend/app/services/windows_unattend.py:375-387 | writing the fields into a byte array gives the record that section 9.1 of ECMA-119 tabulates |
| IsoBuilder.VolumeDescriptor | backend/app/services/windows_unattend.py:396-435 | writing the fields into one zeroed sector gives a descriptor with every byte as section 8.4 of ECMA-119 places it |
| IsoBuilder.WriteIdentification | backend/app/services/windows_unattend.py:405-417 | type, standard identifier, version and the two identifiers |
| IsoBuilder.WriteSizes | backend/app/services/windows_unattend.py:418-423 | sector count, escape sequence, volume set and block size |
| IsoBuilder.WriteTables | backend/app/services/windows_unattend.py:424-427 | path table size and places, and the root directory record |
| IsoBuilder.WriteBlanks | backend/app/services/windows_unattend.py:428-429 | the seven identifier fields hold blanks |
| IsoBuilder.WriteDates | backend/app/services/windows_unattend.py:430-434 | the four dates and the file structure version |
| IsoLayout.BeforeTransitive | backend/app/services/windows_unattend.py:477-477 | pairs of identifier and name are ordered transitively |
| IsoImage.Insert | backend/app/services/windows_unattend.py:477-477 | inserting keeps a listing sorted and duplicate-free |
| IsoImage.Sorted | backend/app/services/windows_unattend.py:445-445 | the listing holds every name once, in order |
| IsoImage.PlaceFiles | backend/app/services/windows_unattend.py:449-454 | each file starts where the one before ends, taking at least one sector |
| IsoImage.WriteFront | backend/app/services/windows_unattend.py:456-471 | both descriptors, the terminator and the four path tables stand in their sectors, and nothing else |
| IsoImage.EncodeDirectory | backend/app/services/windows_unattend.py:480-485 | the records of a directory one after the other, refused exactly when one does not fit its length byte or number fields |
| IsoImage.WriteDirectories | backend/app/services/windows_unattend.py:473-486 | what the two root directories leave at every byte, also where one is longer than its sector, and the length of the result |
| IsoImage.WriteFiles | backend/app/services/windows_unattend.py:487-488 | the contents of every file stand at their sector, and a byte of no file is as before |
| IsoImage.BuildAnswerIso | backend/app/services/windows_unattend.py:438-489 | refused exactly when a number or record does not fit its field, a condition on the files alone; otherwise every byte and the length of the image are specified, also where a root directory overflows its sector; the descriptors, tables, places and record orders also in plain numbers |
| IsoNumbers.EntriesMean | backend/app/services/windows_unattend.py:473-486 | whatever a reader of any image finds in a root directory are entries of files, none of them marked as a directory: identifier, place and length of the leading names of the tree, and of all of them exactly where the directory fits its sector |
| IsoNumbers.RecordMeans | backend/app/services/windows_unattend.py:375-387 | the bytes of a directory record: lengths, place and size in both byte orders, date, directory flag, volume number, identifier and padding |
| IsoNumbers.FrontMeans | backend/app/services/windows_unattend.py:456-471 | the bytes of sectors 0 to 22, value by value: descriptors, escape sequence, label, dates, terminator and path tables |
| IsoNumbers.PlacesMean | backend/app/services/windows_unattend.py:445-454 | files lie one behind the other from sector 25 on in the dictionary order of their names, each in as many sectors as it takes and at least one |
| IsoNumbers.RecordsMean | backend/app/services/windows_unattend.py:473-486 | the records of a tree are in the order of their identifier bytes, and those of one identifier in the order of the names |
| IsoNumbers.IdMeans | backend/app/services/windows_unattend.py:473-476 | identifiers character by character: capital letters, `_` for `-` and `;1`, or the exact name in two bytes a character |
| IsoNumbers.ImageMeans | backend/app/services/windows_unattend.py:438-489 | all of this holds of every image, and the bytes of each file stand in its place |
| IsoPlan.EncodableIff | backend/app/services/windows_unattend.py:445-486 | lengths of names, lengths of files and the sum of their sectors decide whether every number and record can be packed |
| IsoPlan.TotalOfPlan | backend/app/services/windows_unattend.py:446-454 | the sector count is the fixed part plus the spans of the files, in whatever order they are placed |
| IsoPlan.RootLength | backend/app/services/windows_unattend.py:473-486 | the length of a root directory is the sum of its record lengths, a function of the names alone |
| IsoRecovery.VolumeReads | backend/app/services/windows_unattend.py:462-471 | both descriptors read as written, and both path tables agree with them |
| IsoRecovery.ListsAllIffFits | backend/app/services/windows_unattend.py:473-486 | each tree lists exactly its files if and only if its own directory fits one sector, a sum of record lengths of the names; the other tree does not matter |
| IsoRecovery.FitsIfListed | backend/app/services/windows_unattend.py:473-486 | whatever becomes of the other, a tree that lists all files has a directory that fits its sector |
| IsoRecovery.FewFilesFit | backend/app/services/windows_unattend.py:440-444 | seven files always fit the root directories |
| IsoRecovery.ManyFilesDoNotFit | backend/app/services/windows_unattend.py:473-486 | fifty-nine files never fit a root directory, whatever their names |
| IsoRecovery.NumberedNotListed | backend/app/services/windows_unattend.py:473-486 | concrete files, fifty-nine or more empty ones, that neither tree of any image of theirs lists |
| IsoRecovery.NumberedEncodable | backend/app/services/windows_unattend.py:445-486 | an image of these files is built nevertheless |
| IsoRecovery.ContentsInPlace | backend/app/services/windows_unattend.py:487-488 | whether or not the directories fit, the contents of every file are read back from their extent |
| IsoRecovery.DirectoryBlock | backend/app/services/windows_unattend.py:473-486 | a directory that fits has its sector to itself, whether or not the other one fits |
| IsoRecovery.PrimaryEnds | backend/app/services/windows_unattend.py:473-486 | the primary directory is at most two bytes longer than the Joliet one, which therefore covers whatever part of it goes beyond its sector |
| IsoRecovery.FileBlock | backend/app/services/windows_unattend.py:487-488 | where the Joliet directory fits, each file has its sectors to itself, filled up with zeros |
| IsoRecovery.JolietRecoversIff | backend/app/services/windows_unattend.py:438-486 | the Joliet tree gives every file back under its exact name if and only if the Joliet directory fits its sector |
| IsoRecovery.JolietRecoversEveryFile | backend/app/services/windows_unattend.py:438-444 | where the Joliet directory fits, each file is read back under its exact name through the Joliet tree |
| IsoRecovery.RootShows | backend/app/services/windows_unattend.py:473-486 | what a reader of any image is shown by a tree: the files in order, up to the first whose record no longer fits the sector |
| IsoRecovery.RecoversIff | backend/app/services/windows_unattend.py:473-486 | whether or not its directory fits, a tree recovers every file if and only if no two files of different contents share an identifier and every identifier is among those of the records that fit |
| IsoRecovery.PrimaryRecoversIff | backend/app/services/windows_unattend.py:473-486 | where the primary directory fits, the primary tree recovers every file if and only if no two files of different contents share an upper-case identifier |
| IsoRecovery.NamesClash | backend/app/services/windows_unattend.py:473-486 | two concrete names with one upper-case identifier and different contents |
| IsoRecovery.ClashingIsBuilt | backend/app/services/windows_unattend.py:438-489 | an image of them is built, and its directories fit |
| IsoRecovery.ClashLosesAFile | backend/app/services/windows_unattend.py:473-486 | in every image of them the primary tree fails to recover one |
| IsoDeterminism.ListingIsUnique | backend/app/services/windows_unattend.py:477-477 | there is only one listing of the files in a given order |
| IsoDeterminism.DescriptorIsUnique | backend/app/services/windows_unattend.py:405-435 | the descriptor's fields cover every byte |
| IsoDeterminism.SameFilesSameImage | backend/app/services/windows_unattend.py:349-356 | the same files give the same image byte for byte, however they are enumerated |
| AnswerMedia.LabelIff | backend/app/services/windows_media.py:33-39 | there is a label exactly when a primary descriptor that reaches beyond the identifier follows the system area and bytes 40 to 72 of it are not blank; it is those bytes without the white space at their ends |
| AnswerMedia.ClassifyMeans | backend/app/services/windows_media.py:21-48 | which labels are those of server and of client media, spelled out from the two patterns |
| AnswerMedia.LabelRoundTrip | backend/app/services/windows_media.py:33-39 | any label written into a primary descriptor, padded with blanks, is read back |
| AnswerMedia.AnswerImageLabel | backend/app/services/windows_media.py:33-48 | the label of every answer image is INFRAOPS_ANSWER, and it is not classified as Windows media |
| AnswerMedia.BuildAnswerMedia | backend/app/services/windows_unattend.py:492-497 | Autounattend.xml and InfraOps-FirstLogon.ps1 are read back through both trees, as files; the image is refused exactly when one of them has 4 GiB or more; its label and length are exact |
| RefreshTokens.TokenTable.RotateRefreshToken | backend/app/auth/service.py:96-119 | in the fields of the row: accepted if and only if it exists, belongs to the subject, is not revoked, is unused or was first used at most ten seconds ago, and the account is active; then there is one new unused token of its family and user, its first use is recorded and nothing else changes. A late second use and an inactive account end the family; otherwise nothing changes |
| RefreshTokens.TokenTable.RevokeFamily | backend/app/auth/service.py:121-126 | afterwards every token of the family is revoked, and nothing changes but the unrevoked tokens of the family |
| RefreshTokens.TokenTable.RevokeRefreshToken | backend/app/auth/service.py:128-138 | logout revokes the family of a known token and is silent otherwise |
| RefreshTokens.TokenTable.PurgeExpiredRefreshTokens | backend/app/auth/service.py:140-142 | what is gone had expired for more than a day, what is left had not and is unchanged |
| RefreshTokens.AcceptedMeans | backend/app/auth/service.py:96-119 | when a request of a run is accepted, and the table after it, in the fields of the rows |
| RefreshTokens.RevokesMeans | backend/app/auth/service.py:104-138 | which requests of a run end a family, in the fields of the rows |
| RefreshTokens.StepKeepsInv | backend/app/auth/service.py:76-142 | every request keeps identifiers accounted for and families uniform |
| RefreshTokens.FamiliesShareTheirFate | backend/app/auth/service.py:10-12 | in every reachable state the tokens of a family belong to one user and are all revoked or none of them |
| RefreshTokens.RevokedFamilyIsOver | backend/app/auth/service.py:104-119 | after a revocation no token of the family is ever accepted and none is added |
| RefreshTokens.RotationsLieWithinGrace | backend/app/auth/service.py:34-36 | all successful rotations of one token share one first use and lie within ten seconds of it |
| RefreshTokens.LateReuseRevokes | backend/app/auth/service.py:106-109 | a token presented again after the ten seconds is refused and, while its row is left, its family is dead |
| RateLimiter.SlidingWindow.Allow | backend/app/core/rate_limit.py:31-42 | whatever the clock reads, the call joins the history of its key; with readings in order it is refused exactly when at least `limit` admitted calls of its key lie between the latest beginning of a window so far and now; other keys are untouched |
| RateLimiter.NeverMoreThanLimit | backend/app/core/rate_limit.py:31-42 | with one limit and window, and readings that go back by at most some skew, no closed interval shorter than the window by the skew holds more than `limit` admitted calls |
| RateLimiter.SafeIff | backend/app/core/rate_limit.py:31-42 | the exact length, for every limit, window and skew: no interval of that length ever holds more than `limit` admitted calls if and only if it is no longer than the window less the skew; for a limit of one the window alone decides, and for a limit of zero nothing is ever admitted |
| RateLimiter.BoundIsTight | backend/app/core/rate_limit.py:33-37 | for every limit of at least one a history in which a longer interval holds more |
| RateLimiter.OneIsKept | backend/app/core/rate_limit.py:35-42 | with a limit of one, admitted calls lie more than a window apart whatever the clock reads |
| RateLimiter.RefusalIsJustified | backend/app/core/rate_limit.py:31-42 | whatever limits and windows are mixed, a refused call has `limit` admitted calls in its own window, widened by the skew at both ends |
| RateLimiter.RefusedAtLimit | backend/app/core/rate_limit.py:31-42 | with one limit and window and readings in order, a call is refused exactly when its window holds `limit` admitted calls |
| RateLimiter.AfterCall | backend/app/core/rate_limit.py:36-42 | with readings in order, trimming what was kept counts the whole history's hits from the latest beginning of a window on |
| RateLimiter.SlidingWindow.Reset | backend/app/core/rate_limit.py:44-46 | the key starts again from nothing, others are untouched |
| RateLimiter.CountIsOfCalls | backend/app/core/rate_limit.py:36-42 | what is counted are the admitted calls of the history whose clock readings lie in the interval |
| RateLimiter.KeptIsEnd | backend/app/core/rate_limit.py:36-42 | what is kept of a key are the latest of its admitted calls, whatever the clock reads |
| RateLimiter.LatestMeans | backend/app/core/rate_limit.py:33-37 | the latest beginning of a window is that of this call or of an earlier one, and none is later |
| Histogram.StoredIsMonotone | backend/app/core/metrics.py:84-89 | the buckets never decrease with the bound |
| Histogram.StoredAtMostTrue | backend/app/core/metrics.py:72-91 | no bucket exceeds the number of observations at most its bound |
| Histogram.ExactIffInOrder | backend/app/core/metrics.py:72-91 | the buckets hold the cumulative counts if and only if the observations came in bucket order |
| Histogram.ExactWhenAscending | backend/app/core/metrics.py:72-91 | in particular when the observations never decrease |
| Histogram.SmallAfterLargeIsLost | backend/app/core/metrics.py:72-91 | observing 3 and then 0.5 leaves the default buckets short |
| Histogram.CountOnce | backend/app/core/metrics.py:77-82 | the first loop raises only the first bucket that takes the value |
| Histogram.Raise | backend/app/core/metrics.py:84-89 | the second loop makes every bucket the largest up to it |
| Histogram.Metric.Observe | backend/app/core/metrics.py:72-91 | counts, sum and total of each label set are those of its observations so far |
| Histogram.SeriesAddsOne | backend/app/core/metrics.py:72-91 | what one observation changes: buckets below it stay, and from the first one that takes it on each holds at least one more than that one did |
| Histogram.CountLeMeans | backend/app/core/metrics.py:72-91 | what a bucket should hold is the number of observations at most its bound |
| Text.SplitJoin | backend/app/services/applications/paths.py:29-30 | splitting undoes joining where no part holds the separator |
| InstallerPaths.InsideIffProperPrefix | backend/app/services/applications/paths.py:71-85 | a path starts with a root and a backslash exactly when the root's segments are a proper prefix of the path's |
| InstallerPaths.SplitFold | backend/app/services/applications/paths.py:67-68 | folding a path folds each of its segments |
| InstallerPaths.ValidIsNormal | backend/app/services/applications/paths.py:33-49 | a valid path is stripped, does not end in a backslash, and is valid again unchanged |
| InstallerPaths.WithinIffSegmentPrefix | backend/app/services/applications/paths.py:71-85 | a path is within the roots if and only if it is valid and the case-folded segments of some valid root are a proper prefix of its own |
| InstallerPaths.KindsNeverMix | backend/app/services/applications/paths.py:21-24 | a drive root never contains a network path, nor the other way round |
| InstallerPaths.ValidPathIff | backend/app/services/applications/paths.py:33-49 | a path is accepted if and only if, without the white space at its ends, it is a drive or network path in which every name is free of the refused characters, does not end in a blank or a dot and is not a dot or two between white space; character by character, in both directions |
| InstallerPaths.NoTraversal | backend/app/services/applications/paths.py:45-48 | no name in an accepted path is empty, a dot or two dots, or ends in a blank or a dot |
| InstallerPaths.RootIff | backend/app/services/applications/paths.py:63-64 | a root is the valid path in front of the backslashes at its end |
| Ipv4.ParseFormat | backend/app/services/network/validation.py:35-36 | every address is read back from its dotted form |
| Ipv4.FormatParse | backend/app/services/network/validation.py:18-23 | only the canonical dotted form is read |
| Ipv4.PrefixRoundTrip | backend/app/services/network/validation.py:18-36 | a prefix made into a mask and back is the prefix |
| Ipv4.MaskRoundTrip | backend/app/services/network/validation.py:18-36 | a text is a mask of some prefix only if it is the text made from that prefix |
| Ipv4.SameSubnet | backend/app/services/network/validation.py:64-72 | an address lies in a subnet exactly when the network addresses agree |
| Ipv4.HostNeedsRoom | backend/app/services/network/validation.py:64-68 | an address that is neither first nor last of its subnet needs a prefix of at most 30 |
| Ipv4.FormatMeans | backend/app/services/network/validation.py:18-23 | the dotted form is the four octets in decimal, the highest one first |
| Ipv4.SubnetMeans | backend/app/services/network/validation.py:63-75 | first and last address of a subnet and what lies in it, by remainders and quotients of its size |
| StaticIpv4.ValidateStaticIpv4 | backend/app/services/network/validation.py:39-94 | the list is empty exactly for sound values, and holds exactly the problems there are: each kind by its own condition on the numbers |
| StaticIpv4.Ipv4Config.ValidateAddresses | backend/app/schemas/provisioning.py:173-198 | accepts exactly the specified values and rewrites them in dotted form |
| StaticIpv4.AcceptsMeans | backend/app/schemas/provisioning.py:173-198 | what the request model accepts, by remainders and quotients |
| StaticIpv4.ValidatorsDiffer | backend/app/schemas/provisioning.py:173-198 | the list is empty if and only if the request model accepts, the gateway is not the first or last address and no name server is the lowest or highest |
| StaticIpv4.ReservedGatewayDisagrees | backend/app/schemas/provisioning.py:173-198 | concrete values the request model accepts and the list objects to |
| StaticIpv4.UnusableServerDisagrees | backend/app/schemas/provisioning.py:173-198 | concrete values with a name server 0.0.0.0 that the request model accepts and only the list objects to |
| StaticIpv4.AcceptedPrefix | backend/app/schemas/provisioning.py:177-186 | either acceptance forces the prefix to be at most 30 |
| StaticIpv4.NormalisedReadsTheSame | backend/app/schemas/provisioning.py:62-67 | normalised values read the same: validation is idempotent |
| StaticIpv4.TextsAreNumbers | backend/app/services/network/validation.py:81-92 | comparing dotted texts is comparing addresses |

## Left out

- Handlers, vCenter, VMware Tools, ESXi, PowerShell and the answer-file XML: foreign calls and text; their results are parameters.
- Progress numbers, timestamps other than `queued_at` and `heartbeat_at`, error texts, audit records, notifications and metrics of jobs: they do not feed back into the protocol.
- Legacy requests that can no longer be parsed: they are refused before a retry.
- Python's recursion limit in the dependency search: a chain of about a thousand applications would exceed it.
- SQL, sessions and migrations: a unique-index violation is an aborted step; the rows other transactions hold locked are a parameter of a claim.
- `heartbeat_at` missing on a running job (rows of an older release) and the fall-back to `updated_at`: excluded by the ownership invariant.
- Races inside one transaction, and a stale worker that still writes after it was reaped.
- Names of image files outside ASCII: most are refused by the encoding of the primary tree, a few become ASCII in upper case.
- IsoImage.Sorted: Python's `sorted` is modelled by insertion; only the result is claimed.
- Resolver.SortedIds: likewise; ids are numbers in the order of their texts.
- StaticIpv4.Ipv4Config.ValidateAddresses: texts are read first and the sets of servers hold numbers; `TextsAreNumbers` justifies it. The fields of a rejected object are not specified, since it is discarded.
- Histogram.Metric: the inner dictionary keyed by bound is a sequence in bound order; the exactness results assume increasing bounds, as the only histogram in use has.
- RateLimiter.SlidingWindow: times are exact numbers, and the Redis counter in front of it is not modelled.
- RefreshTokens: decoding, signatures and expiry of presented tokens; a presented token is its identifier and subject.
- InstallerPaths: the two patterns are predicates on segments, and case folding is any map per character that neither makes nor removes backslashes; installer extensions are not modelled.
- AnswerMedia.Classify: upper-casing is ASCII only.
- `describe_subnet`, storage placement, RBAC, searches, settings, the frontend: they would only add easy members.
