/** One provisioning job as the database stores it, and every committed transaction that
    changes it.  `Enabled` says when a transaction may run and `Apply` what it leaves behind;
    the imperative code in JobStore.dfy is proved to perform exactly these transitions.

    A stage key is represented by its position in ORDERED_STAGES (0 .. 25). */
module JobModel {
  import opened Options

  type WorkerId = nat
  type Time = int

  const STAGES: nat := 26
  const CREATE_VM: nat := 3
  const PREPARE: nat := 6
  const POWER_ON: nat := 7
  const CLEANUP: nat := 10
  const LAST: nat := 25

  datatype JobStatus = Queued | Running | Completed | PartiallyCompleted | Failed | Cancelled | Interrupted

  datatype StepStatus = Pending | Running | Succeeded | Failed | Skipped | Warning | NotApplicable | Cancelled

  datatype Step = Step(status: StepStatus, attempt: nat, retryable: bool)

  type Steps = map<nat, Step>

  /** What the user submitted; never changed afterwards. */
  datatype Submission = Submission(
    vmName: string,
    reservedIpv4: Option<nat>,
    user: Option<nat>,
    idempotencyKey: Option<nat>,
    fingerprint: Option<nat>)

  /** `datastorePath` and `mediaRemoved` are the two artifacts of the preparation step that other
      code reads.  `attached` and `preparations` are facts about the outside world: whether the
      VM holds the answer ISO, and how often preparation has succeeded.  `inPipeline` is the
      owner's program point: it has built its context and started the pipeline. */
  datatype Job = Job(
    submission: Submission,
    status: JobStatus,
    cancelRequested: bool,
    workerId: Option<WorkerId>,
    heartbeatAt: Option<Time>,
    queuedAt: Time,
    inPipeline: bool,
    steps: Steps,
    datastorePath: bool,
    mediaRemoved: bool,
    attached: bool,
    preparations: nat)

  function NewJob(s: Submission, now: Time): Job {
    Job(s, JobStatus.Queued, false, None, None, now, false, map[], false, false, false, 0)
  }

  predicate Active(s: JobStatus) { s.Queued? || s.Running? || s.Interrupted? }

  predicate Terminal(s: JobStatus) { s.Completed? || s.PartiallyCompleted? || s.Failed? || s.Cancelled? }

  // ---------------------------------------------------------------- steps

  predicate Done(s: StepStatus) { s.Succeeded? || s.Skipped? || s.Warning? || s.NotApplicable? }

  predicate DoneAt(steps: Steps, k: nat) { k in steps && Done(steps[k].status) }

  predicate Open(s: StepStatus) { s.Pending? || s.Running? }

  predicate AllPresent(steps: Steps) { forall k: nat :: k < STAGES ==> k in steps }

  predicate OnlyStages(steps: Steps) { forall k :: k in steps ==> k < STAGES }

  predicate NoneRunning(steps: Steps) { forall k :: k in steps ==> !steps[k].status.Running? }

  /** Stage `i` is the next one `execute` will not skip. */
  predicate IsNext(steps: Steps, i: nat) {
    i < STAGES && i in steps && !Done(steps[i].status)
    && forall k: nat :: k < i && k in steps ==> Done(steps[k].status)
  }

  predicate AllDone(steps: Steps) { forall k :: k in steps ==> Done(steps[k].status) }

  function SetStatus(steps: Steps, i: nat, s: StepStatus): Steps
    requires i in steps
  {
    steps[i := steps[i].(status := s)]
  }

  /** A fresh row; every stage definition is retryable. */
  function NewStep(stage: nat): Step { Step(StepStatus.Pending, 0, true) }

  function EnsureSteps(steps: Steps): Steps {
    (map k: nat | k < STAGES :: NewStep(k)) + steps
  }

  function CancelOpen(steps: Steps): Steps {
    map k | k in steps :: if Open(steps[k].status) then steps[k].(status := StepStatus.Cancelled) else steps[k]
  }

  function FailRunning(steps: Steps): Steps {
    map k | k in steps ::
      if steps[k].status.Running? then steps[k].(status := StepStatus.Failed, retryable := true) else steps[k]
  }

  // ---------------------------------------------------------------- retry

  predicate Resettable(j: Job, k: nat)
    requires k in j.steps
  {
    var s := j.steps[k].status;
    s.Failed? || s.Cancelled? || (s.Running? && j.status.Interrupted?)
  }

  predicate Selected(key: Option<nat>, k: nat) { key.None? || key.value == k }

  function ResetSet(j: Job, key: Option<nat>): set<nat> {
    set k | k in j.steps && Resettable(j, k) && Selected(key, k)
  }

  function ResetSteps(j: Job, key: Option<nat>): Steps {
    map k | k in j.steps ::
      if Resettable(j, k) && Selected(key, k) then j.steps[k].(status := StepStatus.Pending) else j.steps[k]
  }

  /** The guards of the retry service, for the whole job or for one named stage. */
  predicate RetryAllowed(j: Job, key: Option<nat>) {
    (j.status.Failed? || j.status.PartiallyCompleted? || j.status.Cancelled? || j.status.Interrupted?)
    && (key.Some? ==>
          key.value < STAGES && key.value in j.steps && j.steps[key.value].retryable
          && (j.steps[key.value].status.Failed? || j.steps[key.value].status.Cancelled?))
  }

  // ---------------------------------------------------------------- answer media

  predicate MayHoldMedia(j: Job) {
    j.datastorePath && !j.mediaRemoved
    && (CLEANUP !in j.steps || !j.steps[CLEANUP].status.Succeeded?)
  }

  predicate Booted(steps: Steps) {
    POWER_ON in steps && (steps[POWER_ON].status.Succeeded? || steps[POWER_ON].status.Skipped?)
  }

  predicate VmCreated(steps: Steps) {
    CREATE_VM in steps && (steps[CREATE_VM].status.Succeeded? || steps[CREATE_VM].status.Skipped?)
  }

  /** Detach and delete the answer media on a stop path; `removed` is vCenter's answer. */
  function Release(j: Job, removed: bool): (r: Job)
    ensures r.steps.Keys == j.steps.Keys && r.submission == j.submission
  {
    if PREPARE !in j.steps || !MayHoldMedia(j) || !removed then j
    else
      j.(attached := false, mediaRemoved := true,
         steps := if j.steps[PREPARE].status.Succeeded? && !Booted(j.steps)
                  then SetStatus(j.steps, PREPARE, StepStatus.Pending) else j.steps)
  }

  function CleanupEffect(j: Job): Job {
    if j.datastorePath then j.(attached := false, mediaRemoved := true) else j
  }

  // ---------------------------------------------------------------- transitions

  /** What the handler of a stage can report when it returns. */
  predicate Possible(stage: nat, outcome: StepStatus) {
    Done(outcome)
    && (stage == CREATE_VM ==> outcome.Succeeded? || outcome.Skipped?)
    && (stage == PREPARE ==> outcome.Succeeded?)
    && (stage == POWER_ON ==> outcome.Succeeded?)
    && (stage == CLEANUP ==> outcome.Succeeded? || outcome.Warning?)
  }

  function ApplyCancellation(j: Job, removed: bool): (r: Job)
    ensures r.steps.Keys == j.steps.Keys && r.submission == j.submission
  {
    var j1 := Release(j, removed);
    j1.(steps := CancelOpen(j1.steps), status := JobStatus.Cancelled)
  }

  function BeginStage(j: Job, i: nat): Job
    requires i in j.steps
  {
    j.(steps := j.steps[i := j.steps[i].(status := StepStatus.Running, attempt := j.steps[i].attempt + 1)])
  }

  /** The outcome and the artifacts it merges; a merge never clears an older `media_removed`. */
  function FinishStage(j: Job, i: nat, outcome: StepStatus): (r: Job)
    requires i in j.steps
    ensures r.steps.Keys == j.steps.Keys && r.submission == j.submission
  {
    var j1 := if i == PREPARE then j.(datastorePath := true, attached := true, preparations := j.preparations + 1)
              else if i == CLEANUP then CleanupEffect(j) else j;
    j1.(steps := SetStatus(j1.steps, i, outcome))
  }

  /** `cleaned`: the clean-up handler had already removed the media before it was stopped. */
  function Cleaned(j: Job, i: nat, cleaned: bool): (r: Job)
    ensures r.steps == j.steps && r.submission == j.submission
  {
    if i == CLEANUP && cleaned then CleanupEffect(j) else j
  }

  function MarkFailed(j: Job, i: nat, retryable: bool): (r: Job)
    requires i in j.steps
    ensures r.steps.Keys == j.steps.Keys && r.submission == j.submission
  {
    var steps := j.steps[i := j.steps[i].(status := StepStatus.Failed, retryable := retryable)];
    j.(steps := steps, status := if VmCreated(steps) then JobStatus.PartiallyCompleted else JobStatus.Failed)
  }

  function FailStage(j: Job, i: nat, retryable: bool, cleaned: bool, removed: bool): (r: Job)
    requires i in j.steps
    ensures r.steps.Keys == j.steps.Keys && r.submission == j.submission
  {
    Release(MarkFailed(Cleaned(j, i, cleaned), i, retryable), removed)
  }

  function MarkStopped(j: Job, i: nat, cleaned: bool): (r: Job)
    requires i in j.steps
    ensures r.steps.Keys == j.steps.Keys && r.submission == j.submission
  {
    var j1 := Cleaned(j, i, cleaned);
    j1.(steps := SetStatus(j1.steps, i, StepStatus.Cancelled))
  }

  /** The running stage is stopped by the user; then the loop of `execute` goes on: it cancels
      once more at the next stage or, after the last stage, falls through to success. */
  function CancelStage(j: Job, i: nat, cleaned: bool, removed1: bool, removed2: bool): (r: Job)
    requires i in j.steps
    ensures r.steps.Keys == j.steps.Keys && r.submission == j.submission
  {
    var j2 := ApplyCancellation(MarkStopped(j, i, cleaned), removed1);
    if i == LAST then j2.(status := JobStatus.Completed) else ApplyCancellation(j2, removed2)
  }

  function FailBeforePipeline(j: Job): Job {
    j.(status := JobStatus.Failed, workerId := None, steps := CancelOpen(j.steps))
  }

  /** A worker that stops in the clean-up stage may have removed the media already; the artifact that
      would say so is lost with its session. */
  function Detached(j: Job, cleaned: bool): (r: Job)
    ensures r.steps == j.steps && r.status == j.status && r.submission == j.submission
  {
    if cleaned && j.datastorePath && CLEANUP in j.steps && j.steps[CLEANUP].status.Running? then j.(attached := false)
    else j
  }

  function Interrupt(j: Job, removed: bool): Job {
    Release(j.(steps := FailRunning(j.steps), status := JobStatus.Interrupted, workerId := None,
               heartbeatAt := None), removed)
  }

  function Retry(j: Job, key: Option<nat>, now: Time): Job {
    if ResetSet(j, key) == {} then j
    else j.(steps := ResetSteps(j, key), status := JobStatus.Queued, cancelRequested := false,
            workerId := None, heartbeatAt := None, queuedAt := now)
  }

  /** The cancel endpoint: an interrupted job that may hold media is handed to a worker,
      a job nobody executes is finalised, a running one is only flagged. */
  function RequestCancel(j: Job, now: Time): Job {
    if j.status.Interrupted? && MayHoldMedia(j) then
      j.(cancelRequested := true, status := JobStatus.Queued, queuedAt := now)
    else if j.status.Queued? || j.status.Interrupted? then
      j.(cancelRequested := true, status := JobStatus.Cancelled, steps := CancelOpen(j.steps))
    else j.(cancelRequested := true)
  }

  datatype Action =
    | Claim(worker: WorkerId, now: Time)
    | Beat(now: Time)
    | Start
    | FailBefore
    | Begin(stage: nat)
    | Finish(stage: nat, outcome: StepStatus)
    | Fail(stage: nat, retryable: bool, cleaned: bool, removed: bool)
    | Stop(stage: nat, cleaned: bool, removed: bool, removedAgain: bool)
    | StopBetween(removed: bool)
    | Finalize
    | Crash(cleaned: bool)
    | Park(removed: bool, cleaned: bool)
    | Requeue(key: Option<nat>, now: Time)
    | Cancel(now: Time)
    | Elsewhere                 // a transaction of some other job

  predicate Enabled(j: Job, a: Action) {
    var executing := j.status.Running? && j.inPipeline;
    match a
    case Claim(_, now) => j.status.Queued? && j.queuedAt <= now
    case Beat(_) => j.status.Running?
    case Start => j.status.Running? && !j.inPipeline
    case FailBefore => j.status.Running? && !j.inPipeline
    case Begin(i) => executing && NoneRunning(j.steps) && IsNext(j.steps, i) && !j.cancelRequested
    case Finish(i, o) => executing && i in j.steps && j.steps[i].status.Running? && Possible(i, o)
    case Fail(i, _, _, _) => executing && i in j.steps && j.steps[i].status.Running?
    case Stop(i, _, _, _) => executing && i in j.steps && j.steps[i].status.Running? && j.cancelRequested
    case StopBetween(_) => executing && NoneRunning(j.steps) && !AllDone(j.steps) && j.cancelRequested
    case Finalize => executing && AllDone(j.steps)
    case Crash(_) => executing
    case Park(_, _) => j.status.Running?
    case Requeue(key, _) => RetryAllowed(j, key)
    case Cancel(_) => !Terminal(j.status)
    case Elsewhere => true
  }

  function Apply(j: Job, a: Action): Job
    requires Enabled(j, a)
  {
    match a
    case Claim(w, now) =>
      j.(status := JobStatus.Running, workerId := Some(w), heartbeatAt := Some(now), inPipeline := false)
    case Beat(now) => j.(heartbeatAt := Some(now))
    case Start => j.(steps := EnsureSteps(j.steps), inPipeline := true)
    case FailBefore => FailBeforePipeline(j.(steps := EnsureSteps(j.steps)))
    case Begin(i) => BeginStage(j, i)
    case Finish(i, o) => FinishStage(j, i, o)
    case Fail(i, retryable, cleaned, removed) => FailStage(j, i, retryable, cleaned, removed)
    case Stop(i, cleaned, removed, again) => CancelStage(j, i, cleaned, removed, again)
    case StopBetween(removed) => ApplyCancellation(j, removed)
    case Finalize => j.(status := JobStatus.Completed)
    case Crash(cleaned) => FailBeforePipeline(Detached(j, cleaned))
    case Park(removed, cleaned) => Interrupt(Detached(j, cleaned), removed)
    case Requeue(key, now) => Retry(j, key, now)
    case Cancel(now) => RequestCancel(j, now)
    case Elsewhere => j
  }
}
