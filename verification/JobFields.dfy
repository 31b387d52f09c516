/** What each transaction on a job leaves in the fields of its rows, with the stages by their numbers:
    3 creates the VM, 6 prepares and attaches the answer media, 7 powers the VM on, 10 cleans up. */
module JobFields {
  import opened Options
  import opened JobModel
  import opened JobExecute

  lemma StatusesMean(s: StepStatus, j: JobStatus)
    ensures Done(s) <==> s in {StepStatus.Succeeded, StepStatus.Skipped, StepStatus.Warning, StepStatus.NotApplicable}
    ensures Open(s) <==> s in {StepStatus.Pending, StepStatus.Running}
    ensures Active(j) <==> j in {JobStatus.Queued, JobStatus.Running, JobStatus.Interrupted}
    ensures Terminal(j) <==>
            j in {JobStatus.Completed, JobStatus.PartiallyCompleted, JobStatus.Failed, JobStatus.Cancelled}
  {
  }

  /** Nothing but the step rows differs. */
  ghost predicate OnlySteps(j: Job, r: Job) { r == j.(steps := r.steps) && r.steps.Keys == j.steps.Keys }

  /** Only the row of stage `i` differs. */
  ghost predicate OnlyRow(was: Steps, steps: Steps, i: nat) {
    steps.Keys == was.Keys && forall k :: k in was && k != i ==> steps[k] == was[k]
  }

  // ---------------------------------------------------------------- claims and heartbeats

  lemma ClaimMeans(j: Job, w: WorkerId, now: Time)
    ensures Enabled(j, Claim(w, now)) <==> j.status == JobStatus.Queued && j.queuedAt <= now
    ensures Enabled(j, Claim(w, now)) ==>
              var r := Apply(j, Claim(w, now));
              && r.status == JobStatus.Running && r.workerId == Some(w) && r.heartbeatAt == Some(now) && !r.inPipeline
              && r == j.(status := r.status, workerId := r.workerId, heartbeatAt := r.heartbeatAt,
                         inPipeline := r.inPipeline)
  {
  }

  lemma WorkerStepsMean(j: Job, now: Time)
    ensures Enabled(j, Beat(now)) <==> j.status == JobStatus.Running
    ensures Enabled(j, Start) <==> j.status == JobStatus.Running && !j.inPipeline
    ensures Enabled(j, Finalize) <==>
            && j.status == JobStatus.Running && j.inPipeline
            && forall k :: k in j.steps ==>
                 j.steps[k].status in {StepStatus.Succeeded, StepStatus.Skipped, StepStatus.Warning,
                                       StepStatus.NotApplicable}
    ensures Enabled(j, Beat(now)) ==> Apply(j, Beat(now)) == j.(heartbeatAt := Some(now))
    ensures Enabled(j, Start) ==> Apply(j, Start) == j.(steps := EnsureSteps(j.steps), inPipeline := true)
    ensures Enabled(j, Finalize) ==> Apply(j, Finalize) == j.(status := JobStatus.Completed)
  {
  }

  lemma NewJobMeans(s: Submission, now: Time)
    ensures var j := NewJob(s, now);
            && j.submission == s && j.status == JobStatus.Queued && j.queuedAt == now && !j.cancelRequested
            && j.workerId == None && j.heartbeatAt == None && !j.inPipeline && j.steps == map[]
            && !j.datastorePath && !j.mediaRemoved && !j.attached && j.preparations == 0
  {
  }

  lemma EnsureStepsMeans(steps: Steps)
    ensures var r := EnsureSteps(steps);
            && (forall k: nat :: k in r <==> k in steps || k < 26)
            && forall k :: k in r ==> r[k] == if k in steps then steps[k] else Step(StepStatus.Pending, 0, true)
  {
  }

  // ---------------------------------------------------------------- one stage

  lemma BeginMeans(j: Job, i: nat)
    requires i in j.steps
    ensures var r := BeginStage(j, i);
            && OnlySteps(j, r) && OnlyRow(j.steps, r.steps, i)
            && r.steps[i] == Step(StepStatus.Running, j.steps[i].attempt + 1, j.steps[i].retryable)
  {
  }

  /** The outcome in the row of the stage; what the preparation and the clean-up do to the media. */
  lemma FinishMeans(j: Job, i: nat, o: StepStatus)
    requires i in j.steps
    ensures var r := FinishStage(j, i, o);
            && OnlyRow(j.steps, r.steps, i) && r.steps[i] == Step(o, j.steps[i].attempt, j.steps[i].retryable)
            && r == j.(steps := r.steps, datastorePath := r.datastorePath, mediaRemoved := r.mediaRemoved,
                       attached := r.attached, preparations := r.preparations)
            && (i == 6 ==> r.datastorePath && r.attached && r.preparations == j.preparations + 1
                           && r.mediaRemoved == j.mediaRemoved)
            && (i == 10 && j.datastorePath ==> !r.attached && r.mediaRemoved)
            && (i == 10 ==> r.datastorePath == j.datastorePath && r.preparations == j.preparations)
            && ((i == 10 && !j.datastorePath) || (i != 6 && i != 10) ==> OnlySteps(j, r))
  {
  }

  // ---------------------------------------------------------------- answer media

  lemma MayHoldMediaMeans(j: Job)
    ensures MayHoldMedia(j) <==>
            j.datastorePath && !j.mediaRemoved && (10 in j.steps ==> j.steps[10].status != StepStatus.Succeeded)
  {
  }

  /** The preparation is undone by a removal of the media unless the VM was powered on. */
  ghost predicate PreparationUndone(j: Job, removed: bool) {
    && removed && MayHoldMedia(j) && 6 in j.steps && j.steps[6].status == StepStatus.Succeeded
    && (7 in j.steps ==> j.steps[7].status !in {StepStatus.Succeeded, StepStatus.Skipped})
  }

  lemma ReleaseMeans(j: Job, removed: bool)
    ensures var r := Release(j, removed);
            && (6 !in j.steps || !MayHoldMedia(j) || !removed ==> r == j)
            && (6 in j.steps && MayHoldMedia(j) && removed ==>
                  && !r.attached && r.mediaRemoved && OnlyRow(j.steps, r.steps, 6)
                  && r == j.(attached := r.attached, mediaRemoved := r.mediaRemoved, steps := r.steps)
                  && r.steps[6] == if PreparationUndone(j, removed) then j.steps[6].(status := StepStatus.Pending)
                                   else j.steps[6])
  {
  }

  // ---------------------------------------------------------------- stops

  /** What is open, and a preparation that is undone, becomes CANCELLED. */
  lemma CancellationMeans(j: Job, removed: bool)
    ensures var r, m := ApplyCancellation(j, removed), Release(j, removed);
            && r.status == JobStatus.Cancelled && r == m.(status := r.status, steps := r.steps)
            && r.steps.Keys == j.steps.Keys
            && forall k :: k in j.steps ==>
                 r.steps[k] == if j.steps[k].status in {StepStatus.Pending, StepStatus.Running}
                                  || (k == 6 && PreparationUndone(j, removed))
                               then j.steps[k].(status := StepStatus.Cancelled) else j.steps[k]
  {
    ReleaseMeans(j, removed);
  }

  lemma StoppedMeans(j: Job, i: nat)
    requires i in j.steps
    ensures var r := MarkStopped(j, i, false);
            && OnlySteps(j, r) && OnlyRow(j.steps, r.steps, i)
            && r.steps[i] == j.steps[i].(status := StepStatus.Cancelled)
  {
  }

  /** `cleaned` matters only in the clean-up stage, and only to the media. */
  lemma CleanedMeans(j: Job, i: nat, cleaned: bool)
    ensures Cleaned(j, i, cleaned) ==
            if i == 10 && cleaned && j.datastorePath then j.(attached := false, mediaRemoved := true) else j
    ensures i in j.steps ==> MarkStopped(j, i, cleaned) == MarkStopped(Cleaned(j, i, cleaned), i, false)
  {
  }

  /** A failed stage: its row, and what becomes of the job. */
  lemma FailedMeans(j: Job, i: nat, retryable: bool)
    requires i in j.steps
    ensures var r := MarkFailed(j, i, retryable);
            && OnlyRow(j.steps, r.steps, i) && r == j.(steps := r.steps, status := r.status)
            && r.steps[i] == Step(StepStatus.Failed, j.steps[i].attempt, retryable)
            && r.status == if 3 in j.steps && i != 3 && j.steps[3].status in {StepStatus.Succeeded, StepStatus.Skipped}
                           then JobStatus.PartiallyCompleted else JobStatus.Failed
  {
  }

  /** The whole of a failure: the row, the status of the job, and the media, which are given up. */
  lemma FailStageMeans(j: Job, i: nat, retryable: bool, cleaned: bool, removed: bool)
    requires i in j.steps
    ensures var r := FailStage(j, i, retryable, cleaned, removed);
            && r.steps.Keys == j.steps.Keys && r.steps[i] == Step(StepStatus.Failed, j.steps[i].attempt, retryable)
            && r.status == (if 3 in j.steps && i != 3 && j.steps[3].status in {StepStatus.Succeeded, StepStatus.Skipped}
                            then JobStatus.PartiallyCompleted else JobStatus.Failed)
            && (forall k :: k in j.steps && k != i && k != 6 ==> r.steps[k] == j.steps[k])
            && (6 in j.steps && i != 6 ==>
                  r.steps[6] == j.steps[6]
                  || (removed && j.steps[6].status == StepStatus.Succeeded
                      && r.steps[6] == j.steps[6].(status := StepStatus.Pending)))
            && (removed && 6 in j.steps && j.datastorePath && !j.mediaRemoved
                && (10 in j.steps ==> i == 10 || j.steps[10].status != StepStatus.Succeeded) ==>
                  !r.attached && r.mediaRemoved)
            && r == j.(steps := r.steps, status := r.status, attached := r.attached, mediaRemoved := r.mediaRemoved)
  {
    var c := Cleaned(j, i, cleaned);
    FailedMeans(c, i, retryable);
    ReleaseMeans(MarkFailed(c, i, retryable), removed);
  }

  lemma DetachedMeans(j: Job, cleaned: bool)
    ensures Detached(j, cleaned) ==
            if cleaned && j.datastorePath && 10 in j.steps && j.steps[10].status == StepStatus.Running
            then j.(attached := false) else j
  {
  }

  lemma FailBeforeMeans(j: Job)
    ensures var r := FailBeforePipeline(j);
            && r.status == JobStatus.Failed && r.workerId == None && r.steps.Keys == j.steps.Keys
            && r == j.(status := r.status, workerId := r.workerId, steps := r.steps)
            && forall k :: k in j.steps ==>
                 r.steps[k] == if j.steps[k].status in {StepStatus.Pending, StepStatus.Running}
                               then j.steps[k].(status := StepStatus.Cancelled) else j.steps[k]
  {
  }

  /** What is running becomes FAILED and retryable, and nobody owns the job. */
  lemma InterruptMeans(j: Job, removed: bool) returns (m: Job)
    ensures Interrupt(j, removed) == Release(m, removed)
    ensures m.status == JobStatus.Interrupted && m.workerId == None && m.heartbeatAt == None
    ensures m == j.(status := m.status, workerId := m.workerId, heartbeatAt := m.heartbeatAt, steps := m.steps)
    ensures m.steps.Keys == j.steps.Keys
    ensures forall k :: k in j.steps ==>
              m.steps[k] == if j.steps[k].status == StepStatus.Running
                            then j.steps[k].(status := StepStatus.Failed, retryable := true) else j.steps[k]
  {
    m := j.(steps := FailRunning(j.steps), status := JobStatus.Interrupted, workerId := None, heartbeatAt := None);
  }

  // ---------------------------------------------------------------- retry and cancel

  /** Which jobs and stages the retry service accepts. */
  lemma RetryAllowedMeans(j: Job, key: Option<nat>)
    ensures RetryAllowed(j, key) <==>
            && j.status in {JobStatus.Failed, JobStatus.PartiallyCompleted, JobStatus.Cancelled, JobStatus.Interrupted}
            && match key
               case None => true
               case Some(k) => k < 26 && k in j.steps && j.steps[k].retryable
                               && j.steps[k].status in {StepStatus.Failed, StepStatus.Cancelled}
  {
  }

  /** The steps that a retry puts back to PENDING. */
  ghost predicate ToReset(j: Job, key: Option<nat>, k: nat) {
    && k in j.steps && (key == None || key == Some(k))
    && (j.steps[k].status in {StepStatus.Failed, StepStatus.Cancelled}
        || (j.steps[k].status == StepStatus.Running && j.status == JobStatus.Interrupted))
  }

  lemma RetryMeans(j: Job, key: Option<nat>, now: Time)
    ensures forall k :: k in ResetSet(j, key) <==> ToReset(j, key, k)
    ensures var r := Retry(j, key, now);
            if forall k :: !ToReset(j, key, k) then r == j
            else
              && r.status == JobStatus.Queued && !r.cancelRequested && r.workerId == None && r.heartbeatAt == None
              && r.queuedAt == now && r.steps.Keys == j.steps.Keys
              && r == j.(status := r.status, cancelRequested := r.cancelRequested, workerId := r.workerId,
                         heartbeatAt := r.heartbeatAt, queuedAt := r.queuedAt, steps := r.steps)
              && forall k :: k in j.steps ==>
                   r.steps[k] == if ToReset(j, key, k) then j.steps[k].(status := StepStatus.Pending) else j.steps[k]
  {
    forall k ensures k in ResetSet(j, key) <==> ToReset(j, key, k) {
    }
  }

  /** The cancel endpoint hands over an interrupted job that may hold media, finalises one that nobody
      executes, and only flags a running one. */
  lemma RequestCancelMeans(j: Job, now: Time)
    ensures var r := RequestCancel(j, now);
            && r.cancelRequested
            && (j.status == JobStatus.Interrupted && MayHoldMedia(j) ==>
                  r == j.(cancelRequested := true, status := JobStatus.Queued, queuedAt := now))
            && (j.status == JobStatus.Queued || (j.status == JobStatus.Interrupted && !MayHoldMedia(j)) ==>
                  && r.status == JobStatus.Cancelled && r.steps.Keys == j.steps.Keys
                  && r == j.(cancelRequested := true, status := r.status, steps := r.steps)
                  && forall k :: k in j.steps ==>
                       r.steps[k] == if j.steps[k].status in {StepStatus.Pending, StepStatus.Running}
                                     then j.steps[k].(status := StepStatus.Cancelled) else j.steps[k])
            && (j.status !in {JobStatus.Queued, JobStatus.Interrupted} ==> r == j.(cancelRequested := true))
  {
  }

  // ---------------------------------------------------------------- the loop over the stages

  /** Every stage from `i` up to `n` that is not done gets an answer from its handler, and no user
      cancels in between. */
  ghost predicate Answered(j: Job, i: nat, n: nat, env: Env) {
    forall k: nat :: i <= k < n && k in j.steps && !Done(j.steps[k].status) ==>
      env(k).result.Returned? && !env(k).cancelBefore && !env(k).cancelDuring
  }

  /** What the row of a stage becomes: a done one stays, any other one has its handler's own outcome,
      where that is not a status of a finished step SUCCEEDED, and one attempt more. */
  ghost predicate Recorded(was: Step, step: Step, e: StageEnv) {
    if Done(was.status) then step == was
    else
      && e.result.Returned? && step.attempt == was.attempt + 1 && step.retryable == was.retryable
      && (Done(e.result.outcome) ==> step.status == e.result.outcome)
      && (!Done(e.result.outcome) ==> step.status == StepStatus.Succeeded)
  }

  /** From `j` to `m` the stages from `i` up to `n` have run. */
  ghost predicate Passed(j: Job, m: Job, i: nat, n: nat, env: Env) {
    && m.steps.Keys == j.steps.Keys
    && m == j.(steps := m.steps, datastorePath := m.datastorePath, mediaRemoved := m.mediaRemoved,
               attached := m.attached, preparations := m.preparations)
    && (forall k :: k in j.steps && (k < i || k >= n) ==> m.steps[k] == j.steps[k])
    && forall k :: k in j.steps && i <= k < n ==> Recorded(j.steps[k], m.steps[k], env(k))
  }

  lemma StageRecords(j: Job, i: nat, e: StageEnv)
    requires i in j.steps && !Done(j.steps[i].status) && !j.cancelRequested
    requires e.result.Returned? && !e.cancelBefore && !e.cancelDuring
    ensures var r := RunStage(Flag(j, e.cancelBefore), i, e);
            && Recorded(j.steps[i], r.steps[i], e) && Done(r.steps[i].status)
            && OnlyRow(j.steps, r.steps, i)
            && r == j.(steps := r.steps, datastorePath := r.datastorePath, mediaRemoved := r.mediaRemoved,
                       attached := r.attached, preparations := r.preparations)
  {
    assert Flag(j, false) == j;
    BeginMeans(j, i);
    FinishMeans(Flag(BeginStage(j, i), false), i, Outcome(e.result.outcome));
  }

  /** The job at the next stage. */
  function NextJob(j: Job, i: nat, env: Env): Job {
    if i !in j.steps || Done(j.steps[i].status) then j else RunStage(Flag(j, env(i).cancelBefore), i, env(i))
  }

  lemma NextPassed(j: Job, i: nat, env: Env)
    requires i < 26 && !j.cancelRequested && Answered(j, i, i + 1, env)
    ensures Passed(j, NextJob(j, i, env), i, i + 1, env)
    ensures ExecuteFrom(j, i, env) == ExecuteFrom(NextJob(j, i, env), i + 1, env)
  {
    if i in j.steps && !Done(j.steps[i].status) {
      var r := StageRuns(j, i, env);
    }
  }

  lemma StageRuns(j: Job, i: nat, env: Env) returns (r: Job)
    requires i < 26 && !j.cancelRequested && i in j.steps && !Done(j.steps[i].status)
    requires env(i).result.Returned? && !env(i).cancelBefore && !env(i).cancelDuring
    ensures r == RunStage(Flag(j, env(i).cancelBefore), i, env(i))
    ensures OnlyRow(j.steps, r.steps, i) && Recorded(j.steps[i], r.steps[i], env(i))
    ensures r == j.(steps := r.steps, datastorePath := r.datastorePath, mediaRemoved := r.mediaRemoved,
                    attached := r.attached, preparations := r.preparations)
    ensures ExecuteFrom(j, i, env) == ExecuteFrom(r, i + 1, env)
  {
    StageRecords(j, i, env(i));
    r := RunStage(Flag(j, env(i).cancelBefore), i, env(i));
    assert !r.steps[i].status.Failed?;
  }

  /** `next` passes one stage, and `result` does not tell the job before it from the job behind it. */
  ghost predicate OneStage(result: (Job, nat) -> Job, next: (Job, nat) -> Job, j: Job, i: nat, env: Env) {
    i < 26 && !j.cancelRequested && Answered(j, i, i + 1, env) ==>
      Passed(j, next(j, i), i, i + 1, env) && result(j, i) == result(next(j, i), i + 1)
  }

  lemma {:induction false} StagesPass(result: (Job, nat) -> Job, next: (Job, nat) -> Job, j: Job, i: nat, n: nat,
                                      env: Env)
    returns (m: Job)
    requires forall a: Job, k: nat :: OneStage(result, next, a, k, env)
    requires i <= n <= 26 && !j.cancelRequested && Answered(j, i, n, env)
    ensures Passed(j, m, i, n, env) && result(j, i) == result(m, n)
    decreases n - i
  {
    if i == n {
      m := j;
    } else {
      assert OneStage(result, next, j, i, env);
      PassedOne(j, next(j, i), i, n, env);
      m := StagesPass(result, next, next(j, i), i + 1, n, env);
      PassedOn(j, next(j, i), m, i, n, env);
    }
  }

  lemma PassedOne(j: Job, r: Job, i: nat, n: nat, env: Env)
    requires i < n && Answered(j, i, n, env) && (Answered(j, i, i + 1, env) ==> Passed(j, r, i, i + 1, env))
    ensures Answered(j, i, i + 1, env) && Answered(r, i + 1, n, env) && r.cancelRequested == j.cancelRequested
  {
  }

  lemma PassedOn(j: Job, r: Job, m: Job, i: nat, n: nat, env: Env)
    requires i < n && Passed(j, r, i, i + 1, env) && Passed(r, m, i + 1, n, env)
    ensures Passed(j, m, i, n, env)
  {
  }

  /** The loop passes all stages that are answered, and goes on behind them. */
  lemma ExecutePasses(j: Job, i: nat, n: nat, env: Env) returns (m: Job)
    requires i <= n <= 26 && !j.cancelRequested && Answered(j, i, n, env)
    ensures Passed(j, m, i, n, env) && ExecuteFrom(j, i, env) == ExecuteFrom(m, n, env)
  {
    var result, next := (a: Job, k: nat) => ExecuteFrom(a, k, env), (a: Job, k: nat) => NextJob(a, k, env);
    forall a: Job, k: nat ensures OneStage(result, next, a, k, env) {
      if k < 26 && !a.cancelRequested && Answered(a, k, k + 1, env) {
        NextPassed(a, k, env);
      }
    }
    m := StagesPass(result, next, j, i, n, env);
  }

  /** An undisturbed execution completes the job; every stage that was not done carries what its own
      handler returned. */
  lemma UndisturbedExecution(j: Job, env: Env)
    requires !j.cancelRequested && Answered(j, 0, 26, env)
    ensures ExecuteFrom(j, 0, env).status == JobStatus.Completed
    ensures Passed(j, ExecuteFrom(j, 0, env).(status := j.status), 0, 26, env)
  {
    var m := ExecutePasses(j, 0, 26, env);
    assert ExecuteFrom(m, 26, env) == m.(status := JobStatus.Completed);
    assert m.(status := JobStatus.Completed).(status := j.status) == m;
  }

  /** How a stage ends, in its row: with what its handler returned, as a failure, or as a cancellation; and
      in each case with one attempt more. */
  ghost predicate EndsAs(was: Step, r: Job, i: nat, e: StageEnv) {
    && i in r.steps && r.steps[i].attempt == was.attempt + 1
    && match e.result
       case Returned(outcome) =>
         && (Done(outcome) ==> r.steps[i].status == outcome)
         && (!Done(outcome) ==> r.steps[i].status == StepStatus.Succeeded)
       case Raised(retryable) => r.steps[i].status == StepStatus.Failed && r.steps[i].retryable == retryable
       case StoppedByUser => r.steps[i].status == StepStatus.Cancelled && r.status == JobStatus.Cancelled
  }

  lemma RunStageMeans(j: Job, i: nat, e: StageEnv)
    requires i in j.steps
    ensures EndsAs(j.steps[i], RunStage(j, i, e), i, e)
  {
    var begun := Flag(BeginStage(j, i), CancelsDuring(e));
    BeginMeans(j, i);
    match e.result
    case Returned(outcome) => FinishMeans(begun, i, Outcome(outcome));
    case Raised(retryable) => FailedRow(begun, i, retryable, e.cleaned, e.removed);
    case StoppedByUser => StoppedRow(begun, i, e.cleaned, e.removed);
  }

  lemma StoppedRow(j: Job, i: nat, cleaned: bool, removed: bool)
    requires i in j.steps
    ensures var r := ApplyCancellation(MarkStopped(j, i, cleaned), removed);
            && r.status == JobStatus.Cancelled
            && r.steps[i] == Step(StepStatus.Cancelled, j.steps[i].attempt, j.steps[i].retryable)
  {
    CancellationMeans(MarkStopped(j, i, cleaned), removed);
  }

  /** At a cancellation that the loop finds before a stage it ends. */
  lemma CancellationFound(j: Job, n: nat, env: Env)
    requires n < 26 && n in j.steps && !Done(j.steps[n].status) && (j.cancelRequested || env(n).cancelBefore)
    ensures ExecuteFrom(j, n, env) == ApplyCancellation(j.(cancelRequested := true), env(n).removed)
  {
    assert Flag(j, env(n).cancelBefore) == j.(cancelRequested := true);
  }

  /** The job while the handler of stage `n` runs. */
  function InStage(j: Job, n: nat, cancel: bool): Job
    requires n in j.steps
  {
    var step := Step(StepStatus.Running, j.steps[n].attempt + 1, j.steps[n].retryable);
    j.(cancelRequested := cancel, steps := j.steps[n := step])
  }

  /** At a failed stage the loop ends; the stages behind it are not begun. */
  lemma FailureEnds(j: Job, n: nat, env: Env)
    requires n < 26 && n in j.steps && !Done(j.steps[n].status) && !j.cancelRequested && !env(n).cancelBefore
    requires env(n).result.Raised?
    ensures ExecuteFrom(j, n, env) ==
            FailStage(InStage(j, n, env(n).cancelDuring), n, env(n).result.retryable, env(n).cleaned, env(n).removed)
  {
    var e := env(n);
    var r := RunStage(Flag(j, false), n, e);
    assert Flag(j, false) == j && Flag(BeginStage(j, n), CancelsDuring(e)) == InStage(j, n, e.cancelDuring);
    FailedRow(InStage(j, n, e.cancelDuring), n, e.result.retryable, e.cleaned, e.removed);
  }

  lemma FailedRow(j: Job, n: nat, retryable: bool, cleaned: bool, removed: bool)
    requires n in j.steps
    ensures FailStage(j, n, retryable, cleaned, removed).steps[n] ==
            Step(StepStatus.Failed, j.steps[n].attempt, retryable)
  {
  }

  /** How the loop ends at stage `n` once it has passed the stages before. */
  lemma DisturbedExecution(j: Job, n: nat, env: Env) returns (m: Job)
    requires n < 26 && !j.cancelRequested && Answered(j, 0, n, env) && n in j.steps && !Done(j.steps[n].status)
    requires env(n).cancelBefore || env(n).result.Raised?
    ensures Passed(j, m, 0, n, env) && m.steps[n] == j.steps[n]
    ensures ExecuteFrom(j, 0, env) ==
            var e := env(n);
            if e.cancelBefore then ApplyCancellation(m.(cancelRequested := true), e.removed)
            else FailStage(InStage(m, n, e.cancelDuring), n, e.result.retryable, e.cleaned, e.removed)
  {
    m := ExecutePasses(j, 0, n, env);
    if env(n).cancelBefore {
      CancellationFound(m, n, env);
    } else {
      FailureEnds(m, n, env);
    }
  }
}
