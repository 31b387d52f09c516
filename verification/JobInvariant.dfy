/** What every transaction keeps about one job. */
module JobInvariant {
  import opened Options
  import opened JobModel

  /** The done steps are a prefix of the stage order. */
  ghost predicate PrefixClosed(steps: Steps) {
    forall a: nat, b: nat :: a < b && DoneAt(steps, b) ==> DoneAt(steps, a)
  }

  ghost predicate Shape(steps: Steps) {
    steps == map[] || (AllPresent(steps) && OnlyStages(steps))
  }

  ghost predicate RunningIsNext(j: Job) {
    forall k :: k in j.steps && j.steps[k].status.Running? ==>
      j.status.Running? && j.inPipeline && IsNext(j.steps, k)
  }

  ghost predicate Outcomes(steps: Steps) {
    forall k :: DoneAt(steps, k) ==> Possible(k, steps[k].status)
  }

  ghost predicate Ownership(j: Job) {
    && (j.status.Running? ==> j.workerId.Some? && j.heartbeatAt.Some?)
    && (j.status.Queued? || j.status.Interrupted? ==> j.workerId.None? && j.heartbeatAt.None?)
  }

  /** Everything before the last stage is done; the last stage may have been cancelled. */
  ghost predicate CompletedShape(j: Job) {
    j.status.Completed? ==>
      AllPresent(j.steps)
      && (DoneAt(j.steps, LAST)
          || (j.steps[LAST].status.Cancelled? && forall k: nat :: k < LAST ==> DoneAt(j.steps, k)))
  }

  ghost predicate Media(j: Job) {
    && (j.datastorePath <==> j.preparations > 0)
    && (j.mediaRemoved ==> j.datastorePath)
    && (DoneAt(j.steps, PREPARE) ==> j.datastorePath)
    && (j.datastorePath && !DoneAt(j.steps, PREPARE) ==> j.mediaRemoved && !j.attached)
    && (j.preparations >= 2 ==> j.mediaRemoved)
    && (j.attached ==> j.datastorePath && !DoneAt(j.steps, CLEANUP))
    && (j.mediaRemoved && j.attached ==> j.preparations >= 2)
  }

  ghost predicate Inv(j: Job) {
    && Shape(j.steps) && PrefixClosed(j.steps) && RunningIsNext(j) && Outcomes(j.steps)
    && Ownership(j) && CompletedShape(j) && Media(j)
    && (j.inPipeline && j.status.Running? ==> AllPresent(j.steps))
  }

  lemma InitialInv(s: Submission, now: Time)
    ensures Inv(NewJob(s, now))
  {
  }

  /** The stage-order facts depend on nothing but which steps are done, and how. */
  ghost predicate SameDone(steps: Steps, next: Steps) {
    next.Keys == steps.Keys
    && forall k :: k in steps && (Done(steps[k].status) || Done(next[k].status)) ==> next[k].status == steps[k].status
  }

  lemma SameDoneKeeps(steps: Steps, next: Steps)
    requires Shape(steps) && PrefixClosed(steps) && Outcomes(steps) && SameDone(steps, next)
    ensures Shape(next) && PrefixClosed(next) && Outcomes(next)
    ensures forall k {:trigger DoneAt(next, k)} {:trigger DoneAt(steps, k)} :: DoneAt(next, k) <==> DoneAt(steps, k)
  {
    assert steps == map[] ==> next == map[];
    forall k ensures DoneAt(next, k) <==> DoneAt(steps, k) {}
  }

  lemma ReleaseKeepsInv(j: Job, removed: bool)
    requires Inv(j) && NoneRunning(j.steps)
    ensures Inv(Release(j, removed)) && NoneRunning(Release(j, removed).steps)
  {
    var r := Release(j, removed);
    if r.steps != j.steps {
      forall k ensures DoneAt(r.steps, k) <==> DoneAt(j.steps, k) && k != PREPARE {}
      assert !DoneAt(j.steps, POWER_ON);
    }
  }

  /** Closing the open steps of a job that stops without completing. */
  lemma CancelOpenKeepsInv(j: Job, s: JobStatus, w: Option<WorkerId>)
    requires Inv(j) && (s.Cancelled? || s.Failed?)
    ensures var r := j.(steps := CancelOpen(j.steps), status := s, workerId := w);
            Inv(r) && NoneRunning(r.steps)
  {
    SameDoneKeeps(j.steps, CancelOpen(j.steps));
  }

  lemma CancellationKeepsInv(j: Job, removed: bool)
    requires Inv(j) && NoneRunning(j.steps)
    ensures var r := ApplyCancellation(j, removed); Inv(r) && NoneRunning(r.steps)
  {
    ReleaseKeepsInv(j, removed);
    var j1 := Release(j, removed);
    CancelOpenKeepsInv(j1, JobStatus.Cancelled, j1.workerId);
  }

  lemma CleanupKeepsInv(j: Job)
    requires Inv(j)
    ensures Inv(CleanupEffect(j))
  {
  }

  /** A stage leaves RUNNING without being done; the job stops. */
  lemma StopStageKeepsInv(j: Job, i: nat, step: Step, s: JobStatus)
    requires Inv(j) && i in j.steps && j.steps[i].status.Running?
    requires !step.status.Running? && !Done(step.status)
    requires s.Failed? || s.PartiallyCompleted? || s.Cancelled?
    ensures var r := j.(steps := j.steps[i := step], status := s); Inv(r) && NoneRunning(r.steps)
  {
    var steps := j.steps[i := step];
    SameDoneKeeps(j.steps, steps);
  }

  lemma BeginKeepsInv(j: Job, i: nat)
    requires Inv(j) && Enabled(j, Begin(i))
    ensures Inv(BeginStage(j, i))
  {
    SameDoneKeeps(j.steps, BeginStage(j, i).steps);
  }

  lemma FinishKeepsInv(j: Job, i: nat, o: StepStatus)
    requires Inv(j) && Enabled(j, Finish(i, o))
    ensures Inv(FinishStage(j, i, o))
  {
    var r := FinishStage(j, i, o);
    assert !DoneAt(j.steps, i);
    forall k ensures DoneAt(r.steps, k) <==> DoneAt(j.steps, k) || k == i {}
  }

  lemma FailKeepsInv(j: Job, i: nat, retryable: bool, cleaned: bool, removed: bool)
    requires Inv(j) && Enabled(j, Fail(i, retryable, cleaned, removed))
    ensures Inv(FailStage(j, i, retryable, cleaned, removed))
  {
    CleanupKeepsInv(j);
    var j1 := Cleaned(j, i, cleaned);
    var failed := MarkFailed(j1, i, retryable);
    StopStageKeepsInv(j1, i, failed.steps[i], failed.status);
    ReleaseKeepsInv(failed, removed);
  }

  /** The running stage is marked cancelled and the first cancellation runs. */
  lemma FirstCancellation(j: Job, i: nat, removed: bool)
    requires Inv(j) && i in j.steps && j.steps[i].status.Running?
    ensures var r := ApplyCancellation(j.(steps := SetStatus(j.steps, i, StepStatus.Cancelled)), removed);
            Inv(r) && NoneRunning(r.steps)
  {
    var j0 := j.(steps := SetStatus(j.steps, i, StepStatus.Cancelled));
    StopStageKeepsInv(j, i, j0.steps[i], JobStatus.Cancelled);
    CancellationKeepsInv(j0.(status := JobStatus.Cancelled), removed);
    assert ApplyCancellation(j0, removed) == ApplyCancellation(j0.(status := JobStatus.Cancelled), removed);
  }

  lemma StopKeepsInv(j: Job, i: nat, cleaned: bool, removed1: bool, removed2: bool)
    requires Inv(j) && Enabled(j, Stop(i, cleaned, removed1, removed2))
    ensures Inv(CancelStage(j, i, cleaned, removed1, removed2))
  {
    CleanupKeepsInv(j);
    var j1 := Cleaned(j, i, cleaned);
    var j0 := MarkStopped(j, i, cleaned);
    FirstCancellation(j1, i, removed1);
    if i == LAST {
      LastStageCancelled(j, removed1);
    } else {
      CancellationKeepsInv(ApplyCancellation(j0, removed1), removed2);
    }
  }

  /** When the last stage is the one cancelled, the media went away long before: releasing it
      again changes no step, and nothing but the last step is left undone. */
  lemma LastStageCancelled(j: Job, removed: bool)
    requires Inv(j) && LAST in j.steps && j.steps[LAST].status.Running?
    ensures var r := ApplyCancellation(j.(steps := SetStatus(j.steps, LAST, StepStatus.Cancelled)), removed).steps;
            r.Keys == j.steps.Keys && r[LAST].status.Cancelled? && forall k: nat :: k < LAST ==> DoneAt(r, k)
  {
    var j0 := j.(steps := SetStatus(j.steps, LAST, StepStatus.Cancelled));
    forall k: nat | k < LAST ensures DoneAt(j0.steps, k) {}
    assert DoneAt(j.steps, POWER_ON) && DoneAt(j.steps, PREPARE);
    assert Release(j0, removed).steps == j0.steps;
  }

  lemma DetachedKeepsInv(j: Job, cleaned: bool)
    requires Inv(j)
    ensures Inv(Detached(j, cleaned))
  {
  }

  lemma ParkKeepsInv(j: Job, removed: bool)
    requires Inv(j) && j.status.Running?
    ensures Inv(Interrupt(j, removed))
  {
    var j1 := j.(steps := FailRunning(j.steps), status := JobStatus.Interrupted, workerId := None, heartbeatAt := None);
    SameDoneKeeps(j.steps, j1.steps);
    ReleaseKeepsInv(j1, removed);
  }

  lemma RetryKeepsInv(j: Job, key: Option<nat>, now: Time)
    requires Inv(j) && RetryAllowed(j, key)
    ensures Inv(Retry(j, key, now))
  {
    SameDoneKeeps(j.steps, ResetSteps(j, key));
  }

  lemma CancelKeepsInv(j: Job, now: Time)
    requires Inv(j) && !Terminal(j.status)
    ensures Inv(RequestCancel(j, now))
  {
    if j.status.Queued? || (j.status.Interrupted? && !MayHoldMedia(j)) {
      CancelOpenKeepsInv(j.(cancelRequested := true), JobStatus.Cancelled, j.workerId);
    }
  }

  lemma StartKeepsInv(j: Job)
    requires Inv(j) && Enabled(j, Start)
    ensures Inv(j.(steps := EnsureSteps(j.steps))) && Inv(Apply(j, Start))
    ensures j.steps != map[] ==> EnsureSteps(j.steps) == j.steps
  {
    var steps := EnsureSteps(j.steps);
    forall k ensures DoneAt(steps, k) == DoneAt(j.steps, k) {}
    assert j.steps != map[] ==> steps == j.steps;
  }

  lemma ClaimKeepsInv(j: Job, w: WorkerId, now: Time)
    requires Inv(j) && Enabled(j, Claim(w, now))
    ensures Inv(Apply(j, Claim(w, now)))
  {
  }

  lemma FailBeforeKeepsInv(j: Job)
    requires Inv(j) && Enabled(j, FailBefore)
    ensures Inv(Apply(j, FailBefore))
  {
    StartKeepsInv(j);
    CancelOpenKeepsInv(j.(steps := EnsureSteps(j.steps)), JobStatus.Failed, None);
  }

  lemma FinalizeKeepsInv(j: Job)
    requires Inv(j) && Enabled(j, Finalize)
    ensures Inv(Apply(j, Finalize))
  {
  }

  /** Every committed transaction keeps the invariant. */
  lemma {:induction false} StepKeepsInv(j: Job, a: Action)
    requires Inv(j) && Enabled(j, a)
    ensures Inv(Apply(j, a))
  {
    match a
    case Claim(w, now) => ClaimKeepsInv(j, w, now);
    case Beat(_) =>
    case Start => StartKeepsInv(j);
    case FailBefore => FailBeforeKeepsInv(j);
    case Begin(i) => BeginKeepsInv(j, i);
    case Finish(i, o) => FinishKeepsInv(j, i, o);
    case Fail(i, retryable, cleaned, removed) => FailKeepsInv(j, i, retryable, cleaned, removed);
    case Stop(i, cleaned, removed, again) => StopKeepsInv(j, i, cleaned, removed, again);
    case StopBetween(removed) => CancellationKeepsInv(j, removed);
    case Finalize => FinalizeKeepsInv(j);
    case Crash(cleaned) =>
      DetachedKeepsInv(j, cleaned);
      CancelOpenKeepsInv(Detached(j, cleaned), JobStatus.Failed, None);
    case Park(removed, cleaned) =>
      DetachedKeepsInv(j, cleaned);
      ParkKeepsInv(Detached(j, cleaned), removed);
    case Requeue(key, now) => RetryKeepsInv(j, key, now);
    case Cancel(now) => CancelKeepsInv(j, now);
    case Elsewhere =>
  }
}
