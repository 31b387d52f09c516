/** Which stopped jobs users can still bring to completion. */
module JobRecovery {
  import opened Options
  import opened JobModel
  import opened JobInvariant
  import opened JobRuns
  import opened JobExecute
  import opened JobRetry

  /** Some cancellations and retries, with the executions between them, complete the job. */
  ghost predicate Completable(j: Job) {
    exists acts, r :: Performs(j, acts, r) && r.status.Completed? && AllPresent(r.steps) && AllDone(r.steps)
  }

  // ---------------------------------------------------------------- a job with something to reset

  function Smoothly(): Env { _ => StageEnv(false, false, Returned(StepStatus.Succeeded), false, false) }

  /** A retry, a claim and an undisturbed execution. */
  lemma RetryableIsCompletable(j: Job)
    requires Inv(j) && CanRetry(j)
    ensures Completable(j)
  {
    var queued := Retry(j, None, 0);
    var claimed := Apply(queued, Claim(0, 0));
    RetryKeepsInv(j, None, 0);
    StepKeepsInv(queued, Claim(0, 0));
    StartKeepsInv(claimed);
    var started := Apply(claimed, Start);
    assert ResetSet(j, None) <= j.steps.Keys;
    StartedIsCompletable(started);
    ThenCompletable(claimed, Start);
    ThenCompletable(queued, Claim(0, 0));
    ThenCompletable(j, Requeue(None, 0));
  }

  lemma StartedIsCompletable(j: Job)
    requires AtStage(j, 0) && !j.cancelRequested
    ensures Completable(j)
  {
    ExecuteCompletes(j, 0, Smoothly());
    var acts := ExecuteRefines(j, 0, Smoothly());
    assert Performs(j, acts, ExecuteFrom(j, 0, Smoothly()));
  }

  lemma ThenPerforms(j: Job, a: Action, acts: seq<Action>, r: Job)
    requires Enabled(j, a) && Performs(Apply(j, a), acts, r)
    ensures Performs(j, [a] + acts, r)
  {
    assert ([a] + acts)[1..] == acts;
  }

  lemma ThenCompletable(j: Job, a: Action)
    requires Enabled(j, a) && Completable(Apply(j, a))
    ensures Completable(j)
  {
    var acts, r :| Performs(Apply(j, a), acts, r) && r.status.Completed? && AllPresent(r.steps) && AllDone(r.steps);
    ThenPerforms(j, a, acts, r);
  }

  // ---------------------------------------------------------------- an interrupted job

  /** Nobody executes it and a removal of its media is not due: cancelling closes its steps. */
  lemma CancelMakesRetryable(j: Job)
    requires Inv(j) && j.status.Interrupted? && !AllDone(j.steps) && !MayHoldMedia(j)
    ensures Completable(j)
  {
    var r := Apply(j, Cancel(0));
    CancelKeepsInv(j, 0);
    ClosedSteps(j.steps, r);
    ResetSetNonEmpty(r);
    RetryableIsCompletable(r);
    ThenCompletable(j, Cancel(0));
  }

  /** It may hold media: a worker removes them and cancels the job. */
  lemma HandOverMakesRetryable(j: Job)
    requires Inv(j) && j.status.Interrupted? && !AllDone(j.steps) && MayHoldMedia(j)
    ensures Completable(j)
  {
    var handed := Apply(j, Cancel(0));
    var claimed := Apply(handed, Claim(0, 0));
    CancelKeepsInv(j, 0);
    StepKeepsInv(handed, Claim(0, 0));
    StartKeepsInv(claimed);
    assert Apply(claimed, Start).steps == j.steps;
    StoppingMakesRetryable(Apply(claimed, Start));
    ThenCompletable(claimed, Start);
    ThenCompletable(handed, Claim(0, 0));
    ThenCompletable(j, Cancel(0));
  }

  lemma StoppingMakesRetryable(j: Job)
    requires Inv(j) && j.status.Running? && j.inPipeline && NoneRunning(j.steps) && !AllDone(j.steps)
    requires j.cancelRequested
    ensures Completable(j)
  {
    var r := Apply(j, StopBetween(true));
    CancellationKeepsInv(j, true);
    ReleaseKeepsUndone(j, true);
    ClosedSteps(Release(j, true).steps, r);
    ResetSetNonEmpty(r);
    RetryableIsCompletable(r);
    ThenCompletable(j, StopBetween(true));
  }

  // ---------------------------------------------------------------- the other stopped jobs

  /** A stop that leaves something undone leaves something to reset. */
  lemma UndoneWasLeft(j: Job, a: Action)
    requires Inv(j) && Enabled(j, a) && Active(j.status) && !a.Requeue? && !a.Elsewhere?
    requires RetryAllowed(Apply(j, a), None) && !Apply(j, a).status.Interrupted? && !AllDone(Apply(j, a).steps)
    ensures LeavesSomethingToRetry(j, a)
  {
  }

  lemma UndoneNext(j: Job, a: Action, r: Job)
    requires Inv(j) && Enabled(j, a) && Active(j.status) && !a.Requeue? && !a.Elsewhere? && r == Apply(j, a)
    requires Inv(r) && RetryAllowed(r, None) && !r.status.Interrupted? && !AllDone(r.steps)
    ensures CanRetry(r)
  {
    UndoneWasLeft(j, a);
    StoppedSteps(j, a);
    ResetSetNonEmpty(r);
  }

  /** No other transaction ends in a stopped state that was not there before. */
  lemma StoppedStays(j: Job, a: Action)
    requires Enabled(j, a) && (!Active(j.status) || a.Requeue? || a.Elsewhere?)
    requires RetryAllowed(Apply(j, a), None) && !Apply(j, a).status.Interrupted?
    ensures Apply(j, a) == j
  {
  }

  lemma {:induction false} UndoneIsResettable(js: seq<Job>, acts: seq<Action>, k: nat)
    requires Run(js, acts) && k < |js| && !AllDone(js[k].steps)
    requires RetryAllowed(js[k], None) && !js[k].status.Interrupted?
    ensures CanRetry(js[k])
  {
    if k > 0 {
      var j, a := js[k - 1], acts[k - 1];
      ReachableInv(js, acts, k - 1);
      if Active(j.status) && !a.Requeue? && !a.Elsewhere? {
        ReachableInv(js, acts, k);
        UndoneNext(j, a, js[k]);
      } else {
        StoppedStays(j, a);
        UndoneIsResettable(js, acts, k - 1);
      }
    }
  }

  // ---------------------------------------------------------------- a job with everything done, or nothing begun

  /** Once the clean-up is done, the removal of the media is recorded. */
  ghost predicate CleanedUp(j: Job) { DoneAt(j.steps, CLEANUP) ==> j.mediaRemoved }

  lemma FinishKeepsCleanedUp(j: Job, i: nat, o: StepStatus)
    requires Inv(j) && CleanedUp(j) && Enabled(j, Finish(i, o))
    ensures CleanedUp(FinishStage(j, i, o))
  {
  }

  lemma StopKeepsCleanedUp(j: Job, i: nat, cleaned: bool, removed1: bool, removed2: bool)
    requires CleanedUp(j) && i in j.steps
    ensures CleanedUp(CancelStage(j, i, cleaned, removed1, removed2))
  {
  }

  lemma FailKeepsCleanedUp(j: Job, i: nat, retryable: bool, cleaned: bool, removed: bool)
    requires CleanedUp(j) && i in j.steps
    ensures CleanedUp(FailStage(j, i, retryable, cleaned, removed))
  {
  }

  lemma StepKeepsCleanedUp(j: Job, a: Action)
    requires Inv(j) && CleanedUp(j) && Enabled(j, a)
    ensures CleanedUp(Apply(j, a))
  {
    match a
    case Finish(i, o) => FinishKeepsCleanedUp(j, i, o);
    case Stop(i, cleaned, removed, again) => StopKeepsCleanedUp(j, i, cleaned, removed, again);
    case Fail(i, retryable, cleaned, removed) => FailKeepsCleanedUp(j, i, retryable, cleaned, removed);
    case _ =>
  }

  lemma {:induction false} AlwaysCleanedUp(js: seq<Job>, acts: seq<Action>, k: nat)
    requires Run(js, acts) && k < |js|
    ensures CleanedUp(js[k])
  {
    if k > 0 {
      AlwaysCleanedUp(js, acts, k - 1);
      ReachableInv(js, acts, k - 1);
      StepKeepsCleanedUp(js[k - 1], acts[k - 1]);
    }
  }

  /** Stopped, nothing to reset and no media to hand over. */
  ghost predicate Stuck(j: Job) { RetryAllowed(j, None) && AllDone(j.steps) && !MayHoldMedia(j) }

  lemma StuckStays(j: Job, a: Action)
    requires Stuck(j) && Enabled(j, a)
    ensures Stuck(Apply(j, a))
  {
    assert forall key :: ResetSet(j, key) == {};
  }

  lemma {:induction false} StuckForGood(j: Job, acts: seq<Action>, r: Job)
    requires Stuck(j) && Performs(j, acts, r)
    ensures Stuck(r)
    decreases |acts|
  {
    if acts != [] {
      StuckStays(j, acts[0]);
      StuckForGood(Apply(j, acts[0]), acts[1..], r);
    }
  }

  /** A job that has stopped can be completed by some cancellations and retries if and only if some step
      row of it is not done.  Without step rows, or with every step done, nothing helps. */
  lemma CompletableIff(js: seq<Job>, acts: seq<Action>, k: nat)
    requires Run(js, acts) && k < |js| && RetryAllowed(js[k], None)
    ensures Completable(js[k]) <==> !AllDone(js[k].steps)
  {
    var j := js[k];
    ReachableInv(js, acts, k);
    if AllDone(j.steps) {
      AlwaysCleanedUp(js, acts, k);
      assert Stuck(j);
      forall more, r | Performs(j, more, r) ensures !r.status.Completed? {
        StuckForGood(j, more, r);
      }
    } else if !j.status.Interrupted? {
      UndoneIsResettable(js, acts, k);
      RetryableIsCompletable(j);
    } else if MayHoldMedia(j) {
      HandOverMakesRetryable(j);
    } else {
      CancelMakesRetryable(j);
    }
  }
}
