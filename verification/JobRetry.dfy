/** When a stopped job can be retried, and that a retried job gets to the end. */
module JobRetry {
  import opened Options
  import opened JobModel
  import opened JobInvariant
  import opened JobRuns
  import opened JobExecute

  /** Nobody cancels and every handler returns. */
  ghost predicate AllSucceed(env: Env) {
    forall i: nat :: env(i).result.Returned? && !env(i).cancelBefore && !env(i).cancelDuring
  }

  /** The loop reaches COMPLETED with every stage done; the measure is the number of stages left. */
  lemma {:induction false} ExecuteCompletes(j: Job, i: nat, env: Env)
    requires AtStage(j, i) && Plausible(env) && AllSucceed(env) && !j.cancelRequested
    ensures var r := ExecuteFrom(j, i, env);
            r.status.Completed? && AllPresent(r.steps) && AllDone(r.steps) && OnlyStages(r.steps)
    decreases STAGES - i
  {
    if i < STAGES {
      if DoneAt(j.steps, i) {
        ExecuteCompletes(j, i + 1, env);
      } else {
        var o := Outcome(env(i).result.outcome);
        assert env(i).result.Returned?;
        assert Flag(j, false) == j;
        BeginKeepsInv(j, i);
        var j1 := BeginStage(j, i);
        assert Flag(j1, false) == j1;
        FinishReachesNext(j1, i, o);
        ExecuteCompletes(FinishStage(j1, i, o), i + 1, env);
      }
    }
  }

  /** After any retry that resets at least one stage, one claim and one undisturbed execution
      complete the job, also when a single stage was retried: `execute` reruns every stage that
      is not done, reset or not. */
  lemma RetryMakesProgress(js: seq<Job>, acts: seq<Action>, k: nat, key: Option<nat>, t: Time,
                          w: WorkerId, t': Time, env: Env)
    requires Run(js, acts) && k < |js| && RetryAllowed(js[k], key) && ResetSet(js[k], key) != {} && t <= t'
    requires Plausible(env) && AllSucceed(env)
    ensures Enabled(Retry(js[k], key, t), Claim(w, t'))
    ensures var claimed := Apply(Retry(js[k], key, t), Claim(w, t'));
            Enabled(claimed, Start)
            && var r := ExecuteFrom(Apply(claimed, Start), 0, env);
            r.status.Completed? && AllPresent(r.steps) && AllDone(r.steps)
  {
    ReachableInv(js, acts, k);
    var queued := Retry(js[k], key, t);
    RetryKeepsInv(js[k], key, t);
    var claimed := Apply(queued, Claim(w, t'));
    StepKeepsInv(queued, Claim(w, t'));
    StartKeepsInv(claimed);
    assert ResetSet(js[k], key) <= js[k].steps.Keys;
    assert claimed.steps != map[];
    ExecuteCompletes(Apply(claimed, Start), 0, env);
  }

  predicate Unfinished(s: StepStatus) { s.Failed? || s.Cancelled? || s.Running? }

  /** Whether the job can be retried after the transaction, read off the job before it. */
  ghost predicate LeavesSomethingToRetry(j: Job, a: Action) {
    match a
    case FailBefore => !AllDone(EnsureSteps(j.steps))
    case Crash(_) => !AllDone(j.steps)
    case Park(_, _) => exists k :: k in j.steps && Unfinished(j.steps[k].status)
    case Cancel(_) => !AllDone(j.steps)
    case _ => true
  }

  ghost predicate CanRetry(j: Job) { RetryAllowed(j, None) && ResetSet(j, None) != {} }

  lemma ResetSetNonEmpty(j: Job)
    requires Inv(j)
    ensures ResetSet(j, None) != {} <==> exists k :: k in j.steps && Resettable(j, k)
  {
    if k :| k in j.steps && Resettable(j, k) {
      assert k in ResetSet(j, None);
    }
  }

  /** A job that has just stopped without completing can be retried exactly when a stage was left
      unfinished.  It cannot after a cancellation before its first claim (it has no steps yet),
      nor after an interruption between two stages, nor after a crash behind the last one. */
  lemma StoppedJobRetryable(js: seq<Job>, acts: seq<Action>, k: nat)
    requires Run(js, acts) && k < |acts|
    requires Active(js[k].status) && !acts[k].Requeue? && !acts[k].Elsewhere?
    requires RetryAllowed(js[k + 1], None)
    ensures CanRetry(js[k + 1]) <==> LeavesSomethingToRetry(js[k], acts[k])
  {
    ReachableInv(js, acts, k);
    ReachableInv(js, acts, k + 1);
    ResetSetNonEmpty(js[k + 1]);
    StoppedSteps(js[k], acts[k]);
  }

  /** Closing the open steps leaves something to retry unless everything was done. */
  lemma ClosedSteps(steps: Steps, r: Job)
    requires r.steps == CancelOpen(steps)
    ensures (exists k :: k in r.steps && Resettable(r, k)) <==> !AllDone(steps)
  {
    if !AllDone(steps) {
      var k :| k in steps && !Done(steps[k].status);
      assert k in r.steps && Resettable(r, k);
    }
    if k :| k in r.steps && Resettable(r, k) {
      assert !Done(steps[k].status);
    }
  }

  lemma StoppedByWorker(j: Job, a: Action, i: nat)
    requires Inv(j) && Enabled(j, a) && (a.Fail? || a.Stop?) && a.stage == i
    requires RetryAllowed(Apply(j, a), None)
    ensures i in Apply(j, a).steps && Resettable(Apply(j, a), i)
  {
    if a.Stop? {
      CancelledNotFailed(MarkStopped(j, i, a.cleaned), i, a.removed);
      if i != LAST {
        CancelledNotFailed(ApplyCancellation(MarkStopped(j, i, a.cleaned), a.removed), i, a.removedAgain);
      }
    }
  }

  lemma ReleaseKeepsUndone(j: Job, removed: bool)
    requires !AllDone(j.steps)
    ensures !AllDone(Release(j, removed).steps)
  {
    var k :| k in j.steps && !Done(j.steps[k].status);
    assert k in Release(j, removed).steps && !Done(Release(j, removed).steps[k].status);
  }

  lemma ParkedSteps(j: Job, removed: bool)
    ensures var r := Interrupt(j, removed);
            (exists k :: k in r.steps && Resettable(r, k))
            <==> exists k :: k in j.steps && Unfinished(j.steps[k].status)
  {
    var r := Interrupt(j, removed);
    if k :| k in j.steps && Unfinished(j.steps[k].status) {
      assert k in r.steps && Resettable(r, k);
    }
    if k :| k in r.steps && Resettable(r, k) {
      assert k in j.steps && Unfinished(j.steps[k].status);
    }
  }

  /** The unfinished steps a stop leaves behind. */
  lemma StoppedSteps(j: Job, a: Action)
    requires Inv(j) && Enabled(j, a) && Active(j.status) && !a.Requeue? && !a.Elsewhere?
    requires RetryAllowed(Apply(j, a), None)
    ensures var r := Apply(j, a);
            (exists k :: k in r.steps && Resettable(r, k)) <==> LeavesSomethingToRetry(j, a)
  {
    var r := Apply(j, a);
    match a
    case Fail(i, _, _, _) => StoppedByWorker(j, a, i);
    case Stop(i, _, _, _) => StoppedByWorker(j, a, i);
    case StopBetween(removed) =>
      ReleaseKeepsUndone(j, removed);
      ClosedSteps(Release(j, removed).steps, r);
    case FailBefore => ClosedSteps(EnsureSteps(j.steps), r);
    case Crash(_) => ClosedSteps(j.steps, r);
    case Park(removed, cleaned) => ParkedSteps(Detached(j, cleaned), removed);
    case Cancel(_) => ClosedSteps(j.steps, r);
    case _ =>
  }
}
