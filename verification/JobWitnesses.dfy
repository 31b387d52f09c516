/** Concrete runs on which the obvious claim about a job fails. */
module JobWitnesses {
  import opened Options
  import opened JobModel
  import opened JobInvariant
  import opened JobRuns
  import opened JobMedia
  import opened JobRecovery
  import opened JobRetry

  ghost predicate AllClean(acts: seq<Action>) { forall m: nat :: m < |acts| ==> Clean(acts[m]) }

  const SUBMISSION := Submission("vm", None, None, None, None)

  /** The job is executing and exactly the first n stages are done. */
  ghost predicate Midway(j: Job, n: nat) {
    && j.status.Running? && j.inPipeline && !j.cancelRequested
    && AllPresent(j.steps) && OnlyStages(j.steps) && NoneRunning(j.steps)
    && forall k :: k in j.steps ==> (Done(j.steps[k].status) <==> k < n)
  }

  /** One more stage succeeds. */
  lemma Advance(js0: seq<Job>, acts0: seq<Action>, n: nat) returns (js: seq<Job>, acts: seq<Action>)
    requires Run(js0, acts0) && AllClean(acts0) && n < STAGES && Midway(js0[|acts0|], n)
    ensures Run(js, acts) && AllClean(acts) && Midway(js[|acts|], n + 1)
    ensures n != PREPARE && n != CLEANUP ==>
              js[|acts|].attached == js0[|acts0|].attached && js[|acts|].mediaRemoved == js0[|acts0|].mediaRemoved
              && js[|acts|].preparations == js0[|acts0|].preparations
    ensures n == PREPARE ==>
              js[|acts|].attached && js[|acts|].mediaRemoved == js0[|acts0|].mediaRemoved
              && js[|acts|].preparations == js0[|acts0|].preparations + 1
  {
    var j := js0[|acts0|];
    js, acts := Extend(js0, acts0, Begin(n));
    assert js[|acts|].steps ==
           j.steps[n := j.steps[n].(status := StepStatus.Running, attempt := j.steps[n].attempt + 1)];
    js, acts := Extend(js, acts, Finish(n, StepStatus.Succeeded));
  }

  lemma {:induction false} Drive(n: nat) returns (js: seq<Job>, acts: seq<Action>)
    requires n <= STAGES
    ensures Run(js, acts) && AllClean(acts) && Midway(js[|acts|], n)
    ensures n <= CLEANUP ==>
              var j := js[|acts|];
              !j.mediaRemoved && j.attached == (n > PREPARE) && j.preparations == if n > PREPARE then 1 else 0
  {
    if n == 0 {
      js, acts := [NewJob(SUBMISSION, 0)], [];
      js, acts := Extend(js, acts, Claim(0, 0));
      js, acts := Extend(js, acts, Start);
    } else {
      js, acts := Drive(n - 1);
      js, acts := Advance(js, acts, n - 1);
    }
  }

  /** A cancellation during the last stage: the job ends COMPLETED, its last stage cancelled. */
  lemma CancelledJobReportsCompleted() returns (js: seq<Job>, acts: seq<Action>)
    ensures Run(js, acts) && AllClean(acts)
    ensures js[|acts|].status.Completed? && !AllDone(js[|acts|].steps)
  {
    js, acts := CancelLastStage();
    var j := js[|acts|];
    js, acts := Extend(js, acts, Stop(LAST, false, true, true));
    assert js[|acts|] == CancelStage(j, LAST, false, true, true);
    CompletionIsEarned(js, acts, |acts| - 1);
  }

  lemma CancelLastStage() returns (js: seq<Job>, acts: seq<Action>)
    ensures Run(js, acts) && AllClean(acts) && Enabled(js[|acts|], Stop(LAST, false, true, true))
    ensures js[|acts|].status.Running?
  {
    js, acts := Drive(LAST);
    js, acts := Extend(js, acts, Begin(LAST));
    js, acts := Extend(js, acts, Cancel(0));
  }

  /** A stopped job with a failed stage, exactly n stages done: retried, claimed, started. */
  lemma RetryAndStart(js0: seq<Job>, acts0: seq<Action>, n: nat, failed: nat) returns (js: seq<Job>, acts: seq<Action>)
    requires Run(js0, acts0) && AllClean(acts0)
    requires var j := js0[|acts0|];
             j.status.PartiallyCompleted? && AllPresent(j.steps) && OnlyStages(j.steps) && NoneRunning(j.steps)
             && failed in j.steps && j.steps[failed].status.Failed?
             && forall k :: k in j.steps ==> (Done(j.steps[k].status) <==> k < n)
    ensures Run(js, acts) && AllClean(acts) && Midway(js[|acts|], n)
    ensures js[|acts|].mediaRemoved == js0[|acts0|].mediaRemoved
    ensures js[|acts|].preparations == js0[|acts0|].preparations
  {
    var j := js0[|acts0|];
    assert failed in ResetSet(j, None);
    js, acts := Extend(js0, acts0, Requeue(None, 0));
    js, acts := Extend(js, acts, Claim(0, 0));
    js, acts := Extend(js, acts, Start);
  }

  /** Power-on fails, the media is removed and the preparation reset; the job is claimed again. */
  lemma FailPowerOnAndRetry() returns (js: seq<Job>, acts: seq<Action>)
    ensures Run(js, acts) && AllClean(acts) && Midway(js[|acts|], PREPARE)
    ensures js[|acts|].mediaRemoved && js[|acts|].preparations == 1
  {
    js, acts := Drive(POWER_ON);
    js, acts := Extend(js, acts, Begin(POWER_ON));
    ReachableInv(js, acts, |acts|);
    PowerOnFailed(js[|acts|]);
    js, acts := Extend(js, acts, Fail(POWER_ON, true, false, true));
    js, acts := RetryAndStart(js, acts, PREPARE, POWER_ON);
  }

  lemma PowerOnFailed(j: Job)
    requires Inv(j) && j.attached && !j.mediaRemoved && POWER_ON in j.steps && j.steps[POWER_ON].status.Running?
    requires forall k :: k in j.steps ==> (Done(j.steps[k].status) <==> k < POWER_ON)
    ensures var r := FailStage(j, POWER_ON, true, false, true);
            r.mediaRemoved && r.preparations == j.preparations && NoneRunning(r.steps) && r.status.PartiallyCompleted?
            && r.steps.Keys == j.steps.Keys && r.steps[POWER_ON].status.Failed?
            && forall k :: k in r.steps ==> (Done(r.steps[k].status) <==> k < PREPARE)
  {
    assert DoneAt(j.steps, PREPARE) && DoneAt(j.steps, CREATE_VM);
    assert IsNext(j.steps, POWER_ON);
    assert !DoneAt(j.steps, CLEANUP);
  }

  /** The retry prepares again, and then the Windows installation fails.  Every removal vCenter is
      asked for succeeds, yet the job stops with the answer media attached, and
      `may_hold_unattended_media` denies it. */
  lemma SecondPreparationLeaksMedia() returns (js: seq<Job>, acts: seq<Action>)
    ensures Run(js, acts) && AllClean(acts)
    ensures var j := js[|acts|];
            j.status.PartiallyCompleted? && j.attached && !MayHoldMedia(j) && j.preparations == 2
  {
    js, acts := FailPowerOnAndRetry();
    js, acts := Advance(js, acts, PREPARE);
    js, acts := Advance(js, acts, POWER_ON);
    js, acts := Extend(js, acts, Begin(POWER_ON + 1));
    var j := js[|acts|];
    ReachableInv(js, acts, |acts|);
    js, acts := Extend(js, acts, Fail(POWER_ON + 1, true, false, true));
    FailureStatus(js, acts, |acts| - 1);
    FailMedia(j, POWER_ON + 1, true, false, true);
    ReachableInv(js, acts, |acts|);
    RecordedIffPreparedOnce(js, acts, |acts|);
  }

  /** Cancelled before its first claim, a job has no steps and can never be completed. */
  lemma CancelledBeforeClaimIsStuck() returns (js: seq<Job>, acts: seq<Action>)
    ensures Run(js, acts) && js[|acts|].status.Cancelled?
    ensures !CanRetry(js[|acts|]) && !Completable(js[|acts|])
  {
    js, acts := Extend([NewJob(SUBMISSION, 0)], [], Cancel(0));
    CompletableIff(js, acts, |acts|);
  }

  /** Interrupted between two stages, a job has no stage to retry, but cancelling it first helps. */
  lemma InterruptedBetweenStagesIsRefused() returns (js: seq<Job>, acts: seq<Action>)
    ensures Run(js, acts) && js[|acts|].status.Interrupted?
    ensures !CanRetry(js[|acts|]) && Completable(js[|acts|])
  {
    js, acts := Extend([NewJob(SUBMISSION, 0)], [], Claim(0, 0));
    js, acts := Extend(js, acts, Start);
    js, acts := Extend(js, acts, Park(true, false));
    assert forall k :: k in js[|acts|].steps ==> js[|acts|].steps[k].status.Pending?;
    assert 0 in js[|acts|].steps;
    CompletableIff(js, acts, |acts|);
  }
}
