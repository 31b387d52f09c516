/** Whole runs of one job: any interleaving of its transactions, retries and interruptions. */
module JobRuns {
  import opened Options
  import opened JobModel
  import opened JobInvariant

  ghost predicate Run(js: seq<Job>, acts: seq<Action>) {
    && |js| == |acts| + 1
    && js[0] == NewJob(js[0].submission, js[0].queuedAt)
    && forall k: nat {:trigger acts[k]} :: k < |acts| ==> Enabled(js[k], acts[k]) && js[k + 1] == Apply(js[k], acts[k])
  }

  lemma Extend(js: seq<Job>, acts: seq<Action>, a: Action) returns (js': seq<Job>, acts': seq<Action>)
    requires Run(js, acts) && Enabled(js[|acts|], a)
    ensures Run(js', acts') && acts' == acts + [a] && |js'| == |js| + 1
    ensures js' == js + [Apply(js[|acts|], a)]
  {
    js', acts' := js + [Apply(js[|acts|], a)], acts + [a];
    forall k: nat | k < |acts'| ensures Enabled(js'[k], acts'[k]) && js'[k + 1] == Apply(js'[k], acts'[k]) {
      if k < |acts| {
        assert js'[k] == js[k] && acts'[k] == acts[k] && js'[k + 1] == js[k + 1];
      }
    }
  }

  lemma {:induction false} ReachableInv(js: seq<Job>, acts: seq<Action>, k: nat)
    requires Run(js, acts) && k < |js|
    ensures Inv(js[k])
  {
    if k == 0 {
      InitialInv(js[0].submission, js[0].queuedAt);
    } else {
      ReachableInv(js, acts, k - 1);
      StepKeepsInv(js[k - 1], acts[k - 1]);
    }
  }

  /** In every reachable state the done steps are exactly the first n stages, for some n. */
  lemma {:induction false} DoneStepsArePrefix(js: seq<Job>, acts: seq<Action>, k: nat) returns (n: nat)
    requires Run(js, acts) && k < |js|
    ensures n <= STAGES && forall i: nat :: DoneAt(js[k].steps, i) <==> i < n
  {
    ReachableInv(js, acts, k);
    var steps := js[k].steps;
    n := 0;
    while n < STAGES && DoneAt(steps, n)
      invariant n <= STAGES && forall i: nat :: i < n ==> DoneAt(steps, i)
    {
      n := n + 1;
    }
    if n < STAGES {
      forall i: nat | n <= i ensures !DoneAt(steps, i) {
        assert !DoneAt(steps, n);
      }
    }
  }

  // ---------------------------------------------------------------- completed work is never repeated

  lemma ReleaseKeepsDone(j: Job, removed: bool, i: nat)
    requires DoneAt(j.steps, i) && (i == PREPARE ==> Booted(j.steps))
    ensures DoneAt(Release(j, removed).steps, i)
    ensures Booted(j.steps) ==> Booted(Release(j, removed).steps)
  {
  }

  lemma FailKeepsDone(j: Job, i: nat, retryable: bool, cleaned: bool, removed: bool, d: nat)
    requires Enabled(j, Fail(i, retryable, cleaned, removed))
    requires DoneAt(j.steps, d) && (d == PREPARE ==> Booted(j.steps))
    ensures DoneAt(FailStage(j, i, retryable, cleaned, removed).steps, d)
  {
    var failed := MarkFailed(Cleaned(j, i, cleaned), i, retryable);
    assert Booted(j.steps) ==> Booted(failed.steps);
    ReleaseKeepsDone(failed, removed, d);
  }

  lemma ParkKeepsDone(j: Job, removed: bool, d: nat)
    requires DoneAt(j.steps, d) && (d == PREPARE ==> Booted(j.steps))
    ensures DoneAt(Interrupt(j, removed).steps, d)
  {
    ReleaseKeepsDone(j.(steps := FailRunning(j.steps), status := JobStatus.Interrupted, workerId := None,
                        heartbeatAt := None), removed, d);
  }

  lemma CancellationKeepsDone(j: Job, removed: bool, i: nat)
    requires DoneAt(j.steps, i) && (i == PREPARE ==> Booted(j.steps))
    ensures DoneAt(ApplyCancellation(j, removed).steps, i)
    ensures Booted(j.steps) ==> Booted(ApplyCancellation(j, removed).steps)
  {
  }

  lemma StopKeepsDone(j: Job, i: nat, cleaned: bool, removed: bool, again: bool, d: nat)
    requires Enabled(j, Stop(i, cleaned, removed, again))
    requires DoneAt(j.steps, d) && (d == PREPARE ==> Booted(j.steps))
    ensures DoneAt(CancelStage(j, i, cleaned, removed, again).steps, d)
  {
    var j0 := MarkStopped(j, i, cleaned);
    CancellationKeepsDone(j0, removed, d);
    CancellationKeepsDone(ApplyCancellation(j0, removed), again, d);
  }

  /** A transaction can take only the preparation stage out of the done set, and not once
      Windows Setup has been started. */
  lemma StepKeepsDone(j: Job, a: Action, i: nat)
    requires Inv(j) && Enabled(j, a) && DoneAt(j.steps, i)
    requires i != PREPARE || DoneAt(j.steps, POWER_ON)
    ensures DoneAt(Apply(j, a).steps, i)
  {
    assert DoneAt(j.steps, POWER_ON) ==> Booted(j.steps);
    match a
    case Stop(s, cleaned, removed, again) =>
      StopKeepsDone(j, s, cleaned, removed, again, i);
    case StopBetween(removed) => CancellationKeepsDone(j, removed, i);
    case Fail(s, retryable, cleaned, removed) => FailKeepsDone(j, s, retryable, cleaned, removed, i);
    case Park(removed, cleaned) => ParkKeepsDone(Detached(j, cleaned), removed, i);
    case _ =>
  }

  lemma {:induction false} StaysDone(js: seq<Job>, acts: seq<Action>, i: nat, k: nat, m: nat)
    requires Run(js, acts) && k <= m < |js|
    requires DoneAt(js[k].steps, i) && (i != PREPARE || DoneAt(js[k].steps, POWER_ON))
    ensures DoneAt(js[m].steps, i)
    decreases m
  {
    if k < m {
      StaysDone(js, acts, i, k, m - 1);
      if i == PREPARE {
        StaysDone(js, acts, POWER_ON, k, m - 1);
      }
      ReachableInv(js, acts, m - 1);
      StepKeepsDone(js[m - 1], acts[m - 1], i);
    }
  }

  /** How often stage `i` becomes done in a run. */
  ghost function Completions(js: seq<Job>, i: nat): nat {
    if |js| < 2 then 0
    else Completions(js[..|js| - 1], i)
         + if !DoneAt(js[|js| - 2].steps, i) && DoneAt(js[|js| - 1].steps, i) then 1 else 0
  }

  lemma {:induction false} CompletionsOfDone(js: seq<Job>, acts: seq<Action>, i: nat)
    requires Run(js, acts) && i != PREPARE
    ensures Completions(js, i) == if DoneAt(js[|acts|].steps, i) then 1 else 0
  {
    if |acts| > 0 {
      var n := |acts| - 1;
      assert js[..n + 1][..n + 1] == js[..n + 1];
      CompletionsOfDone(js[..n + 1], acts[..n], i);
      if DoneAt(js[n].steps, i) {
        StaysDone(js, acts, i, n, n + 1);
      }
    }
  }

  /** No completed stage is ever executed again, whatever is retried, interrupted or cancelled:
      each stage but the preparation completes at most once, and neither it nor, once Setup was
      started, the preparation is begun again. */
  lemma {:induction false} CompletedWorkIsNotRepeated(js: seq<Job>, acts: seq<Action>, i: nat, k: nat, m: nat)
    requires Run(js, acts) && k <= m < |acts| && DoneAt(js[k].steps, i)
    ensures i != PREPARE ==> Completions(js, i) == 1
    ensures i != PREPARE || DoneAt(js[k].steps, POWER_ON) ==> acts[m] != Begin(i)
  {
    if i != PREPARE {
      CompletionsOfDone(js, acts, i);
      StaysDone(js, acts, i, k, |acts|);
    }
    if i != PREPARE || DoneAt(js[k].steps, POWER_ON) {
      StaysDone(js, acts, i, k, m);
    }
  }

  // ---------------------------------------------------------------- how a job ends

  lemma CompletingActions(j: Job, a: Action)
    requires Inv(j) && Enabled(j, a) && !j.status.Completed? && Apply(j, a).status.Completed?
    ensures a.Finalize? || CancelledInLastStage(a)
  {
  }

  /** A job becomes COMPLETED either with every stage done, or by a cancellation that lands
      while the last stage is running, and then the last stage is not done. */
  lemma CompletionIsEarned(js: seq<Job>, acts: seq<Action>, k: nat)
    requires Run(js, acts) && k < |acts|
    requires !js[k].status.Completed? && js[k + 1].status.Completed?
    ensures AllPresent(js[k + 1].steps)
    ensures AllDone(js[k + 1].steps) <==> !acts[k].Stop?
  {
    ReachableInv(js, acts, k);
    CompletingActions(js[k], acts[k]);
    if acts[k].Stop? {
      LastStageCancelled(js[k], acts[k].removed);
      assert js[k + 1].steps[LAST].status.Cancelled?;
    }
  }

  ghost predicate CancelledInLastStage(a: Action) { a.Stop? && a.stage == LAST }

  /** COMPLETED means that all 26 stages are done, in every run without such a cancellation. */
  lemma {:induction false} CompletedMeansDone(js: seq<Job>, acts: seq<Action>, k: nat)
    requires Run(js, acts) && k < |js| && js[k].status.Completed?
    requires forall m: nat :: m < |acts| ==> !CancelledInLastStage(acts[m])
    ensures AllPresent(js[k].steps) && AllDone(js[k].steps)
  {
    if k > 0 {
      ReachableInv(js, acts, k - 1);
      if js[k - 1].status.Completed? {
        assert Enabled(js[k - 1], acts[k - 1]);
        CompletedMeansDone(js, acts, k - 1);
      } else {
        assert !CancelledInLastStage(acts[k - 1]);
        CompletionIsEarned(js, acts, k - 1);
      }
    }
  }

  /** A failing stage leaves the job partially completed exactly when the VM exists, and that is
      exactly when the stage comes after the creation of the VM. */
  lemma FailureStatus(js: seq<Job>, acts: seq<Action>, k: nat)
    requires Run(js, acts) && k < |acts| && acts[k].Fail?
    ensures js[k + 1].status == if acts[k].stage > CREATE_VM then JobStatus.PartiallyCompleted else JobStatus.Failed
  {
    ReachableInv(js, acts, k);
    var i := acts[k].stage;
    assert IsNext(js[k].steps, i);
    if i > CREATE_VM {
      assert DoneAt(js[k].steps, CREATE_VM);
    } else {
      assert !DoneAt(js[k].steps, i);
      assert !DoneAt(js[k].steps, CREATE_VM);
    }
  }
}
