/** Windows Setup reads its answers from the media the preparation attaches: it is never started
    without them, whatever was retried, interrupted or cancelled before. */
module JobSetup {
  import opened Options
  import opened JobModel
  import opened JobInvariant
  import opened JobRuns

  /** Prepared but not powered on: the VM holds the answer media. */
  ghost predicate Ready(j: Job) { DoneAt(j.steps, PREPARE) && !DoneAt(j.steps, POWER_ON) ==> j.attached }

  lemma ReleaseKeepsReady(j: Job, removed: bool)
    requires Outcomes(j.steps) && Ready(j)
    ensures Ready(Release(j, removed)) && Outcomes(Release(j, removed).steps)
  {
  }

  lemma CancelOpenKeepsReady(j: Job)
    requires Ready(j)
    ensures Ready(j.(steps := CancelOpen(j.steps)))
  {
  }

  lemma CancellationKeepsReady(j: Job, removed: bool)
    requires Outcomes(j.steps) && Ready(j)
    ensures Ready(ApplyCancellation(j, removed)) && Outcomes(ApplyCancellation(j, removed).steps)
  {
    ReleaseKeepsReady(j, removed);
    CancelOpenKeepsReady(Release(j, removed));
  }

  lemma CleanedKeepsReady(j: Job, i: nat, cleaned: bool)
    requires Inv(j) && i in j.steps && j.steps[i].status.Running? && Ready(j)
    ensures Ready(Cleaned(j, i, cleaned))
  {
    assert IsNext(j.steps, i);
    assert i == CLEANUP ==> DoneAt(j.steps, POWER_ON);
  }

  lemma StopKeepsReady(j: Job, i: nat, cleaned: bool, removed: bool, again: bool)
    requires Inv(j) && i in j.steps && j.steps[i].status.Running? && Ready(j)
    ensures Ready(CancelStage(j, i, cleaned, removed, again))
  {
    CleanedKeepsReady(j, i, cleaned);
    var stopped := MarkStopped(j, i, cleaned);
    CancellationKeepsReady(stopped, removed);
    CancellationKeepsReady(ApplyCancellation(stopped, removed), again);
  }

  lemma FailKeepsReady(j: Job, i: nat, retryable: bool, cleaned: bool, removed: bool)
    requires Inv(j) && i in j.steps && j.steps[i].status.Running? && Ready(j)
    ensures Ready(FailStage(j, i, retryable, cleaned, removed))
  {
    CleanedKeepsReady(j, i, cleaned);
    ReleaseKeepsReady(MarkFailed(Cleaned(j, i, cleaned), i, retryable), removed);
  }

  lemma FinishKeepsReady(j: Job, i: nat, o: StepStatus)
    requires Inv(j) && Enabled(j, Finish(i, o)) && Ready(j)
    ensures Ready(FinishStage(j, i, o))
  {
    assert IsNext(j.steps, i);
    assert i == CLEANUP ==> DoneAt(j.steps, POWER_ON);
  }

  lemma ParkKeepsReady(j: Job, removed: bool)
    requires Inv(j) && Ready(j)
    ensures Ready(Interrupt(j, removed))
  {
    ReleaseKeepsReady(j.(steps := FailRunning(j.steps), status := JobStatus.Interrupted, workerId := None,
                         heartbeatAt := None), removed);
  }

  lemma DetachedKeepsReady(j: Job, cleaned: bool)
    requires Inv(j) && Ready(j)
    ensures Ready(Detached(j, cleaned))
  {
    if CLEANUP in j.steps && j.steps[CLEANUP].status.Running? {
      assert IsNext(j.steps, CLEANUP);
      assert DoneAt(j.steps, POWER_ON);
    }
  }

  lemma StepKeepsReady(j: Job, a: Action)
    requires Inv(j) && Enabled(j, a) && Ready(j)
    ensures Ready(Apply(j, a))
  {
    match a
    case Finish(i, o) => FinishKeepsReady(j, i, o);
    case Fail(i, retryable, cleaned, removed) => FailKeepsReady(j, i, retryable, cleaned, removed);
    case Stop(i, cleaned, removed, again) => StopKeepsReady(j, i, cleaned, removed, again);
    case StopBetween(removed) => CancellationKeepsReady(j, removed);
    case Crash(cleaned) => DetachedKeepsReady(j, cleaned);
    case Park(removed, cleaned) =>
      DetachedKeepsInv(j, cleaned);
      DetachedKeepsReady(j, cleaned);
      ParkKeepsReady(Detached(j, cleaned), removed);
    case _ =>
  }

  lemma {:induction false} AlwaysReady(js: seq<Job>, acts: seq<Action>, k: nat)
    requires Run(js, acts) && k < |js|
    ensures Ready(js[k])
  {
    if k > 0 {
      AlwaysReady(js, acts, k - 1);
      ReachableInv(js, acts, k - 1);
      StepKeepsReady(js[k - 1], acts[k - 1]);
    }
  }

  /** In every run the power-on stage begins with the answer media attached. */
  lemma SetupStartsWithMedia(js: seq<Job>, acts: seq<Action>, k: nat)
    requires Run(js, acts) && k < |acts| && acts[k] == Begin(POWER_ON)
    ensures js[k].attached
  {
    ReachableInv(js, acts, k);
    AlwaysReady(js, acts, k);
    assert DoneAt(js[k].steps, PREPARE);
  }
}
