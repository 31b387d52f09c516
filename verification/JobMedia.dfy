/** The answer ISO holds the administrator password in plain text, so it must not outlive a job
    that stops.  Where that holds, and where it does not. */
module JobMedia {
  import opened Options
  import opened JobModel
  import opened JobInvariant
  import opened JobRuns

  /** In every reachable state, media on the VM is recorded as such exactly while the preparation
      has succeeded only once: a second preparation inherits the old `media_removed` artifact. */
  lemma RecordedIffPreparedOnce(js: seq<Job>, acts: seq<Action>, k: nat)
    requires Run(js, acts) && k < |js| && js[k].attached
    ensures MayHoldMedia(js[k]) <==> js[k].preparations == 1
  {
    ReachableInv(js, acts, k);
    assert !DoneAt(js[k].steps, CLEANUP);
  }

  /** No removal fails and the pipeline does not crash. */
  predicate Clean(a: Action) {
    match a
    case Fail(_, _, _, removed) => removed
    case Stop(_, _, removed, _) => removed
    case StopBetween(removed) => removed
    case Park(removed, _) => removed
    case Crash(_) => false
    case _ => true
  }

  ghost predicate Executing(j: Job) { j.status.Running? && j.inPipeline }

  /** How a stop changes the media: `removed` is vCenter's answer to the first removal, `cleaned`
      says that the stopped clean-up stage had already removed it. */
  ghost predicate StopsMedia(j: Job, r: Job, removed: bool, cleaned: bool) {
    && r.preparations == j.preparations
    && (r.attached ==> j.attached)
    && (removed && r.attached ==> j.preparations >= 2)
    && (cleaned && j.datastorePath ==> !r.attached)
    && (j.preparations >= 2 && !cleaned ==> r.attached == j.attached)
  }

  lemma ReleaseMedia(j: Job, removed: bool)
    requires Inv(j) && NoneRunning(j.steps)
    ensures StopsMedia(j, Release(j, removed), removed, false)
  {
    assert j.attached ==> !DoneAt(j.steps, CLEANUP);
  }

  lemma CancellationMedia(j: Job, removed: bool)
    requires Inv(j) && NoneRunning(j.steps)
    ensures StopsMedia(j, ApplyCancellation(j, removed), removed, false)
  {
    ReleaseMedia(j, removed);
  }

  lemma FailMedia(j: Job, i: nat, retryable: bool, cleaned: bool, removed: bool)
    requires Inv(j) && Enabled(j, Fail(i, retryable, cleaned, removed))
    ensures StopsMedia(j, FailStage(j, i, retryable, cleaned, removed), removed, i == CLEANUP && cleaned)
  {
    CleanupKeepsInv(j);
    var j1 := Cleaned(j, i, cleaned);
    var failed := MarkFailed(j1, i, retryable);
    StopStageKeepsInv(j1, i, failed.steps[i], failed.status);
    ReleaseMedia(failed, removed);
  }

  lemma FirstCancellationMedia(j: Job, i: nat, removed: bool)
    requires Inv(j) && i in j.steps && j.steps[i].status.Running?
    ensures StopsMedia(j, ApplyCancellation(j.(steps := SetStatus(j.steps, i, StepStatus.Cancelled)), removed),
                       removed, false)
  {
    var j0 := j.(steps := SetStatus(j.steps, i, StepStatus.Cancelled));
    StopStageKeepsInv(j, i, j0.steps[i], JobStatus.Cancelled);
    CancellationMedia(j0.(status := JobStatus.Cancelled), removed);
    assert ApplyCancellation(j0, removed) == ApplyCancellation(j0.(status := JobStatus.Cancelled), removed);
  }

  lemma StopMedia(j: Job, i: nat, cleaned: bool, removed: bool, again: bool)
    requires Inv(j) && Enabled(j, Stop(i, cleaned, removed, again))
    ensures StopsMedia(j, CancelStage(j, i, cleaned, removed, again), removed, i == CLEANUP && cleaned)
  {
    CleanupKeepsInv(j);
    var j1 := Cleaned(j, i, cleaned);
    var j0 := MarkStopped(j, i, cleaned);
    FirstCancellationMedia(j1, i, removed);
    FirstCancellation(j1, i, removed);
    CancellationMedia(ApplyCancellation(j0, removed), again);
  }

  lemma ParkMedia(j: Job, removed: bool)
    requires Inv(j) && j.status.Running?
    ensures StopsMedia(j, Interrupt(j, removed), removed, false)
  {
    var j1 := j.(steps := FailRunning(j.steps), status := JobStatus.Interrupted, workerId := None, heartbeatAt := None);
    SameDoneKeeps(j.steps, j1.steps);
    ReleaseMedia(j1, removed);
  }

  /** Stopped in the clean-up stage, after it had removed the media. */
  predicate StoppedWhenClean(j: Job, a: Action) {
    ((a.Fail? || a.Stop?) && a.stage == CLEANUP && a.cleaned)
    || (a.Park? && a.cleaned && CLEANUP in j.steps && j.steps[CLEANUP].status.Running?)
  }

  lemma DetachedMedia(j: Job, removed: bool, cleaned: bool)
    requires Inv(j) && j.status.Running? && cleaned && CLEANUP in j.steps && j.steps[CLEANUP].status.Running?
    ensures StopsMedia(j, Interrupt(Detached(j, cleaned), removed), removed, true)
  {
    DetachedKeepsInv(j, cleaned);
    ParkMedia(Detached(j, cleaned), removed);
  }

  /** Every transaction that ends an execution, without a crash. */
  lemma StopActionMedia(j: Job, a: Action)
    requires Inv(j) && Enabled(j, a) && Clean(a) && Executing(j) && !Executing(Apply(j, a))
    ensures StopsMedia(j, Apply(j, a), true, StoppedWhenClean(j, a))
  {
    match a
    case Fail(i, retryable, cleaned, removed) => FailMedia(j, i, retryable, cleaned, removed);
    case Stop(i, cleaned, removed, again) => StopMedia(j, i, cleaned, removed, again);
    case StopBetween(removed) => CancellationMedia(j, removed);
    case Park(removed, cleaned) =>
      if StoppedWhenClean(j, a) {
        DetachedMedia(j, removed, cleaned);
      } else {
        ParkMedia(j, removed);
      }
    case Finalize => assert j.attached ==> !DoneAt(j.steps, CLEANUP);
    case _ =>
  }

  lemma IdleActionMedia(j: Job, a: Action)
    requires Inv(j) && Enabled(j, a) && !Executing(j)
    ensures var r := Apply(j, a);
            r.preparations == j.preparations && (r.attached ==> j.attached)
  {
  }

  /** If removals succeed and nothing crashes, a job that is not executing holds answer media only
      after preparing twice.  So with one preparation the password never outlives the job. */
  lemma {:induction false} StoppedJobsHoldNoMedia(js: seq<Job>, acts: seq<Action>, k: nat)
    requires Run(js, acts) && k < |js|
    requires forall m: nat :: m < |acts| ==> Clean(acts[m])
    ensures js[k].attached && !Executing(js[k]) ==> js[k].preparations >= 2
  {
    if k > 0 {
      StoppedJobsHoldNoMedia(js, acts, k - 1);
      ReachableInv(js, acts, k - 1);
      if !Executing(js[k - 1]) {
        IdleActionMedia(js[k - 1], acts[k - 1]);
      } else if !Executing(js[k]) {
        StopActionMedia(js[k - 1], acts[k - 1]);
      }
    }
  }

  /** The exact condition, checkable before the job stops: with successful removals, stopping an
      executing job that holds media leaves the media behind if and only if it was prepared more
      than once and the stopping stage had not already cleaned up. */
  lemma StopLeavesMediaIff(js: seq<Job>, acts: seq<Action>, k: nat)
    requires Run(js, acts) && k < |acts| && Clean(acts[k])
    requires js[k].attached && Executing(js[k]) && !Executing(js[k + 1])
    ensures js[k + 1].attached <==> js[k].preparations >= 2 && !StoppedWhenClean(js[k], acts[k])
  {
    ReachableInv(js, acts, k);
    StopActionMedia(js[k], acts[k]);
  }
}
