/** When an execution ends COMPLETED, told from what happens to it from outside. */
module JobOutcome {
  import opened JobModel
  import opened JobInvariant
  import opened JobExecute

  /** What the stage may meet if the job is to complete: no error and no cancellation, except that a
      cancellation during the last stage goes unnoticed. */
  predicate Harmless(i: nat, e: StageEnv) {
    !e.result.Raised? && !e.cancelBefore && (i < LAST ==> !CancelsDuring(e))
  }

  ghost predicate Smooth(j: Job, i: nat, env: Env) {
    forall m: nat {:trigger env(m)} :: i <= m < STAGES && !DoneAt(j.steps, m) ==> Harmless(m, env(m))
  }

  /** Stages behind one that is not done are not done either. */
  lemma LaterUndone(j: Job, i: nat, m: nat)
    requires Inv(j) && !DoneAt(j.steps, i) && i <= m
    ensures !DoneAt(j.steps, m)
  {
  }

  lemma CancelledEnds(j: Job, i: nat, env: Env)
    requires AtStage(j, i) && i < STAGES && !DoneAt(j.steps, i) && (j.cancelRequested || env(i).cancelBefore)
    ensures ExecuteFrom(j, i, env).status.Cancelled?
  {
  }

  lemma FailedEnds(j: Job, i: nat, env: Env)
    requires i < STAGES && i in j.steps && env(i).result.Raised?
    ensures var r := EndStage(j, i, env(i)); r.steps[i].status.Failed? && !r.status.Completed?
  {
  }

  /** The running stage was stopped by the user: COMPLETED only if it was the last one. */
  lemma StoppedEnds(j: Job, i: nat, env: Env)
    requires Inv(j) && i in j.steps && j.steps[i].status.Running? && j.cancelRequested && env(i).result.StoppedByUser?
    ensures AfterStage(EndStage(j, i, env(i)), i, env).status.Completed? <==> i == LAST
  {
    AfterStop(j, i, env);
    CancelledNotFailed(MarkStopped(j, i, env(i).cleaned), i, env(i).removed);
    assert IsNext(j.steps, i);
  }

  lemma FinishedStages(j: Job, i: nat, o: StepStatus, env: Env)
    requires Inv(j) && Enabled(j, Finish(i, o)) && Harmless(i, env(i))
    ensures Smooth(FinishStage(j, i, o), i + 1, env) <==> Smooth(j, i, env)
  {
    var r := FinishStage(j, i, o);
    forall m: nat ensures DoneAt(r.steps, m) <==> DoneAt(j.steps, m) || m == i {
    }
    forall m: nat | i <= m < STAGES && Smooth(r, i + 1, env) && !DoneAt(j.steps, m) ensures Harmless(m, env(m)) {
    }
  }

  lemma RunningStages(j: Job, i: nat, cancel: bool, env: Env)
    requires AtStage(j, i) && i < STAGES && !DoneAt(j.steps, i)
    ensures Smooth(Flag(BeginStage(j, i), cancel), i, env) <==> Smooth(j, i, env)
  {
    forall m: nat ensures DoneAt(BeginStage(j, i).steps, m) <==> DoneAt(j.steps, m) {
    }
  }

  /** An execution that nobody has cancelled yet ends COMPLETED if and only if, in the stages left,
      no handler fails, no cancellation is found before a stage and none arrives during a stage
      other than the last. */
  lemma {:induction false} CompletesIff(j: Job, i: nat, env: Env)
    requires AtStage(j, i) && Plausible(env) && !j.cancelRequested
    ensures ExecuteFrom(j, i, env).status.Completed? <==> Smooth(j, i, env)
    decreases STAGES - i, 1
  {
    if i < STAGES {
      if DoneAt(j.steps, i) {
        CompletesIff(j, i + 1, env);
        assert Smooth(j, i, env) <==> Smooth(j, i + 1, env);
      } else if env(i).cancelBefore {
        CancelledEnds(j, i, env);
        assert !Harmless(i, env(i));
      } else {
        StageCompletesIff(j, i, env);
      }
    }
  }

  /** The state in which the handler of the stage runs. */
  function InStage(j: Job, i: nat, e: StageEnv): Job
    requires i in j.steps
  {
    Flag(BeginStage(j, i), CancelsDuring(e))
  }

  lemma StageUnfolds(j: Job, i: nat, env: Env)
    requires AtStage(j, i) && !j.cancelRequested && i < STAGES && !DoneAt(j.steps, i) && !env(i).cancelBefore
    ensures ExecuteFrom(j, i, env) == AfterStage(EndStage(InStage(j, i, env(i)), i, env(i)), i, env)
  {
    assert Flag(j, false) == j;
  }

  lemma UndoneDecides(j: Job, i: nat, env: Env)
    requires i < STAGES && !DoneAt(j.steps, i)
    ensures Smooth(j, i, env) ==> Harmless(i, env(i))
    ensures i == LAST ==> (Smooth(j, i, env) <==> Harmless(i, env(i)))
  {
  }

  lemma {:induction false} StageCompletesIff(j: Job, i: nat, env: Env)
    requires AtStage(j, i) && Plausible(env) && !j.cancelRequested && i < STAGES
             && !DoneAt(j.steps, i) && !env(i).cancelBefore
    ensures ExecuteFrom(j, i, env).status.Completed? <==> Smooth(j, i, env)
    decreases STAGES - i, 0
  {
    StageUnfolds(j, i, env);
    UndoneDecides(j, i, env);
    var _ := BeginPerformed(j, i, CancelsDuring(env(i)));
    HandlerCompletesIff(InStage(j, i, env(i)), i, env);
    RunningStages(j, i, CancelsDuring(env(i)), env);
  }

  lemma {:induction false} HandlerCompletesIff(j: Job, i: nat, env: Env)
    requires Inv(j) && Plausible(env) && j.status.Running? && j.inPipeline && !env(i).cancelBefore
    requires i < STAGES && i in j.steps && j.steps[i].status.Running? && j.cancelRequested == CancelsDuring(env(i))
    ensures AfterStage(EndStage(j, i, env(i)), i, env).status.Completed? <==> Smooth(j, i, env)
    decreases STAGES - i, 0, 0
  {
    UndoneDecides(j, i, env);
    match env(i).result
    case Raised(_) => FailedEnds(j, i, env);
    case StoppedByUser => StoppedEnds(j, i, env);
    case Returned(o) => ReturnedCompletesIff(j, i, Outcome(o), env);
  }

  lemma {:induction false} ReturnedCompletesIff(j: Job, i: nat, o: StepStatus, env: Env)
    requires Inv(j) && Plausible(env) && Enabled(j, Finish(i, o)) && i < STAGES && !env(i).cancelBefore
    requires env(i).result.Returned? && o == Outcome(env(i).result.outcome)
             && j.cancelRequested == CancelsDuring(env(i))
    ensures ExecuteFrom(FinishStage(j, i, o), i + 1, env).status.Completed? <==> Smooth(j, i, env)
    decreases STAGES - i, 0, 0, 0
  {
    var r := FinishStage(j, i, o);
    assert IsNext(j.steps, i) && !DoneAt(j.steps, i);
    FinishReachesNext(j, i, o);
    if j.cancelRequested && i < LAST {
      LaterUndone(j, i, i + 1);
      CancelledEnds(r, i + 1, env);
      assert !Harmless(i, env(i));
    } else if j.cancelRequested {
      FinishedStages(j, i, o, env);
    } else {
      FinishedStages(j, i, o, env);
      CompletesIff(r, i + 1, env);
    }
  }
}
