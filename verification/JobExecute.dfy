/** The loop of `execute`, stage by stage, against an environment that decides what handlers and
    vCenter answer and when a user cancels.  It is shown to perform only transactions of JobModel. */
module JobExecute {
  import opened JobModel
  import opened JobInvariant

  datatype HandlerResult = Returned(outcome: StepStatus) | Raised(retryable: bool) | StoppedByUser

  /** `cancelBefore` and `cancelDuring`: a cancellation is committed before the job row is
      refreshed for this stage, or while its handler runs. */
  datatype StageEnv =
    StageEnv(cancelBefore: bool, cancelDuring: bool, result: HandlerResult, cleaned: bool, removed: bool)

  type Env = nat -> StageEnv

  function Flag(j: Job, cancel: bool): Job { j.(cancelRequested := j.cancelRequested || cancel) }

  function CancelsDuring(e: StageEnv): bool { e.cancelDuring || e.result.StoppedByUser? }

  /** The status of a stage whose handler returned: an unknown outcome counts as success. */
  function Outcome(o: StepStatus): StepStatus { if Done(o) then o else StepStatus.Succeeded }

  /** How the handler of the running stage ended, as it is recorded. */
  function EndStage(j: Job, i: nat, e: StageEnv): (r: Job)
    requires i in j.steps
    ensures r.steps.Keys == j.steps.Keys
  {
    match e.result
    case Returned(o) => FinishStage(j, i, Outcome(o))
    case Raised(retryable) => FailStage(j, i, retryable, e.cleaned, e.removed)
    case StoppedByUser => ApplyCancellation(MarkStopped(j, i, e.cleaned), e.removed)
  }

  /** `_run_stage`: begin, run the handler, record how it ended. */
  function RunStage(j: Job, i: nat, e: StageEnv): (r: Job)
    requires i in j.steps
    ensures r.steps.Keys == j.steps.Keys
  {
    EndStage(Flag(BeginStage(j, i), CancelsDuring(e)), i, e)
  }

  function ExecuteFrom(j: Job, i: nat, env: Env): Job
    decreases STAGES - i
  {
    if i >= STAGES then j.(status := JobStatus.Completed)
    else if i !in j.steps || Done(j.steps[i].status) then ExecuteFrom(j, i + 1, env)
    else
      var j0 := Flag(j, env(i).cancelBefore);
      if j0.cancelRequested then ApplyCancellation(j0, env(i).removed)
      else
        var j1 := RunStage(j0, i, env(i));
        if j1.steps[i].status.Failed? then j1 else ExecuteFrom(j1, i + 1, env)
  }

  /** What each handler can report; see `Possible`. */
  ghost predicate Plausible(env: Env) {
    forall i: nat :: env(i).result.Returned? ==> Possible(i, Outcome(env(i).result.outcome))
  }

  ghost predicate Performs(j: Job, acts: seq<Action>, r: Job)
    decreases |acts|
  {
    if acts == [] then r == j
    else Enabled(j, acts[0]) && Performs(Apply(j, acts[0]), acts[1..], r)
  }

  lemma PerformsOne(j: Job, a: Action)
    requires Enabled(j, a)
    ensures Performs(j, [a], Apply(j, a))
  {
    assert [a][1..] == [];
  }

  lemma {:induction false} PerformsMore(j: Job, acts: seq<Action>, m: Job, more: seq<Action>, r: Job)
    requires Performs(j, acts, m) && Performs(m, more, r)
    ensures Performs(j, acts + more, r)
    decreases |acts|
  {
    if acts == [] {
      assert acts + more == more;
    } else {
      PerformsMore(Apply(j, acts[0]), acts[1..], m, more, r);
      assert (acts + more)[1..] == acts[1..] + more;
    }
  }

  lemma {:induction false} PerformsKeepsInv(j: Job, acts: seq<Action>, r: Job)
    requires Inv(j) && Performs(j, acts, r)
    ensures Inv(r)
    decreases |acts|
  {
    if acts != [] {
      StepKeepsInv(j, acts[0]);
      PerformsKeepsInv(Apply(j, acts[0]), acts[1..], r);
    }
  }

  /** At the top of the loop: this worker executes the job and stages before `i` are done. */
  ghost predicate AtStage(j: Job, i: nat) {
    Inv(j) && j.status.Running? && j.inPipeline && NoneRunning(j.steps)
    && i <= STAGES && forall k: nat :: k < i ==> DoneAt(j.steps, k)
  }

  lemma CancelCommitted(j: Job, cancel: bool) returns (acts: seq<Action>)
    requires Inv(j) && j.status.Running?
    ensures Performs(j, acts, Flag(j, cancel)) && Inv(Flag(j, cancel))
  {
    acts := if cancel then [Cancel(0)] else [];
    if cancel {
      PerformsOne(j, Cancel(0));
      CancelKeepsInv(j, 0);
    }
  }

  lemma BeginPerformed(j: Job, i: nat, cancel: bool) returns (acts: seq<Action>)
    requires AtStage(j, i) && i < STAGES && !DoneAt(j.steps, i) && !j.cancelRequested
    ensures var j1 := Flag(BeginStage(j, i), cancel);
            Performs(j, acts, j1) && Inv(j1) && j1.steps[i].status.Running? && j1.status.Running? && j1.inPipeline
  {
    PerformsOne(j, Begin(i));
    StepKeepsInv(j, Begin(i));
    var more := CancelCommitted(BeginStage(j, i), cancel);
    PerformsMore(j, [Begin(i)], BeginStage(j, i), more, Flag(BeginStage(j, i), cancel));
    acts := [Begin(i)] + more;
  }

  /** After a user stop the loop goes on: it cancels a second time, unless that was the last stage. */
  lemma AfterStop(j: Job, i: nat, env: Env)
    requires Inv(j) && i in j.steps && j.steps[i].status.Running? && j.cancelRequested
    ensures ExecuteFrom(ApplyCancellation(MarkStopped(j, i, env(i).cleaned), env(i).removed), i + 1, env)
            == CancelStage(j, i, env(i).cleaned, env(i).removed, env(i + 1).removed)
  {
    assert IsNext(j.steps, i);
    var r := ApplyCancellation(MarkStopped(j, i, env(i).cleaned), env(i).removed);
    if i < LAST {
      assert !DoneAt(j.steps, i);
      NextStaysUndone(j, i, env(i).cleaned, env(i).removed);
      assert Flag(r, env(i + 1).cancelBefore) == r;
    }
  }

  lemma NextStaysUndone(j: Job, i: nat, cleaned: bool, removed: bool)
    requires Inv(j) && i in j.steps && j.steps[i].status.Running? && i < LAST
    ensures var r := ApplyCancellation(MarkStopped(j, i, cleaned), removed);
            i + 1 in r.steps && !DoneAt(r.steps, i + 1) && r.cancelRequested == j.cancelRequested
  {
    assert !DoneAt(j.steps, i);
    assert !DoneAt(j.steps, i + 1);
  }

  lemma FinishReachesNext(j: Job, i: nat, o: StepStatus)
    requires Inv(j) && Enabled(j, Finish(i, o))
    ensures AtStage(FinishStage(j, i, o), i + 1) && FinishStage(j, i, o).steps[i].status == o
  {
    FinishKeepsInv(j, i, o);
    assert IsNext(j.steps, i);
  }

  lemma CancelledNotFailed(j: Job, i: nat, removed: bool)
    requires i in j.steps && j.steps[i].status.Cancelled?
    ensures ApplyCancellation(j, removed).steps[i].status.Cancelled?
  {
  }

  /** Every execution of the loop is a sequence of the transactions above, so whatever holds of
      all runs holds of it. */
  lemma {:induction false} ExecuteRefines(j: Job, i: nat, env: Env) returns (acts: seq<Action>)
    requires AtStage(j, i) && Plausible(env)
    ensures Performs(j, acts, ExecuteFrom(j, i, env))
    decreases STAGES - i
  {
    if i == STAGES {
      acts := [Finalize];
      PerformsOne(j, Finalize);
    } else if DoneAt(j.steps, i) {
      acts := ExecuteRefines(j, i + 1, env);
    } else {
      var j0 := Flag(j, env(i).cancelBefore);
      var before := CancelCommitted(j, env(i).cancelBefore);
      if j0.cancelRequested {
        PerformsOne(j0, StopBetween(env(i).removed));
        PerformsMore(j, before, j0, [StopBetween(env(i).removed)], ExecuteFrom(j, i, env));
        acts := before + [StopBetween(env(i).removed)];
      } else {
        var rest := StageRefines(j0, i, env);
        PerformsMore(j, before, j0, rest, ExecuteFrom(j, i, env));
        acts := before + rest;
      }
    }
  }

  lemma {:induction false} StageRefines(j: Job, i: nat, env: Env) returns (acts: seq<Action>)
    requires AtStage(j, i) && Plausible(env) && i < STAGES && !DoneAt(j.steps, i) && !j.cancelRequested
    ensures Performs(j, acts, AfterStage(RunStage(j, i, env(i)), i, env))
    decreases STAGES - i, 0
  {
    var e := env(i);
    var begin := BeginPerformed(j, i, CancelsDuring(e));
    var j1 := Flag(BeginStage(j, i), CancelsDuring(e));
    var rest := HandlerRefines(j1, i, env);
    PerformsMore(j, begin, j1, rest, AfterStage(RunStage(j, i, e), i, env));
    acts := begin + rest;
  }

  function AfterStage(j: Job, i: nat, env: Env): Job
    requires i in j.steps
  {
    if j.steps[i].status.Failed? then j else ExecuteFrom(j, i + 1, env)
  }

  lemma {:induction false} HandlerRefines(j: Job, i: nat, env: Env) returns (acts: seq<Action>)
    requires Inv(j) && Plausible(env) && j.status.Running? && j.inPipeline
    requires i < STAGES && i in j.steps && j.steps[i].status.Running?
    requires env(i).result.StoppedByUser? ==> j.cancelRequested
    ensures Performs(j, acts, AfterStage(EndStage(j, i, env(i)), i, env))
    decreases STAGES - i, 0, 0
  {
    var e := env(i);
    match e.result
    case Returned(o) =>
      var r := FinishStage(j, i, Outcome(o));
      FinishReachesNext(j, i, Outcome(o));
      var rest := ExecuteRefines(r, i + 1, env);
      PerformsOne(j, Finish(i, Outcome(o)));
      PerformsMore(j, [Finish(i, Outcome(o))], r, rest, ExecuteFrom(r, i + 1, env));
      acts := [Finish(i, Outcome(o))] + rest;
    case Raised(retryable) => acts := RaisedRefines(j, i, env);
    case StoppedByUser => acts := StoppedRefines(j, i, env);
  }

  lemma RaisedRefines(j: Job, i: nat, env: Env) returns (acts: seq<Action>)
    requires j.status.Running? && j.inPipeline && i in j.steps && j.steps[i].status.Running?
    requires env(i).result.Raised?
    ensures Performs(j, acts, AfterStage(EndStage(j, i, env(i)), i, env))
  {
    var a := Fail(i, env(i).result.retryable, env(i).cleaned, env(i).removed);
    acts := [a];
    PerformsOne(j, a);
    assert Apply(j, a) == EndStage(j, i, env(i));
    assert Apply(j, a).steps[i].status.Failed?;
  }

  lemma StoppedRefines(j: Job, i: nat, env: Env) returns (acts: seq<Action>)
    requires Inv(j) && j.status.Running? && j.inPipeline && i in j.steps && j.steps[i].status.Running?
    requires env(i).result.StoppedByUser? && j.cancelRequested
    ensures Performs(j, acts, AfterStage(EndStage(j, i, env(i)), i, env))
  {
    var e := env(i);
    var a := Stop(i, e.cleaned, e.removed, env(i + 1).removed);
    acts := [a];
    PerformsOne(j, a);
    AfterStop(j, i, env);
    CancelledNotFailed(MarkStopped(j, i, e.cleaned), i, e.removed);
    assert Apply(j, a) == AfterStage(EndStage(j, i, e), i, env);
  }
}
