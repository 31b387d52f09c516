/** The code that writes the job table, in the form it has in the source: loops over step rows
    and assignments to fields, one method per function.  Each method is proved to leave behind
    exactly what the transition of JobModel says, and every other job as it was. */
module JobStore {
  import opened Options
  import opened JobModel
  import opened JobExecute
  import opened JobFields

  type JobId = nat

  /** `steps` differs from `was` only below stage k, and there as `change` says. */
  ghost predicate ChangedBelow(was: Steps, steps: Steps, k: nat, change: (nat, Step) -> Step) {
    steps.Keys == was.Keys
    && forall m :: m in was ==> steps[m] == if m < k then change(m, was[m]) else was[m]
  }

  ghost predicate Increasing(s: seq<nat>, bound: nat) {
    (forall a, b :: 0 <= a < b < |s| ==> s[a] < s[b]) && forall a :: 0 <= a < |s| ==> s[a] < bound
  }

  function ResetStep(job: Job, key: Option<nat>, k: nat, s: Step): Step {
    if k in job.steps && Resettable(job, k) && Selected(key, k) then s.(status := StepStatus.Pending) else s
  }

  lemma ResetAll(job: Job, key: Option<nat>, steps: Steps)
    requires OnlyStages(job.steps)
    requires ChangedBelow(job.steps, steps, STAGES, (m: nat, s: Step) => ResetStep(job, key, m, s))
    ensures steps == ResetSteps(job, key)
  {
  }

  lemma NoneReset(job: Job, key: Option<nat>)
    requires OnlyStages(job.steps) && forall m: nat :: m < STAGES ==> m !in ResetSet(job, key)
    ensures ResetSet(job, key) == {}
  {
  }

  class JobTable {
    var rows: map<JobId, Job>

    constructor ()
      ensures rows == map[]
    {
      rows := map[];
    }

    // ------------------------------------------------------------ repositories/jobs.py

    /** A queued row that is due and that no other transaction has locked. */
    predicate Due(id: JobId, now: Time, locked: set<JobId>)
      reads this
    {
      id in rows && rows[id].status.Queued? && rows[id].queuedAt <= now && id !in locked
    }

    /** The oldest due rows, no more than `limit` of them. */
    ghost predicate OldestDue(c: seq<JobId>, limit: int, now: Time, locked: set<JobId>)
      reads this
    {
      && (forall i :: 0 <= i < |c| ==> Due(c[i], now, locked))
      && (forall i, j :: 0 <= i < j < |c| ==> c[i] != c[j] && rows[c[i]].queuedAt <= rows[c[j]].queuedAt)
      && (c == [] || |c| <= limit)
      && (|c| < limit ==> forall id :: Due(id, now, locked) ==> id in c)
      && (forall id, i :: Due(id, now, locked) && id !in c && 0 <= i < |c| ==> rows[c[i]].queuedAt <= rows[id].queuedAt)
    }

    /** `ORDER BY queued_at LIMIT limit FOR UPDATE SKIP LOCKED` */
    method SelectDue(limit: int, now: Time, locked: set<JobId>) returns (c: seq<JobId>)
      ensures OldestDue(c, limit, now, locked)
    {
      c := [];
      var rest := set id | id in rows && Due(id, now, locked);
      while |c| < limit && rest != {}
        invariant forall id :: id in rest <==> Due(id, now, locked) && id !in c
        invariant forall i :: 0 <= i < |c| ==> Due(c[i], now, locked)
        invariant forall i, j :: 0 <= i < j < |c| ==> c[i] != c[j] && rows[c[i]].queuedAt <= rows[c[j]].queuedAt
        invariant c == [] || |c| <= limit
        invariant forall id, i :: id in rest && 0 <= i < |c| ==> rows[c[i]].queuedAt <= rows[id].queuedAt
        decreases rest
      {
        OldestExists(rest);
        var id :| id in rest && forall b :: b in rest ==> rows[id].queuedAt <= rows[b].queuedAt;
        c, rest := c + [id], rest - {id};
      }
    }

    lemma {:induction false} OldestExists(ids: set<JobId>)
      requires ids != {} && ids <= rows.Keys
      ensures exists id :: id in ids && forall b :: b in ids ==> rows[id].queuedAt <= rows[b].queuedAt
      decreases ids
    {
      var id :| id in ids;
      if ids != {id} {
        assert ids - {id} != {};
        OldestExists(ids - {id});
        var a :| a in ids - {id} && forall b :: b in ids - {id} ==> rows[a].queuedAt <= rows[b].queuedAt;
        var least := if rows[a].queuedAt <= rows[id].queuedAt then a else id;
        assert least in ids && forall b :: b in ids ==> rows[least].queuedAt <= rows[b].queuedAt;
      }
    }

    /** `locked`: the rows other transactions hold at that moment. */
    method ClaimDueJobs(limit: int, worker: WorkerId, now: Time, locked: set<JobId>) returns (jobs: seq<JobId>)
      modifies this
      ensures old(OldestDue(jobs, limit, now, locked))
      ensures rows.Keys == old(rows).Keys
      ensures forall id :: id in jobs ==> id in old(rows) && Enabled(old(rows)[id], Claim(worker, now))
      ensures forall id :: id in rows ==>
                rows[id] == if id in jobs then Apply(old(rows)[id], Claim(worker, now)) else old(rows)[id]
      // which rows: queued, due, not locked, the oldest first, and all of them if there are fewer than `limit`
      ensures forall id :: id in jobs ==>
                && id in old(rows) && old(rows)[id].status == JobStatus.Queued && old(rows)[id].queuedAt <= now
                && id !in locked
      ensures forall i, j :: 0 <= i < j < |jobs| ==>
                && jobs[i] != jobs[j] && jobs[i] in old(rows) && jobs[j] in old(rows)
                && old(rows)[jobs[i]].queuedAt <= old(rows)[jobs[j]].queuedAt
      ensures jobs == [] || |jobs| <= limit
      ensures forall id :: id in old(rows) && id !in jobs && id !in locked
                           && old(rows)[id].status == JobStatus.Queued && old(rows)[id].queuedAt <= now ==>
                && |jobs| >= limit
                && forall k :: k in jobs ==> k in old(rows) && old(rows)[k].queuedAt <= old(rows)[id].queuedAt
      // what becomes of them
      ensures forall id :: id in jobs && id in old(rows) && id in rows ==>
                rows[id] == old(rows)[id].(status := JobStatus.Running, workerId := Some(worker),
                                           heartbeatAt := Some(now), inPipeline := false)
      ensures forall id :: id in old(rows) && id !in jobs ==> id in rows && rows[id] == old(rows)[id]
    {
      if limit <= 0 {
        return [];
      }
      jobs := SelectDue(limit, now, locked);
      MarkClaimed(jobs, worker, now);
    }

    /** The loop over the selected rows. */
    method MarkClaimed(jobs: seq<JobId>, worker: WorkerId, now: Time)
      requires forall i :: 0 <= i < |jobs| ==> jobs[i] in rows && Enabled(rows[jobs[i]], Claim(worker, now))
      requires forall i, j :: 0 <= i < j < |jobs| ==> jobs[i] != jobs[j]
      modifies this
      ensures rows.Keys == old(rows).Keys
      ensures forall id :: id in rows ==>
                rows[id] == if id in jobs then Apply(old(rows)[id], Claim(worker, now)) else old(rows)[id]
    {
      for i := 0 to |jobs|
        invariant rows.Keys == old(rows).Keys
        invariant forall id :: id in rows ==>
                    rows[id] == if id in jobs[..i] then Apply(old(rows)[id], Claim(worker, now)) else old(rows)[id]
      {
        var id := jobs[i];
        assert id !in jobs[..i];
        rows := rows[id := rows[id].(status := JobStatus.Running, workerId := Some(worker),
                                     heartbeatAt := Some(now), inPipeline := false)];
        assert jobs[..i + 1] == jobs[..i] + [id];
      }
      assert jobs[..|jobs|] == jobs;
    }

    /** The cancel flag while this worker owns the running job; `Some(false)` once it finished the
        job itself; `None` when it no longer owns it. */
    method Heartbeat(id: JobId, worker: WorkerId, now: Time) returns (cancel: Option<bool>)
      modifies this
      ensures var owned := id in old(rows) && old(rows)[id].status.Running? && old(rows)[id].workerId == Some(worker);
              rows == (if owned then old(rows)[id := Apply(old(rows)[id], Beat(now))] else old(rows))
              && (owned ==> cancel == Some(old(rows)[id].cancelRequested)
                            && rows == old(rows)[id := old(rows)[id].(heartbeatAt := Some(now))])
              && (!owned ==> cancel == if id in rows && rows[id].workerId == Some(worker) && Terminal(rows[id].status)
                                       then Some(false) else None)
    {
      if id in rows && rows[id].status.Running? && rows[id].workerId == Some(worker) {
        rows := rows[id := rows[id].(heartbeatAt := Some(now))];
        return Some(rows[id].cancelRequested);
      }
      if id in rows && rows[id].workerId == Some(worker) && Terminal(rows[id].status) {
        return Some(false);
      }
      return None;
    }

    method EnsureSteps(id: JobId)
      requires id in rows
      modifies this
      ensures rows == old(rows)[id := old(rows)[id].(steps := JobModel.EnsureSteps(old(rows)[id].steps))]
    {
      var existing := rows[id].steps;
      var steps: Steps := existing;
      for k: nat := 0 to STAGES
        invariant forall m: nat :: m in steps <==> m in existing || m < k
        invariant forall m :: m in steps ==> steps[m] == if m in existing then existing[m] else NewStep(m)
      {
        if k !in existing {
          steps := steps[k := NewStep(k)];
        }
      }
      assert steps == JobModel.EnsureSteps(existing);
      rows := rows[id := rows[id].(steps := steps)];
    }

    /** The positions of the steps put back to PENDING, in stage order. */
    method ResetForRetry(id: JobId, key: Option<nat>, now: Time) returns (reset: seq<nat>)
      requires id in rows && OnlyStages(rows[id].steps)
      modifies this
      ensures rows == old(rows)[id := Retry(old(rows)[id], key, now)]
      ensures forall k :: k in reset <==> k in ResetSet(old(rows)[id], key)
      ensures Increasing(reset, STAGES)
    {
      var job := rows[id];
      var steps: Steps := job.steps;
      reset := [];
      for k: nat := 0 to STAGES
        invariant ChangedBelow(job.steps, steps, k, (m: nat, s: Step) => ResetStep(job, key, m, s))
        invariant forall m: nat :: m in reset <==> m < k && m in ResetSet(job, key)
        invariant Increasing(reset, k)
      {
        if k in steps {
          var s := steps[k].status;
          var eligible := (s.Failed? || s.Cancelled? || s.Running?) && (!s.Running? || job.status.Interrupted?);
          if eligible && (key.None? || k == key.value) {
            steps := steps[k := steps[k].(status := StepStatus.Pending)];
            reset := reset + [k];
          }
        }
      }
      ResetAll(job, key, steps);
      if reset != [] {
        assert reset[0] in reset;
        rows := rows[id := job.(steps := steps, status := JobStatus.Queued, cancelRequested := false,
                                workerId := None, heartbeatAt := None, queuedAt := now)];
      } else {
        NoneReset(job, key);
      }
    }

    method CancelOpenSteps(id: JobId)
      requires id in rows && OnlyStages(rows[id].steps)
      modifies this
      ensures rows == old(rows)[id := old(rows)[id].(steps := CancelOpen(old(rows)[id].steps))]
    {
      var was := rows[id].steps;
      var steps: Steps := was;
      for k: nat := 0 to STAGES
        invariant ChangedBelow(was, steps, k, (m: nat, s: Step) =>
                    if Open(s.status) then s.(status := StepStatus.Cancelled) else s)
      {
        if k in steps && (steps[k].status.Pending? || steps[k].status.Running?) {
          steps := steps[k := steps[k].(status := StepStatus.Cancelled)];
        }
      }
      assert steps == CancelOpen(was);
      rows := rows[id := rows[id].(steps := steps)];
    }

    /** The cancel endpoint: hand over, finalise or flag the job, or refuse because it has ended. */
    method CancelJob(id: JobId, now: Time) returns (ok: bool)
      requires id in rows && OnlyStages(rows[id].steps)
      modifies this
      ensures ok <==> !Terminal(old(rows)[id].status)
      ensures rows == if ok then old(rows)[id := RequestCancel(old(rows)[id], now)] else old(rows)
    {
      if rows[id].status.Interrupted? && MayHoldMedia(rows[id]) {
        rows := rows[id := rows[id].(cancelRequested := true, status := JobStatus.Queued, queuedAt := now)];
      } else if Terminal(rows[id].status) {
        return false;
      } else {
        rows := rows[id := rows[id].(cancelRequested := true)];
        if rows[id].status.Queued? || rows[id].status.Interrupted? {
          rows := rows[id := rows[id].(status := JobStatus.Cancelled)];
          CancelOpenSteps(id);
        }
      }
      return true;
    }

    // ------------------------------------------------------------ workers/stages.py

    method ReleaseUnattendedMedia(id: JobId, removed: bool) returns (released: bool)
      requires id in rows
      modifies this
      ensures rows == old(rows)[id := Release(old(rows)[id], removed)]
      ensures released <==> PREPARE in old(rows)[id].steps && MayHoldMedia(old(rows)[id]) && removed
    {
      var job := rows[id];
      if PREPARE !in job.steps {
        return false;
      }
      if !job.datastorePath || job.mediaRemoved {
        return false;
      }
      if CLEANUP in job.steps && job.steps[CLEANUP].status.Succeeded? {
        return false;
      }
      if !removed {
        return false;
      }
      job := job.(attached := false, mediaRemoved := true);
      var booted := POWER_ON in job.steps
                    && (job.steps[POWER_ON].status.Succeeded? || job.steps[POWER_ON].status.Skipped?);
      if job.steps[PREPARE].status.Succeeded? && !booted {
        job := job.(steps := job.steps[PREPARE := job.steps[PREPARE].(status := StepStatus.Pending)]);
      }
      rows := rows[id := job];
      return true;
    }

    // ------------------------------------------------------------ workers/engine.py

    method FailBeforePipeline(id: JobId)
      requires id in rows && OnlyStages(rows[id].steps)
      modifies this
      ensures rows == old(rows)[id := JobModel.FailBeforePipeline(old(rows)[id])]
    {
      rows := rows[id := rows[id].(status := JobStatus.Failed, workerId := None)];
      CancelOpenSteps(id);
    }

    /** `cleaned`: the stopped worker had already removed the media. */
    method Interrupt(id: JobId, removed: bool, cleaned: bool)
      requires id in rows && OnlyStages(rows[id].steps)
      modifies this
      ensures rows == old(rows)[id := JobModel.Interrupt(Detached(old(rows)[id], cleaned), removed)]
    {
      rows := rows[id := Detached(rows[id], cleaned)];
      var was := rows[id].steps;
      var steps: Steps := was;
      for k: nat := 0 to STAGES
        invariant ChangedBelow(was, steps, k, (m: nat, s: Step) =>
                    if s.status.Running? then s.(status := StepStatus.Failed, retryable := true) else s)
      {
        if k in steps && steps[k].status.Running? {
          steps := steps[k := steps[k].(status := StepStatus.Failed, retryable := true)];
        }
      }
      assert steps == FailRunning(was);
      rows := rows[id := rows[id].(steps := steps, status := JobStatus.Interrupted,
                                   workerId := None, heartbeatAt := None)];
      var _ := ReleaseUnattendedMedia(id, removed);
    }

    // ------------------------------------------------------------ workers/pipeline.py

    method ApplyCancellation(id: JobId, removed: bool)
      requires id in rows && OnlyStages(rows[id].steps)
      modifies this
      ensures rows == old(rows)[id := JobModel.ApplyCancellation(old(rows)[id], removed)]
    {
      var _ := ReleaseUnattendedMedia(id, removed);
      CancelOpenSteps(id);
      rows := rows[id := rows[id].(status := JobStatus.Cancelled)];
    }

    method HandleFailure(id: JobId, stage: nat, retryable: bool, removed: bool)
      requires id in rows && stage in rows[id].steps
      modifies this
      ensures rows == old(rows)[id := Release(MarkFailed(old(rows)[id], stage, retryable), removed)]
    {
      var job := rows[id];
      job := job.(steps := job.steps[stage := job.steps[stage].(status := StepStatus.Failed, retryable := retryable)]);
      var vmCreated := CREATE_VM in job.steps
                       && (job.steps[CREATE_VM].status.Succeeded? || job.steps[CREATE_VM].status.Skipped?);
      job := job.(status := if vmCreated then JobStatus.PartiallyCompleted else JobStatus.Failed);
      assert job == MarkFailed(rows[id], stage, retryable);
      rows := rows[id := job];
      var _ := ReleaseUnattendedMedia(id, removed);
    }

    /** The row changes a returned handler leads to, its own ones on the VM and the media included. */
    method RecordOutcome(id: JobId, stage: nat, outcome: StepStatus)
      requires id in rows && stage in rows[id].steps
      modifies this
      ensures rows == old(rows)[id := FinishStage(old(rows)[id], stage, Outcome(outcome))]
      ensures stage in rows[id].steps
              && (Done(outcome) ==> rows[id].steps[stage].status == outcome)
              && (!Done(outcome) ==> rows[id].steps[stage].status == StepStatus.Succeeded)
    {
      var job := WithOutcome(rows[id], stage, outcome);
      rows := rows[id := job];
    }

    static method WithOutcome(job: Job, stage: nat, outcome: StepStatus) returns (r: Job)
      requires stage in job.steps
      ensures r == FinishStage(job, stage, Outcome(outcome)) && stage in r.steps
      ensures Done(outcome) ==> r.steps[stage].status == outcome
      ensures !Done(outcome) ==> r.steps[stage].status == StepStatus.Succeeded
    {
      FinishMeans(job, stage, Outcome(outcome));
      r := job;
      if stage == PREPARE {  // the media is attached, and its path merged into the artifacts
        r := r.(attached := true, datastorePath := true, preparations := r.preparations + 1);
      } else if stage == CLEANUP && r.datastorePath {
        r := r.(attached := false, mediaRemoved := true);
      }
      var status := if Done(outcome) then outcome else StepStatus.Succeeded;
      r := r.(steps := r.steps[stage := r.steps[stage].(status := status)]);
    }

    /** Begin the stage, let the handler act on the VM, record how it ended. */
    method RunStage(id: JobId, stage: nat, e: StageEnv)
      requires id in rows && stage in rows[id].steps && OnlyStages(rows[id].steps)
      modifies this
      ensures rows == old(rows)[id := JobExecute.RunStage(old(rows)[id], stage, e)]
      ensures EndsAs(old(rows)[id].steps[stage], rows[id], stage, e)
    {
      RunStageMeans(rows[id], stage, e);
      BeginStage(id, stage, CancelsDuring(e));
      EndStage(id, stage, e);
    }

    /** `cancel`: a cancellation that the API commits while the handler runs. */
    method BeginStage(id: JobId, stage: nat, cancel: bool)
      requires id in rows && stage in rows[id].steps
      modifies this
      ensures rows == old(rows)[id := Flag(JobModel.BeginStage(old(rows)[id], stage), cancel)]
    {
      var job := rows[id];
      var step := job.steps[stage];
      job := job.(steps := job.steps[stage := step.(status := StepStatus.Running, attempt := step.attempt + 1)]);
      if cancel {
        job := job.(cancelRequested := true);
      }
      assert job == Flag(JobModel.BeginStage(rows[id], stage), cancel);
      rows := rows[id := job];
    }

    method EndStage(id: JobId, stage: nat, e: StageEnv)
      requires id in rows && stage in rows[id].steps && OnlyStages(rows[id].steps)
      modifies this
      ensures rows == old(rows)[id := JobExecute.EndStage(old(rows)[id], stage, e)]
    {
      match e.result {
        case StoppedByUser =>
          var job := Cleaned(rows[id], stage, e.cleaned);
          rows := rows[id := job.(steps := job.steps[stage := job.steps[stage].(status := StepStatus.Cancelled)])];
          ApplyCancellation(id, e.removed);
        case Raised(retryable) =>
          rows := rows[id := Cleaned(rows[id], stage, e.cleaned)];
          HandleFailure(id, stage, retryable, e.removed);
        case Returned(outcome) =>
          RecordOutcome(id, stage, outcome);
      }
    }

    method FinalizeSuccess(id: JobId)
      requires id in rows
      modifies this
      ensures rows == old(rows)[id := old(rows)[id].(status := JobStatus.Completed)]
    {
      rows := rows[id := rows[id].(status := JobStatus.Completed)];
    }

    /** One turn of the stage loop; `stopped` when `execute` returns in it. */
    method ExecuteStage(id: JobId, i: nat, env: Env) returns (stopped: bool)
      requires id in rows && OnlyStages(rows[id].steps) && i < STAGES
      modifies this
      ensures id in rows && rows == old(rows)[id := rows[id]] && OnlyStages(rows[id].steps)
      ensures ExecuteFrom(old(rows)[id], i, env) == if stopped then rows[id] else ExecuteFrom(rows[id], i + 1, env)
    {
      if i in rows[id].steps {
        var s := rows[id].steps[i].status;
        if !(s.Succeeded? || s.Skipped? || s.Warning? || s.NotApplicable?) {
          if env(i).cancelBefore {  // committed by the API before the row is refreshed
            rows := rows[id := rows[id].(cancelRequested := true)];
          }
          assert rows[id] == Flag(old(rows)[id], env(i).cancelBefore);
          if rows[id].cancelRequested {
            ApplyCancellation(id, env(i).removed);
            return true;
          }
          RunStage(id, i, env(i));
          return rows[id].steps[i].status.Failed?;
        }
      }
      return false;
    }

    /** The stage loop; `env` decides every answer from outside. */
    method Execute(id: JobId, env: Env)
      requires id in rows && OnlyStages(rows[id].steps)
      modifies this
      ensures rows == old(rows)[id := ExecuteFrom(old(rows)[id], 0, env)]
      // where nothing disturbs it, each stage that was not done carries its handler's own outcome
      ensures !old(rows)[id].cancelRequested && Answered(old(rows)[id], 0, STAGES, env) ==>
                && rows[id].status == JobStatus.Completed
                && Passed(old(rows)[id], rows[id].(status := old(rows)[id].status), 0, STAGES, env)
    {
      if !rows[id].cancelRequested && Answered(rows[id], 0, STAGES, env) {
        UndisturbedExecution(rows[id], env);
      }
      for i: nat := 0 to STAGES
        invariant id in rows && rows == old(rows)[id := rows[id]] && OnlyStages(rows[id].steps)
        invariant ExecuteFrom(old(rows)[id], 0, env) == ExecuteFrom(rows[id], i, env)
      {
        var stopped := ExecuteStage(id, i, env);
        if stopped {
          return;
        }
      }
      FinalizeSuccess(id);
    }
  }
}
