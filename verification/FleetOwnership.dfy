/** Which worker runs which job: ownership, capacity and liveness over whole histories. */
module FleetOwnership {
  import opened Options
  import opened JobModel
  import opened JobInvariant
  import opened JobRuns
  import opened Fleet

  // ---------------------------------------------------------------- one job of the fleet

  /** What an event does to one job. */
  function ActionOn(w: World, e: Event, id: JobId): Action
    requires id in w.jobs
  {
    match e
    case Claims(wid, b, now) => if b == id then Claim(wid, now) else Elsewhere
    case Works(_, _, b, a) => if b == id then a else Elsewhere
    case Reaps(_, b, _, removed, cleaned) => if b == id then Park(removed, cleaned) else Elsewhere
    case Retries(b, key, now) =>
      if b == id && RetryStages(w, id, key, now).1.Requeued? then Requeue(key, now) else Elsewhere
    case Cancels(b, now) => if b == id && !Terminal(w.jobs[id].status) then Cancel(now) else Elsewhere
    case _ => Elsewhere
  }

  lemma EventActsOnJob(w: World, e: Event, timeout: Time, id: JobId)
    requires CanHappen(w, e, timeout) && id in w.jobs && id < w.nextJob
    ensures id in After(w, e, timeout).jobs
    ensures Enabled(w.jobs[id], ActionOn(w, e, id))
    ensures After(w, e, timeout).jobs[id] == Apply(w.jobs[id], ActionOn(w, e, id))
  {
  }

  /** The states one job goes through in any history of the fleet are a run of that job, so every
      theorem about runs holds of every job under any interleaving with the others. */
  lemma {:induction false} JobOfFleetRuns(ws: seq<World>, es: seq<Event>, timeout: Time, k: nat, id: JobId)
    returns (js: seq<Job>, acts: seq<Action>)
    requires History(ws, es, timeout) && k < |ws| && id in ws[k].jobs
    ensures Run(js, acts) && js[|acts|] == ws[k].jobs[id]
  {
    var w, e := ws[k - 1], es[k - 1];
    assert CanHappen(w, e, timeout) && ws[k] == After(w, e, timeout);
    ReservationsAreExclusive(ws, es, timeout, k - 1);
    if id in w.jobs {
      js, acts := JobOfFleetRuns(ws, es, timeout, k - 1, id);
      EventActsOnJob(w, e, timeout, id);
      js, acts := Extend(js, acts, ActionOn(w, e, id));
    } else {
      NewJobsAreFresh(w, e, timeout, id);
      js, acts := [ws[k].jobs[id]], [];
    }
  }

  lemma NewJobsAreFresh(w: World, e: Event, timeout: Time, id: JobId)
    requires CanHappen(w, e, timeout) && id !in w.jobs && id in After(w, e, timeout).jobs
    ensures var j := After(w, e, timeout).jobs[id]; j == NewJob(j.submission, j.queuedAt)
  {
  }

  // ---------------------------------------------------------------- ownership

  ghost predicate RunningOn(w: World, id: JobId, wid: WorkerId) {
    id in w.jobs && w.jobs[id].status.Running? && w.jobs[id].workerId == Some(wid)
  }

  ghost function Mine(w: World, wid: WorkerId): set<JobId> {
    set id | id in w.jobs && RunningOn(w, id, wid)
  }

  /** In every history a running job has an owner and a heartbeat, a queued or interrupted one has
      neither. */
  lemma OwnershipAlways(ws: seq<World>, es: seq<Event>, timeout: Time, k: nat, id: JobId)
    requires History(ws, es, timeout) && k < |ws| && id in ws[k].jobs
    ensures Ownership(ws[k].jobs[id])
  {
    var js, acts := JobOfFleetRuns(ws, es, timeout, k, id);
    ReachableInv(js, acts, |acts|);
  }

  // ---------------------------------------------------------------- what every event keeps

  ghost predicate WorkerOk(k: Worker, nextTask: TaskId) {
    && |k.tasks| <= k.concurrency
    && (forall id :: id in k.tasks ==> k.tasks[id] in k.unfinished && k.unfinished[k.tasks[id]] == id)
    && (forall t :: t in k.unfinished ==> t < nextTask)
  }

  /** Task numbers are used once, and a running job was claimed by some task. */
  ghost predicate TasksOk(w: World) {
    && (forall wid :: wid in w.workers ==> WorkerOk(w.workers[wid], w.nextTask))
    && (forall wid :: wid in w.workers ==> w.workers[wid].tasks.Keys <= w.jobs.Keys)
    && (forall id :: id in w.jobs && w.jobs[id].status.Running? ==> id in w.holder && w.holder[id] < w.nextTask)
  }

  /** The task dictionary is exact: it names every unfinished task, and for every running job of the
      worker the task that runs it. */
  ghost predicate Tracked(w: World, wid: WorkerId)
    requires wid in w.workers
  {
    var k := w.workers[wid];
    && (forall t :: t in k.unfinished ==> k.unfinished[t] in k.tasks && k.tasks[k.unfinished[t]] == t)
    && (forall id :: RunningOn(w, id, wid) ==> id in k.tasks && id in w.holder && k.tasks[id] == w.holder[id])
  }

  ghost predicate AllTracked(w: World) { forall wid :: wid in w.workers ==> Tracked(w, wid) }

  /** The worker does not claim a job whose previous task it is still holding, and no task ends
      while the job it runs is RUNNING. */
  ghost predicate Careful(w: World, e: Event) {
    match e
    case Claims(wid, id, _) => wid in w.workers && id !in w.workers[wid].tasks
    case Finishes(wid, t) =>
      wid in w.workers && t in w.workers[wid].unfinished && !Runs(w, wid, w.workers[wid].unfinished[t], t)
    case _ => true
  }

  lemma ReleaseKeepsOwner(j: Job, removed: bool)
    ensures var r := Release(j, removed);
            r.status == j.status && r.workerId == j.workerId && r.heartbeatAt == j.heartbeatAt
  {
  }

  lemma StoppedIsNotRunning(j: Job, i: nat, cleaned: bool, removed: bool, again: bool)
    requires i in j.steps
    ensures !CancelStage(j, i, cleaned, removed, again).status.Running?
  {
  }

  /** Only a claim sets a job running, and only a heartbeat moves the heartbeat of a running one. */
  lemma OnlyClaimsStart(j: Job, a: Action)
    requires Enabled(j, a) && !a.Claim? && Apply(j, a).status.Running?
    ensures j.status.Running? && Apply(j, a).workerId == j.workerId
    ensures !a.Beat? ==> Apply(j, a).heartbeatAt == j.heartbeatAt
  {
    match a
    case Fail(i, retryable, cleaned, removed) =>
      ReleaseKeepsOwner(MarkFailed(Cleaned(j, i, cleaned), i, retryable), removed);
    case Stop(i, cleaned, removed, again) => StoppedIsNotRunning(j, i, cleaned, removed, again);
    case _ =>
  }

  lemma SubsetSize<T>(a: set<T>, b: set<T>)
    requires a <= b
    ensures |a| <= |b|
  {
    assert b == a + (b - a);
  }

  /** No job starts running. */
  ghost predicate StartsNone(w: World, r: World) {
    forall id {:trigger r.jobs[id]} :: id in r.jobs && r.jobs[id].status.Running? ==>
      id in w.jobs && w.jobs[id].status.Running? && w.jobs[id].workerId == r.jobs[id].workerId
  }

  lemma JobEventStartsNone(w: World, e: Event, timeout: Time)
    requires Exclusive(w) && CanHappen(w, e, timeout)
    requires e.Submits? || e.Works? || e.Reaps? || e.Retries? || e.Cancels?
    ensures StartsNone(w, After(w, e, timeout))
  {
    var r := After(w, e, timeout);
    forall id | id in r.jobs && r.jobs[id].status.Running?
      ensures id in w.jobs && w.jobs[id].status.Running? && w.jobs[id].workerId == r.jobs[id].workerId
    {
      if id in w.jobs {
        EventActsOnJob(w, e, timeout, id);
        OnlyClaimsStart(w.jobs[id], ActionOn(w, e, id));
      } else {
        NewJobsAreFresh(w, e, timeout, id);
      }
    }
  }

  lemma JobEventKeepsWorkers(w: World, e: Event, timeout: Time)
    requires CanHappen(w, e, timeout)
    requires e.Submits? || e.Works? || e.Reaps? || e.Retries? || e.Cancels?
    ensures var r := After(w, e, timeout);
            r.workers == w.workers && r.holder == w.holder && r.nextTask == w.nextTask && w.jobs.Keys <= r.jobs.Keys
  {
  }

  lemma StartsNoneKeepsTasks(w: World, r: World)
    requires TasksOk(w) && StartsNone(w, r) && r.holder == w.holder && r.nextTask == w.nextTask
    requires w.jobs.Keys <= r.jobs.Keys
    requires forall wid :: wid in r.workers ==> wid in w.workers && r.workers[wid] == w.workers[wid]
    ensures TasksOk(r) && (AllTracked(w) ==> AllTracked(r))
  {
    forall wid | wid in r.workers && AllTracked(w) ensures Tracked(r, wid) {
      assert Tracked(w, wid);
      forall id | RunningOn(r, id, wid) ensures RunningOn(w, id, wid) {
        assert r.jobs[id].status.Running?;
      }
    }
  }

  lemma JoinKeepsTasks(w: World, wid: WorkerId, concurrency: nat)
    requires TasksOk(w) && CanHappen(w, Joins(wid, concurrency), 0)
    ensures var r := w.(workers := w.workers[wid := Worker(concurrency, map[], map[])]);
            TasksOk(r) && (AllTracked(w) ==> AllTracked(r))
  {
    var r := w.(workers := w.workers[wid := Worker(concurrency, map[], map[])]);
    assert forall id :: !RunningOn(w, id, wid);
    forall k | k in r.workers && AllTracked(w) ensures Tracked(r, k) {
      JoinKeepsTracked(w, wid, concurrency, k);
    }
  }

  lemma JoinKeepsTracked(w: World, wid: WorkerId, concurrency: nat, k: WorkerId)
    requires AllTracked(w) && CanHappen(w, Joins(wid, concurrency), 0) && (k in w.workers || k == wid)
    ensures Tracked(w.(workers := w.workers[wid := Worker(concurrency, map[], map[])]), k)
  {
    var r := w.(workers := w.workers[wid := Worker(concurrency, map[], map[])]);
    forall id ensures RunningOn(r, id, k) == RunningOn(w, id, k) {}
    if k != wid {
      assert Tracked(w, k);
    }
  }

  lemma ClaimRuns(w: World, wid: WorkerId, id: JobId, now: Time)
    requires wid in w.workers && id in w.jobs && Enabled(w.jobs[id], Claim(wid, now))
    ensures forall b, k {:trigger RunningOn(Claimed(w, wid, id, now), b, k)} ::
              RunningOn(Claimed(w, wid, id, now), b, k) <==> (b == id && k == wid) || RunningOn(w, b, k)
    ensures forall k :: !RunningOn(w, id, k)
  {
  }

  lemma ClaimKeepsWorker(k: Worker, t: TaskId, id: JobId)
    requires WorkerOk(k, t) && |k.tasks| < k.concurrency
    ensures WorkerOk(k.(tasks := k.tasks[id := t], unfinished := k.unfinished[t := id]), t + 1)
  {
  }

  lemma {:induction false} ClaimKeepsTasks(w: World, wid: WorkerId, id: JobId, now: Time)
    requires TasksOk(w) && wid in w.workers && id in w.jobs && Enabled(w.jobs[id], Claim(wid, now))
    requires |w.workers[wid].tasks| < w.workers[wid].concurrency
    ensures TasksOk(Claimed(w, wid, id, now))
  {
    var r := Claimed(w, wid, id, now);
    ClaimKeepsWorker(w.workers[wid], w.nextTask, id);
    forall k | k in r.workers && k != wid ensures WorkerOk(r.workers[k], r.nextTask) {
      assert r.workers[k] == w.workers[k] && WorkerOk(w.workers[k], w.nextTask);
    }
  }

  lemma FreshClaimKeepsOwn(w: World, wid: WorkerId, id: JobId, now: Time)
    requires TasksOk(w) && wid in w.workers && id in w.jobs && Enabled(w.jobs[id], Claim(wid, now))
    requires Tracked(w, wid) && id !in w.workers[wid].tasks
    ensures Tracked(Claimed(w, wid, id, now), wid)
  {
    ClaimRuns(w, wid, id, now);
    assert WorkerOk(w.workers[wid], w.nextTask);
  }

  lemma FreshClaimKeepsTracked(w: World, wid: WorkerId, id: JobId, now: Time)
    requires TasksOk(w) && AllTracked(w) && wid in w.workers && id in w.jobs && Enabled(w.jobs[id], Claim(wid, now))
    requires id !in w.workers[wid].tasks
    ensures AllTracked(Claimed(w, wid, id, now))
  {
    ClaimRuns(w, wid, id, now);
    FreshClaimKeepsOwn(w, wid, id, now);
    var r := Claimed(w, wid, id, now);
    forall k | k in r.workers && k != wid ensures Tracked(r, k) {
      assert Tracked(w, k) && r.workers[k] == w.workers[k];
    }
  }

  lemma FinishKeepsTasks(w: World, wid: WorkerId, t: TaskId)
    requires TasksOk(w) && wid in w.workers && t in w.workers[wid].unfinished
    ensures TasksOk(TaskFinished(w, wid, t))
  {
    var r := TaskFinished(w, wid, t);
    forall k | k in r.workers ensures WorkerOk(r.workers[k], r.nextTask) {
      assert WorkerOk(w.workers[k], w.nextTask);
      SubsetSize(r.workers[k].tasks.Keys, w.workers[k].tasks.Keys);
    }
  }

  lemma FinishKeepsOwn(w: World, wid: WorkerId, t: TaskId)
    requires TasksOk(w) && wid in w.workers && t in w.workers[wid].unfinished && Tracked(w, wid)
    requires !Runs(w, wid, w.workers[wid].unfinished[t], t)
    ensures Tracked(TaskFinished(w, wid, t), wid)
  {
    var r := TaskFinished(w, wid, t);
    forall b ensures RunningOn(r, b, wid) == RunningOn(w, b, wid) {}
  }

  lemma FinishKeepsTracked(w: World, wid: WorkerId, t: TaskId)
    requires TasksOk(w) && AllTracked(w) && wid in w.workers && t in w.workers[wid].unfinished
    requires !Runs(w, wid, w.workers[wid].unfinished[t], t)
    ensures AllTracked(TaskFinished(w, wid, t))
  {
    var r := TaskFinished(w, wid, t);
    forall b, k ensures RunningOn(r, b, k) == RunningOn(w, b, k) {}
    FinishKeepsOwn(w, wid, t);
    forall k | k in r.workers && k != wid ensures Tracked(r, k) {
      assert Tracked(w, k) && r.workers[k] == w.workers[k];
    }
  }

  lemma {:induction false} EventKeepsTasks(w: World, e: Event, timeout: Time)
    requires Exclusive(w) && TasksOk(w) && CanHappen(w, e, timeout)
    ensures TasksOk(After(w, e, timeout))
    ensures AllTracked(w) && Careful(w, e) ==> AllTracked(After(w, e, timeout))
  {
    match e
    case Joins(wid, concurrency) => JoinKeepsTasks(w, wid, concurrency);
    case Dies(wid) => StartsNoneKeepsTasks(w, w.(workers := w.workers - {wid}));
    case Claims(wid, id, now) =>
      ClaimKeepsTasks(w, wid, id, now);
      if AllTracked(w) && Careful(w, e) {
        FreshClaimKeepsTracked(w, wid, id, now);
      }
    case Finishes(wid, t) =>
      FinishKeepsTasks(w, wid, t);
      if AllTracked(w) && Careful(w, e) {
        FinishKeepsTracked(w, wid, t);
      }
    case _ =>
      JobEventStartsNone(w, e, timeout);
      JobEventKeepsWorkers(w, e, timeout);
      StartsNoneKeepsTasks(w, After(w, e, timeout));
  }

  lemma {:induction false} StepKeepsTasks(w: World, e: Event, r: World, timeout: Time)
    requires TasksOk(w) && Exclusive(w) && CanHappen(w, e, timeout) && r == After(w, e, timeout)
    ensures TasksOk(r) && Exclusive(r)
  {
    EventKeepsTasks(w, e, timeout);
    EventKeepsExclusive(w, e, timeout);
  }

  lemma {:induction false} HistoryKeepsTasks(ws: seq<World>, es: seq<Event>, timeout: Time, k: nat)
    requires History(ws, es, timeout) && k < |ws|
    ensures TasksOk(ws[k]) && Exclusive(ws[k])
  {
    if k > 0 {
      HistoryKeepsTasks(ws, es, timeout, k - 1);
      StepKeepsTasks(ws[k - 1], es[k - 1], ws[k], timeout);
    }
  }

  lemma CarefulNext(w: World, e: Event, r: World, timeout: Time)
    requires TasksOk(w) && Exclusive(w) && CanHappen(w, e, timeout) && r == After(w, e, timeout)
    requires AllTracked(w) && Careful(w, e)
    ensures AllTracked(r)
  {
    EventKeepsTasks(w, e, timeout);
  }

  /** The first `k` events were careful. */
  ghost predicate CarefulUpTo(ws: seq<World>, es: seq<Event>, k: nat) {
    k < |ws| && k <= |es| && forall m: nat {:trigger Careful(ws[m], es[m])} :: m < k ==> Careful(ws[m], es[m])
  }

  lemma CarefulBefore(ws: seq<World>, es: seq<Event>, k: nat)
    requires CarefulUpTo(ws, es, k) && k > 0
    ensures CarefulUpTo(ws, es, k - 1) && Careful(ws[k - 1], es[k - 1])
  {
  }

  lemma {:induction false} CarefulKeepsTracked(ws: seq<World>, es: seq<Event>, timeout: Time, k: nat)
    requires History(ws, es, timeout) && CarefulUpTo(ws, es, k)
    ensures AllTracked(ws[k])
  {
    if k > 0 {
      CarefulBefore(ws, es, k);
      HistoryKeepsTasks(ws, es, timeout, k - 1);
      CarefulKeepsTracked(ws, es, timeout, k - 1);
      CarefulNext(ws[k - 1], es[k - 1], ws[k], timeout);
    }
  }

  // ---------------------------------------------------------------- capacity

  /** The worker's running jobs are in its dictionary and no more than its concurrency. */
  ghost predicate WithinCapacity(w: World, wid: WorkerId)
    requires wid in w.workers
  {
    Mine(w, wid) <= w.workers[wid].tasks.Keys && |Mine(w, wid)| <= w.workers[wid].concurrency
  }

  lemma TrackedIsWithin(w: World, wid: WorkerId)
    requires TasksOk(w) && AllTracked(w) && wid in w.workers
    ensures WithinCapacity(w, wid)
  {
    assert Tracked(w, wid) && WorkerOk(w.workers[wid], w.nextTask);
    SubsetSize(Mine(w, wid), w.workers[wid].tasks.Keys);
  }

  /** A live worker's running jobs are all in its task dictionary and never exceed its concurrency,
      as long as no worker reclaims a job whose previous task it still holds and no task ends while
      the job it runs is RUNNING. */
  lemma CapacityWhileCareful(ws: seq<World>, es: seq<Event>, timeout: Time, k: nat, wid: WorkerId)
    requires History(ws, es, timeout) && k < |ws| && wid in ws[k].workers
    requires forall m: nat :: m < k ==> Careful(ws[m], es[m])
    ensures WithinCapacity(ws[k], wid)
  {
    HistoryKeepsTasks(ws, es, timeout, k);
    CarefulKeepsTracked(ws, es, timeout, k);
    TrackedIsWithin(ws[k], wid);
  }

  /** Claiming the jobs of a batch one after the other. */
  ghost predicate ClaimsInTurn(w: World, wid: WorkerId, batch: seq<JobId>, now: Time, timeout: Time)
    decreases |batch|
  {
    batch != [] ==>
      CanHappen(w, Claims(wid, batch[0], now), timeout)
      && ClaimsInTurn(Claimed(w, wid, batch[0], now), wid, batch[1..], now, timeout)
  }

  /** A worker asks for no more jobs than it has free slots, so a batch claim is a run of single ones. */
  lemma {:induction false} BatchClaimsInTurn(w: World, wid: WorkerId, batch: seq<JobId>, now: Time, timeout: Time)
    requires wid in w.workers && |batch| + |w.workers[wid].tasks| <= w.workers[wid].concurrency
    requires forall i :: 0 <= i < |batch| ==> batch[i] in w.jobs && Enabled(w.jobs[batch[i]], Claim(wid, now))
    requires forall i, j :: 0 <= i < j < |batch| ==> batch[i] != batch[j]
    ensures ClaimsInTurn(w, wid, batch, now, timeout)
    decreases |batch|
  {
    if batch != [] {
      BatchClaimsInTurn(Claimed(w, wid, batch[0], now), wid, batch[1..], now, timeout);
    }
  }

  // ---------------------------------------------------------------- heartbeats

  /** A claim or a heartbeat of the job. */
  predicate IsBeat(e: Event, id: JobId) {
    (e.Claims? && e.job == id) || (e.Works? && e.job == id && e.action.Beat?)
  }

  function BeatTime(e: Event, id: JobId): Time
    requires IsBeat(e, id)
  {
    if e.Claims? then e.now else e.action.now
  }

  lemma {:induction false} HeartbeatIsLastBeat(ws: seq<World>, es: seq<Event>, timeout: Time, k: nat, id: JobId)
    returns (m: nat)
    requires History(ws, es, timeout) && k < |ws| && id in ws[k].jobs && ws[k].jobs[id].status.Running?
    ensures m < k && IsBeat(es[m], id) && ws[k].jobs[id].heartbeatAt == Some(BeatTime(es[m], id))
    ensures forall b: nat :: m < b < k ==> !IsBeat(es[b], id)
  {
    if IsBeat(es[k - 1], id) {
      m := k - 1;
      BeatRecorded(ws[m], es[m], timeout, id);
    } else {
      ReservationsAreExclusive(ws, es, timeout, k - 1);
      EventKeepsHeartbeat(ws[k - 1], es[k - 1], timeout, id);
      m := HeartbeatIsLastBeat(ws, es, timeout, k - 1, id);
    }
  }

  lemma BeatRecorded(w: World, e: Event, timeout: Time, id: JobId)
    requires CanHappen(w, e, timeout) && IsBeat(e, id)
    ensures id in After(w, e, timeout).jobs
    ensures After(w, e, timeout).jobs[id].heartbeatAt == Some(BeatTime(e, id))
  {
  }

  lemma EventKeepsHeartbeat(w: World, e: Event, timeout: Time, id: JobId)
    requires CanHappen(w, e, timeout) && Exclusive(w) && !IsBeat(e, id)
    requires var r := After(w, e, timeout); id in r.jobs && r.jobs[id].status.Running?
    ensures id in w.jobs && w.jobs[id].status.Running?
    ensures After(w, e, timeout).jobs[id].heartbeatAt == w.jobs[id].heartbeatAt
  {
    if id in w.jobs {
      EventActsOnJob(w, e, timeout, id);
      OnlyClaimsStart(w.jobs[id], ActionOn(w, e, id));
    } else {
      NewJobsAreFresh(w, e, timeout, id);
    }
  }

  /** The heartbeat timeout of a worker is at least three intervals.  So a job is reaped only when
      its every claim and heartbeat lies more than three intervals back. */
  lemma ReapedMeansSilent(ws: seq<World>, es: seq<Event>, timeout: Time, interval: Time, k: nat, m: nat, id: JobId)
    requires History(ws, es, timeout) && timeout >= 3 * interval
    requires forall a: nat, b: nat :: a < b < |es| && IsBeat(es[a], id) && IsBeat(es[b], id) ==>
               BeatTime(es[a], id) <= BeatTime(es[b], id)
    requires m < k < |es| && es[k].Reaps? && es[k].job == id && IsBeat(es[m], id)
    ensures es[k].now - BeatTime(es[m], id) > 3 * interval
  {
    var last := HeartbeatIsLastBeat(ws, es, timeout, k, id);
    assert m <= last;
  }
}
