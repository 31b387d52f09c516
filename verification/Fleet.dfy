/** The job table shared by the API and any number of workers.  One event is one committed
    transaction (or one step of a worker's event loop). */
module Fleet {
  import opened Options
  import opened JobModel

  type JobId = nat
  type TaskId = nat

  /** `tasks` is the worker's `_tasks` dictionary; `unfinished` are its asyncio tasks whose
      done-callback has not run yet, each with the job it was spawned for. */
  datatype Worker = Worker(concurrency: nat, tasks: map<JobId, TaskId>, unfinished: map<TaskId, JobId>)

  /** `holder` names the task that claimed a job last. */
  datatype World = World(
    jobs: map<JobId, Job>,
    workers: map<WorkerId, Worker>,
    holder: map<JobId, TaskId>,
    nextJob: JobId,
    nextTask: TaskId)

  const EMPTY := World(map[], map[], map[], 0, 0)

  // ---------------------------------------------------------------- reservations

  function LowerChar(c: char): char { if 'A' <= c <= 'Z' then c - 'A' + 'a' else c }

  function Lower(s: string): string { seq(|s|, i requires 0 <= i < |s| => LowerChar(s[i])) }

  predicate SameName(a: Submission, b: Submission) { Lower(a.vmName) == Lower(b.vmName) }

  predicate SameAddress(a: Submission, b: Submission) { a.reservedIpv4.Some? && a.reservedIpv4 == b.reservedIpv4 }

  predicate NameTaken(w: World, s: Submission, except: Option<JobId>) {
    exists id :: id in w.jobs && except != Some(id) && Active(w.jobs[id].status) && SameName(w.jobs[id].submission, s)
  }

  predicate AddressTaken(w: World, s: Submission, except: Option<JobId>) {
    exists id :: id in w.jobs && except != Some(id) && Active(w.jobs[id].status)
      && SameAddress(w.jobs[id].submission, s)
  }

  // ---------------------------------------------------------------- submission

  datatype SubmitResult =
    Created(id: JobId) | Replayed(id: JobId) | KeyReused | NameConflict | AddressConflict | Blocked

  predicate MatchesReplay(stored: Submission, s: Submission) {
    stored.user == s.user && (stored.fingerprint.Some? ==> stored.fingerprint == s.fingerprint)
  }

  ghost predicate HoldsKey(w: World, id: JobId, s: Submission) {
    id in w.jobs && s.idempotencyKey.Some? && w.jobs[id].submission.idempotencyKey == s.idempotencyKey
  }

  /** `ready` is the preflight's verdict. */
  ghost function Submit(w: World, s: Submission, ready: bool, now: Time): (World, SubmitResult) {
    if exists id :: HoldsKey(w, id, s) then
      var id :| HoldsKey(w, id, s);
      (w, if MatchesReplay(w.jobs[id].submission, s) then Replayed(id) else KeyReused)
    else if NameTaken(w, s, None) then (w, NameConflict)
    else if AddressTaken(w, s, None) then (w, AddressConflict)
    else if !ready then (w, Blocked)
    else (w.(jobs := w.jobs[w.nextJob := NewJob(s, now)], nextJob := w.nextJob + 1), Created(w.nextJob))
  }

  // ---------------------------------------------------------------- retry and cancel

  datatype RetryResult = Requeued | NotRetryable | RetryNameConflict | RetryAddressConflict | NothingToRetry

  function RetryStages(w: World, id: JobId, key: Option<nat>, now: Time): (World, RetryResult)
    requires id in w.jobs
  {
    var j := w.jobs[id];
    if !RetryAllowed(j, key) then (w, NotRetryable)
    else if NameTaken(w, j.submission, Some(id)) then (w, RetryNameConflict)
    else if ResetSet(j, key) == {} then (w, NothingToRetry)
    else if AddressTaken(w, j.submission, Some(id)) then (w, RetryAddressConflict)  // the unique index, rolled back
    else (w.(jobs := w.jobs[id := Retry(j, key, now)]), Requeued)
  }

  function CancelJob(w: World, id: JobId, now: Time): World
    requires id in w.jobs
  {
    if Terminal(w.jobs[id].status) then w else w.(jobs := w.jobs[id := RequestCancel(w.jobs[id], now)])
  }

  // ---------------------------------------------------------------- workers

  function Claimed(w: World, wid: WorkerId, id: JobId, now: Time): World
    requires wid in w.workers && id in w.jobs && Enabled(w.jobs[id], Claim(wid, now))
  {
    var worker := w.workers[wid];
    w.(jobs := w.jobs[id := Apply(w.jobs[id], Claim(wid, now))],
       workers := w.workers[wid := worker.(tasks := worker.tasks[id := w.nextTask],
                                           unfinished := worker.unfinished[w.nextTask := id])],
       holder := w.holder[id := w.nextTask],
       nextTask := w.nextTask + 1)
  }

  /** The task that claimed the job last runs it, as long as the row still names its worker. */
  predicate Runs(w: World, wid: WorkerId, id: JobId, t: TaskId) {
    id in w.jobs && w.jobs[id].status.Running? && w.jobs[id].workerId == Some(wid)
    && id in w.holder && w.holder[id] == t
  }

  /** The done-callback of a task removes its job's entry, whichever task that entry names. */
  function TaskFinished(w: World, wid: WorkerId, t: TaskId): World
    requires wid in w.workers && t in w.workers[wid].unfinished
  {
    var worker := w.workers[wid];
    w.(workers := w.workers[wid := worker.(tasks := worker.tasks - {worker.unfinished[t]},
                                           unfinished := worker.unfinished - {t})])
  }

  /** The transactions a worker commits for the job its task is running. */
  predicate ByTask(a: Action) {
    !(a.Claim? || a.Requeue? || a.Cancel? || a.Elsewhere?)
  }

  datatype Event =
    | Joins(worker: WorkerId, concurrency: nat)
    | Dies(worker: WorkerId)
    | Submits(submission: Submission, ready: bool, now: Time)
    | Claims(worker: WorkerId, job: JobId, now: Time)
    | Works(worker: WorkerId, task: TaskId, job: JobId, action: Action)
    | Finishes(worker: WorkerId, task: TaskId)
    | Reaps(worker: WorkerId, job: JobId, now: Time, removed: bool, cleaned: bool)
    | Retries(job: JobId, key: Option<nat>, now: Time)
    | Cancels(job: JobId, now: Time)

  /** A task may finish in any state of its job: an exception outside the pipeline ends it while the
      job is RUNNING.  `timeout` is the heartbeat timeout.  A batch claim is a run of single claims: the batch never
      exceeds the free slots, so each of them finds a free slot. */
  ghost predicate CanHappen(w: World, e: Event, timeout: Time) {
    match e
    case Joins(wid, concurrency) => wid !in w.workers && concurrency >= 1
                                    && forall id :: id in w.jobs ==> w.jobs[id].workerId != Some(wid)
    case Dies(wid) => wid in w.workers
    case Submits(_, _, _) => true
    case Claims(wid, id, now) =>
      wid in w.workers && |w.workers[wid].tasks| < w.workers[wid].concurrency
      && id in w.jobs && Enabled(w.jobs[id], Claim(wid, now))
    case Works(wid, t, id, a) =>
      wid in w.workers && t in w.workers[wid].unfinished && Runs(w, wid, id, t) && ByTask(a) && Enabled(w.jobs[id], a)
    case Finishes(wid, t) => wid in w.workers && t in w.workers[wid].unfinished
    case Reaps(wid, id, now, _, _) =>
      wid in w.workers && id !in w.workers[wid].tasks
      && id in w.jobs && w.jobs[id].status.Running?
      && w.jobs[id].heartbeatAt.Some? && w.jobs[id].heartbeatAt.value < now - timeout
    case Retries(id, _, _) => id in w.jobs
    case Cancels(id, _) => id in w.jobs
  }

  ghost function After(w: World, e: Event, timeout: Time): World
    requires CanHappen(w, e, timeout)
  {
    match e
    case Joins(wid, concurrency) => w.(workers := w.workers[wid := Worker(concurrency, map[], map[])])
    case Dies(wid) => w.(workers := w.workers - {wid})
    case Submits(s, ready, now) => Submit(w, s, ready, now).0
    case Claims(wid, id, now) => Claimed(w, wid, id, now)
    case Works(_, _, id, a) => w.(jobs := w.jobs[id := Apply(w.jobs[id], a)])
    case Finishes(wid, t) => TaskFinished(w, wid, t)
    case Reaps(_, id, _, removed, cleaned) => w.(jobs := w.jobs[id := Apply(w.jobs[id], Park(removed, cleaned))])
    case Retries(id, key, now) => RetryStages(w, id, key, now).0
    case Cancels(id, now) => CancelJob(w, id, now)
  }

  // ---------------------------------------------------------------- invariants

  predicate Clash(a: Job, b: Job) {
    (Active(a.status) && Active(b.status)
     && (SameName(a.submission, b.submission) || SameAddress(a.submission, b.submission)))
    || (a.submission.idempotencyKey.Some? && a.submission.idempotencyKey == b.submission.idempotencyKey)
  }

  /** No two active jobs share a lower-cased name or a reserved address; no two jobs share a key. */
  ghost predicate Exclusive(w: World) {
    && (forall a, b :: a in w.jobs && b in w.jobs && a != b ==> !Clash(w.jobs[a], w.jobs[b]))
    && (forall id :: id in w.jobs ==> id < w.nextJob)
  }

  lemma SubmissionStays(j: Job, a: Action)
    requires Enabled(j, a)
    ensures Apply(j, a).submission == j.submission
  {
  }

  lemma OnlyRetryActivates(j: Job, a: Action)
    requires Enabled(j, a)
    ensures Active(Apply(j, a).status) && !Active(j.status) ==> a.Requeue?
  {
  }

  /** Replacing one job by a later version of itself, active only if it was, or if the table says
      nobody else holds its reservations. */
  lemma UpdateKeepsExclusive(w: World, id: JobId, j: Job)
    requires Exclusive(w) && id in w.jobs && j.submission == w.jobs[id].submission
    requires Active(j.status) && !Active(w.jobs[id].status) ==>
               !NameTaken(w, j.submission, Some(id)) && !AddressTaken(w, j.submission, Some(id))
    ensures Exclusive(w.(jobs := w.jobs[id := j]))
  {
    forall b | b in w.jobs && b != id ensures !Clash(j, w.jobs[b]) && !Clash(w.jobs[b], j) {
      assert !Clash(w.jobs[id], w.jobs[b]);
    }
  }

  lemma StepKeepsExclusive(w: World, id: JobId, a: Action)
    requires Exclusive(w) && id in w.jobs && Enabled(w.jobs[id], a) && !a.Requeue?
    ensures Exclusive(w.(jobs := w.jobs[id := Apply(w.jobs[id], a)]))
  {
    SubmissionStays(w.jobs[id], a);
    OnlyRetryActivates(w.jobs[id], a);
    UpdateKeepsExclusive(w, id, Apply(w.jobs[id], a));
  }

  lemma SubmitKeepsExclusive(w: World, s: Submission, ready: bool, now: Time)
    requires Exclusive(w)
    ensures Exclusive(Submit(w, s, ready, now).0)
  {
    var r := Submit(w, s, ready, now);
    if r.1.Created? {
      var j := NewJob(s, now);
      forall b | b in w.jobs ensures !Clash(j, w.jobs[b]) && !Clash(w.jobs[b], j) {
        assert !HoldsKey(w, b, s);
      }
    }
  }

  lemma RetryKeepsExclusive(w: World, id: JobId, key: Option<nat>, now: Time)
    requires Exclusive(w) && id in w.jobs
    ensures var r, s := RetryStages(w, id, key, now), w.jobs[id].submission;
            && Exclusive(r.0) && (r.1.Requeued? ==> !NameTaken(w, s, Some(id)) && !AddressTaken(w, s, Some(id)))
            && (!r.1.Requeued? ==> r.0 == w)
  {
    if RetryStages(w, id, key, now).1.Requeued? {
      UpdateKeepsExclusive(w, id, Retry(w.jobs[id], key, now));
    }
  }

  lemma {:induction false} EventKeepsExclusive(w: World, e: Event, timeout: Time)
    requires Exclusive(w) && CanHappen(w, e, timeout)
    ensures Exclusive(After(w, e, timeout))
  {
    match e
    case Submits(s, ready, now) => SubmitKeepsExclusive(w, s, ready, now);
    case Claims(wid, id, now) => StepKeepsExclusive(w, id, Claim(wid, now));
    case Works(_, _, id, a) => StepKeepsExclusive(w, id, a);
    case Reaps(_, id, _, removed, cleaned) => StepKeepsExclusive(w, id, Park(removed, cleaned));
    case Retries(id, key, now) => RetryKeepsExclusive(w, id, key, now);
    case Cancels(id, now) =>
      if !Terminal(w.jobs[id].status) {
        StepKeepsExclusive(w, id, Cancel(now));
      }
    case _ =>
  }

  // ---------------------------------------------------------------- runs

  ghost predicate History(ws: seq<World>, es: seq<Event>, timeout: Time) {
    && |ws| == |es| + 1 && ws[0] == EMPTY
    && forall k: nat {:trigger es[k]} :: k < |es| ==>
         CanHappen(ws[k], es[k], timeout) && ws[k + 1] == After(ws[k], es[k], timeout)
  }

  /** Across every interleaving of submissions, claims, interruptions, retries and cancellations. */
  lemma {:induction false} ReservationsAreExclusive(ws: seq<World>, es: seq<Event>, timeout: Time, k: nat)
    requires History(ws, es, timeout) && k < |ws|
    ensures Exclusive(ws[k])
  {
    if k > 0 {
      ReservationsAreExclusive(ws, es, timeout, k - 1);
      EventKeepsExclusive(ws[k - 1], es[k - 1], timeout);
    }
  }

  // ---------------------------------------------------------------- outcomes, in the fields of the rows

  /** The same name but for the case of letters. */
  ghost predicate EqualFold(a: string, b: string) {
    && |a| == |b|
    && forall i :: 0 <= i < |a| ==>
         || a[i] == b[i]
         || ('A' <= a[i] <= 'Z' && b[i] as int == a[i] as int + 32)
         || ('A' <= b[i] <= 'Z' && a[i] as int == b[i] as int + 32)
  }

  lemma SameNameMeans(a: Submission, b: Submission)
    ensures SameName(a, b) <==> EqualFold(a.vmName, b.vmName)
  {
    var s, t := Lower(a.vmName), Lower(b.vmName);
    if s == t {
      forall i | 0 <= i < |a.vmName|
        ensures || a.vmName[i] == b.vmName[i]
                || ('A' <= a.vmName[i] <= 'Z' && b.vmName[i] as int == a.vmName[i] as int + 32)
                || ('A' <= b.vmName[i] <= 'Z' && a.vmName[i] as int == b.vmName[i] as int + 32)
      {
        assert s[i] == t[i];
      }
    }
  }

  /** Another job that is queued, running or interrupted holds the name, or the reserved address. */
  ghost predicate NameHeld(w: World, s: Submission, except: Option<JobId>) {
    exists b :: b in w.jobs && except != Some(b) && EqualFold(w.jobs[b].submission.vmName, s.vmName)
                && w.jobs[b].status in {JobStatus.Queued, JobStatus.Running, JobStatus.Interrupted}
  }

  ghost predicate AddressHeld(w: World, s: Submission, except: Option<JobId>) {
    exists b :: b in w.jobs && except != Some(b) && s.reservedIpv4 != None
                && w.jobs[b].submission.reservedIpv4 == s.reservedIpv4
                && w.jobs[b].status in {JobStatus.Queued, JobStatus.Running, JobStatus.Interrupted}
  }

  lemma HeldMeans(w: World, s: Submission, except: Option<JobId>)
    ensures NameTaken(w, s, except) <==> NameHeld(w, s, except)
    ensures AddressTaken(w, s, except) <==> AddressHeld(w, s, except)
  {
    forall b | b in w.jobs
      ensures SameName(w.jobs[b].submission, s) <==> EqualFold(w.jobs[b].submission.vmName, s.vmName)
    {
      SameNameMeans(w.jobs[b].submission, s);
    }
    if b :| b in w.jobs && except != Some(b) && EqualFold(w.jobs[b].submission.vmName, s.vmName)
            && w.jobs[b].status in {JobStatus.Queued, JobStatus.Running, JobStatus.Interrupted} {
      assert SameName(w.jobs[b].submission, s) && Active(w.jobs[b].status);
    }
  }

  /** A submission creates a job exactly when its key is new, nobody holds its reservations and the
      preflight passes.  A known key is answered with the one job that has it, if the submission comes from
      the same user and, where that job has a fingerprint, with the same one; otherwise it is refused. */
  lemma SubmissionOutcome(ws: seq<World>, es: seq<Event>, timeout: Time, k: nat, s: Submission, ready: bool,
                          now: Time, id: JobId)
    requires History(ws, es, timeout) && k < |ws|
    ensures var r := Submit(ws[k], s, ready, now);
            && (r.1.Created? <==> (forall b :: b in ws[k].jobs && s.idempotencyKey.Some? ==>
                                     ws[k].jobs[b].submission.idempotencyKey != s.idempotencyKey)
                                  && !NameTaken(ws[k], s, None) && !AddressTaken(ws[k], s, None) && ready)
            && (!r.1.Created? ==> r.0 == ws[k])
    ensures HoldsKey(ws[k], id, s) <==>
            && id in ws[k].jobs && s.idempotencyKey.Some?
            && ws[k].jobs[id].submission.idempotencyKey == s.idempotencyKey
    ensures HoldsKey(ws[k], id, s) ==>
              var r, stored := Submit(ws[k], s, ready, now), ws[k].jobs[id].submission;
              && (r.1 == Replayed(id) || r.1 == KeyReused)
              && (r.1 == Replayed(id) <==>
                    && stored.user == s.user
                    && (stored.fingerprint.Some? ==> stored.fingerprint == s.fingerprint))
  {
    ReservationsAreExclusive(ws, es, timeout, k);
    var w := ws[k];
    forall a, b | HoldsKey(w, a, s) && HoldsKey(w, b, s) ensures a == b {
      assert Clash(w.jobs[a], w.jobs[b]);
    }
    forall b | b in w.jobs && s.idempotencyKey.Some? && w.jobs[b].submission.idempotencyKey == s.idempotencyKey
      ensures HoldsKey(w, b, s) {}
  }

  /** With a new key it is refused for the name, then for the address, then for the preflight; otherwise
      it becomes a queued job of its own, due at once. */
  lemma NewSubmission(w: World, s: Submission, ready: bool, now: Time)
    requires forall b :: b in w.jobs && s.idempotencyKey.Some? ==>
               w.jobs[b].submission.idempotencyKey != s.idempotencyKey
    ensures var r := Submit(w, s, ready, now);
            && (r.1 == NameConflict <==> NameHeld(w, s, None))
            && (r.1 == AddressConflict <==> !NameHeld(w, s, None) && AddressHeld(w, s, None))
            && (r.1 == Blocked <==> !NameHeld(w, s, None) && !AddressHeld(w, s, None) && !ready)
            && (r.1 == Created(w.nextJob) <==> !NameHeld(w, s, None) && !AddressHeld(w, s, None) && ready)
            && (r.1 != Created(w.nextJob) ==> r.0 == w)
            && (r.1 == Created(w.nextJob) ==>
                  && r.0 == w.(jobs := r.0.jobs, nextJob := w.nextJob + 1)
                  && r.0.jobs == w.jobs[w.nextJob := Job(s, JobStatus.Queued, false, None, None, now, false, map[],
                                                         false, false, false, 0)])
  {
    HeldMeans(w, s, None);
  }

  /** A retry is refused if the service does not accept it, if another job holds the name, if there is no
      step to reset, or if another job holds the address; and then nothing changes. */
  lemma RetryOutcome(w: World, id: JobId, key: Option<nat>, now: Time)
    requires id in w.jobs
    ensures var j, r := w.jobs[id], RetryStages(w, id, key, now);
            && (r.1 == NotRetryable <==> !RetryAllowed(j, key))
            && (r.1 == RetryNameConflict <==> RetryAllowed(j, key) && NameHeld(w, j.submission, Some(id)))
            && (r.1 == NothingToRetry <==>
                  RetryAllowed(j, key) && !NameHeld(w, j.submission, Some(id)) && ResetSet(j, key) == {})
            && (r.1 == RetryAddressConflict <==>
                  && RetryAllowed(j, key) && !NameHeld(w, j.submission, Some(id)) && ResetSet(j, key) != {}
                  && AddressHeld(w, j.submission, Some(id)))
            && (r.1 == Requeued <==>
                  && RetryAllowed(j, key) && !NameHeld(w, j.submission, Some(id)) && ResetSet(j, key) != {}
                  && !AddressHeld(w, j.submission, Some(id)))
            && (r.1 != Requeued ==> r.0 == w)
            && (r.1 == Requeued ==> r.0 == w.(jobs := w.jobs[id := Retry(j, key, now)]))
  {
    HeldMeans(w, w.jobs[id].submission, Some(id));
  }

  /** What an event leaves of the workers and their tasks. */
  lemma EventMeans(w: World, e: Event, timeout: Time)
    requires CanHappen(w, e, timeout)
    ensures var r := After(w, e, timeout);
            match e
            case Joins(wid, concurrency) =>
              wid !in w.workers && concurrency >= 1
              && r == w.(workers := w.workers[wid := Worker(concurrency, map[], map[])])
            case Dies(wid) => r == w.(workers := r.workers) && r.workers == w.workers - {wid}
            case Submits(s, ready, now) => r == Submit(w, s, ready, now).0
            case Claims(wid, id, now) =>
              && |w.workers[wid].tasks| < w.workers[wid].concurrency
              && r.jobs == w.jobs[id := Apply(w.jobs[id], Claim(wid, now))] && r.holder == w.holder[id := w.nextTask]
              && r.nextTask == w.nextTask + 1 && r.nextJob == w.nextJob
              && r.workers == w.workers[wid := r.workers[wid]]
              && r.workers[wid].concurrency == w.workers[wid].concurrency
              && r.workers[wid].tasks == w.workers[wid].tasks[id := w.nextTask]
              && r.workers[wid].unfinished == w.workers[wid].unfinished[w.nextTask := id]
            case Works(wid, t, id, a) =>
              && t in w.workers[wid].unfinished && w.jobs[id].status == JobStatus.Running
              && w.jobs[id].workerId == Some(wid) && w.holder[id] == t
              && r == w.(jobs := w.jobs[id := Apply(w.jobs[id], a)])
            case Finishes(wid, t) =>
              && t in w.workers[wid].unfinished && r == w.(workers := w.workers[wid := r.workers[wid]])
              && r.workers[wid].concurrency == w.workers[wid].concurrency
              && r.workers[wid].tasks == w.workers[wid].tasks - {w.workers[wid].unfinished[t]}
              && r.workers[wid].unfinished == w.workers[wid].unfinished - {t}
            case Reaps(wid, id, now, removed, cleaned) =>
              && id !in w.workers[wid].tasks && w.jobs[id].status == JobStatus.Running
              && w.jobs[id].heartbeatAt.Some? && now - w.jobs[id].heartbeatAt.value > timeout
              && r == w.(jobs := w.jobs[id := Interrupt(Detached(w.jobs[id], cleaned), removed)])
            case Retries(id, key, now) => r == RetryStages(w, id, key, now).0
            case Cancels(id, now) =>
              if w.jobs[id].status in {JobStatus.Completed, JobStatus.PartiallyCompleted, JobStatus.Failed,
                                       JobStatus.Cancelled}
              then r == w else r == w.(jobs := w.jobs[id := RequestCancel(w.jobs[id], now)])
  {
  }
}
