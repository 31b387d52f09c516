/** When a worker's running jobs can come to exceed its concurrency, and what becomes of a job whose
    task has ended. */
module FleetCapacity {
  import opened Options
  import opened JobModel
  import opened Fleet
  import opened FleetOwnership

  // ---------------------------------------------------------------- careful continuations

  /** Any continuation from `vs[0]` in which no worker reclaims a job it still holds a task for and no
      task ends while its job is RUNNING. */
  ghost predicate CarefulRun(vs: seq<World>, fs: seq<Event>, timeout: Time) {
    && |vs| == |fs| + 1
    && forall k: nat {:trigger fs[k]} :: k < |fs| ==>
         CanHappen(vs[k], fs[k], timeout) && Careful(vs[k], fs[k]) && vs[k + 1] == After(vs[k], fs[k], timeout)
  }

  ghost predicate CapacityKept(w: World) {
    forall wid :: wid in w.workers ==> |Mine(w, wid)| <= w.workers[wid].concurrency
  }

  /** Capacity is kept from here on, whatever happens carefully. */
  ghost predicate SafeFrom(w: World, timeout: Time) {
    forall vs, fs :: CarefulRun(vs, fs, timeout) && vs[0] == w ==> CapacityKept(vs[|fs|])
  }

  lemma {:induction false} CarefulRunKeepsTracked(vs: seq<World>, fs: seq<Event>, timeout: Time, k: nat)
    requires CarefulRun(vs, fs, timeout) && k < |vs| && TasksOk(vs[0]) && Exclusive(vs[0]) && AllTracked(vs[0])
    ensures TasksOk(vs[k]) && Exclusive(vs[k]) && AllTracked(vs[k])
  {
    if k > 0 {
      CarefulRunKeepsTracked(vs, fs, timeout, k - 1);
      EventKeepsTasks(vs[k - 1], fs[k - 1], timeout);
      EventKeepsExclusive(vs[k - 1], fs[k - 1], timeout);
    }
  }

  lemma TrackedIsSafe(w: World, timeout: Time)
    requires TasksOk(w) && Exclusive(w) && AllTracked(w)
    ensures SafeFrom(w, timeout)
  {
    forall vs: seq<World>, fs: seq<Event> | CarefulRun(vs, fs, timeout) && vs[0] == w ensures CapacityKept(vs[|fs|]) {
      CarefulRunKeepsTracked(vs, fs, timeout, |fs|);
      var r := vs[|fs|];
      forall wid | wid in r.workers ensures |Mine(r, wid)| <= r.workers[wid].concurrency {
        TrackedIsWithin(r, wid);
      }
    }
  }

  // ---------------------------------------------------------------- a job that is not counted

  /** The worker runs, or at least owns, a job its dictionary does not name. */
  ghost predicate Uncounted(w: World, wid: WorkerId, id: JobId) {
    TasksOk(w) && Exclusive(w) && wid in w.workers && RunningOn(w, id, wid) && id !in w.workers[wid].tasks
  }

  lemma Prepend(w: World, e: Event, vs: seq<World>, fs: seq<Event>, timeout: Time)
    returns (us: seq<World>, gs: seq<Event>)
    requires CanHappen(w, e, timeout) && Careful(w, e)
    requires CarefulRun(vs, fs, timeout) && vs[0] == After(w, e, timeout)
    ensures CarefulRun(us, gs, timeout) && us[0] == w && us[|gs|] == vs[|fs|]
  {
    us, gs := [w] + vs, [e] + fs;
    forall k: nat | k < |gs|
      ensures CanHappen(us[k], gs[k], timeout) && Careful(us[k], gs[k]) && us[k + 1] == After(us[k], gs[k], timeout)
    {
      if k > 0 {
        assert us[k] == vs[k - 1] && gs[k] == fs[k - 1] && us[k + 1] == vs[k];
      }
    }
  }

  /** A name longer than every name in the table. */
  lemma {:induction false} LongerName(jobs: map<JobId, Job>, ids: set<JobId>) returns (n: nat)
    requires ids <= jobs.Keys
    ensures forall id :: id in ids ==> |jobs[id].submission.vmName| < n
  {
    if ids == {} {
      n := 0;
    } else {
      var id :| id in ids;
      var m := LongerName(jobs, ids - {id});
      n := if m <= |jobs[id].submission.vmName| then |jobs[id].submission.vmName| + 1 else m;
    }
  }

  /** A submission that nothing in the table stands against. */
  lemma FreshSubmission(w: World) returns (s: Submission)
    requires Exclusive(w)
    ensures Submit(w, s, true, 0) ==
            (w.(jobs := w.jobs[w.nextJob := NewJob(s, 0)], nextJob := w.nextJob + 1), Created(w.nextJob))
  {
    var n := LongerName(w.jobs, w.jobs.Keys);
    s := Submission(seq(n, _ => 'a'), None, None, None, None);
    forall id | id in w.jobs ensures !SameName(w.jobs[id].submission, s) {
      assert |Lower(w.jobs[id].submission.vmName)| < |Lower(s.vmName)|;
    }
  }

  /** The dictionary names only running jobs of the worker. */
  ghost predicate NoStaleEntry(w: World, wid: WorkerId)
    requires wid in w.workers
  {
    forall b :: b in w.workers[wid].tasks ==> RunningOn(w, b, wid)
  }

  lemma FullIsTooMuch(w: World, wid: WorkerId, id: JobId)
    requires Uncounted(w, wid, id) && NoStaleEntry(w, wid)
    requires |w.workers[wid].tasks| == w.workers[wid].concurrency
    ensures |Mine(w, wid)| > w.workers[wid].concurrency
  {
    SubsetSize(w.workers[wid].tasks.Keys + {id}, Mine(w, wid));
  }

  /** Submitting a job and claiming it takes one free slot. */
  lemma {:induction false} OneMore(w: World, wid: WorkerId, id: JobId, timeout: Time)
    returns (submit: Event, claim: Event)
    requires Uncounted(w, wid, id) && NoStaleEntry(w, wid)
    requires |w.workers[wid].tasks| < w.workers[wid].concurrency
    ensures CanHappen(w, submit, timeout) && Careful(w, submit)
    ensures var v := After(w, submit, timeout);
            && CanHappen(v, claim, timeout) && Careful(v, claim)
            && var r := After(v, claim, timeout);
               && Uncounted(r, wid, id) && NoStaleEntry(r, wid)
               && r.workers[wid].concurrency == w.workers[wid].concurrency
               && |r.workers[wid].tasks| == |w.workers[wid].tasks| + 1
  {
    var s := FreshSubmission(w);
    submit, claim := Submits(s, true, 0), Claims(wid, w.nextJob, 0);
    var v := After(w, submit, timeout);
    EventKeepsTasks(w, submit, timeout);
    EventKeepsExclusive(w, submit, timeout);
    assert w.nextJob !in w.jobs;
    EventKeepsTasks(v, claim, timeout);
    EventKeepsExclusive(v, claim, timeout);
    ClaimRuns(v, wid, w.nextJob, 0);
    forall b | b in w.workers[wid].tasks ensures RunningOn(v, b, wid) {
      assert RunningOn(w, b, wid);
    }
  }

  lemma {:induction false} FillUp(w: World, wid: WorkerId, id: JobId, timeout: Time)
    returns (vs: seq<World>, fs: seq<Event>)
    requires Uncounted(w, wid, id) && NoStaleEntry(w, wid)
    ensures CarefulRun(vs, fs, timeout) && vs[0] == w && !CapacityKept(vs[|fs|])
    decreases w.workers[wid].concurrency - |w.workers[wid].tasks|
  {
    assert WorkerOk(w.workers[wid], w.nextTask);
    if |w.workers[wid].tasks| == w.workers[wid].concurrency {
      FullIsTooMuch(w, wid, id);
      vs, fs := [w], [];
    } else {
      var submit, claim := OneMore(w, wid, id, timeout);
      var v := After(w, submit, timeout);
      vs, fs := FillUp(After(v, claim, timeout), wid, id, timeout);
      vs, fs := Prepend(v, claim, vs, fs, timeout);
      vs, fs := Prepend(w, submit, vs, fs, timeout);
    }
  }

  /** The task of an entry whose job the worker does not run may end. */
  lemma ClearOne(w: World, wid: WorkerId, id: JobId, b: JobId, timeout: Time) returns (e: Event)
    requires Uncounted(w, wid, id) && b in w.workers[wid].tasks && !RunningOn(w, b, wid)
    ensures CanHappen(w, e, timeout) && Careful(w, e)
    ensures var r := After(w, e, timeout);
            Uncounted(r, wid, id) && |r.workers[wid].tasks| < |w.workers[wid].tasks|
  {
    var tasks := w.workers[wid].tasks;
    e := Finishes(wid, tasks[b]);
    assert WorkerOk(w.workers[wid], w.nextTask);
    var r := After(w, e, timeout);
    FinishKeepsTasks(w, wid, tasks[b]);
    assert RunningOn(r, id, wid) == RunningOn(w, id, wid);
    assert r.workers[wid].tasks.Keys == tasks.Keys - {b};
    assert Exclusive(r);
  }

  /** From such a state careful steps lead beyond the concurrency: end the tasks of finished jobs, and
      claim new jobs until the dictionary is full. */
  lemma {:induction false} Overflow(w: World, wid: WorkerId, id: JobId, timeout: Time)
    returns (vs: seq<World>, fs: seq<Event>)
    requires Uncounted(w, wid, id)
    ensures CarefulRun(vs, fs, timeout) && vs[0] == w && !CapacityKept(vs[|fs|])
    decreases |w.workers[wid].tasks|
  {
    if NoStaleEntry(w, wid) {
      vs, fs := FillUp(w, wid, id, timeout);
    } else {
      var b :| b in w.workers[wid].tasks && !RunningOn(w, b, wid);
      var e := ClearOne(w, wid, id, b, timeout);
      vs, fs := Overflow(After(w, e, timeout), wid, id, timeout);
      vs, fs := Prepend(w, e, vs, fs, timeout);
    }
  }

  // ---------------------------------------------------------------- the exact condition

  /** A task spawned for a job that its worker is running, or at least owns, leaves that job uncounted
      when it ends. */
  lemma EndingUncounts(w: World, wid: WorkerId, t: TaskId, timeout: Time)
    requires TasksOk(w) && Exclusive(w) && CanHappen(w, Finishes(wid, t), timeout)
    requires RunningOn(w, w.workers[wid].unfinished[t], wid)
    ensures Uncounted(After(w, Finishes(wid, t), timeout), wid, w.workers[wid].unfinished[t])
  {
    FinishKeepsTasks(w, wid, t);
    EventKeepsExclusive(w, Finishes(wid, t), timeout);
  }

  /** After a reclaim the old task ends, and its callback removes the entry of the new one. */
  lemma {:induction false} ReclaimingUncounts(w: World, wid: WorkerId, id: JobId, now: Time, timeout: Time)
    requires TasksOk(w) && Exclusive(w) && CanHappen(w, Claims(wid, id, now), timeout)
             && !Careful(w, Claims(wid, id, now))
    ensures var v, e := After(w, Claims(wid, id, now), timeout), Finishes(wid, w.workers[wid].tasks[id]);
            CanHappen(v, e, timeout) && Careful(v, e) && Uncounted(After(v, e, timeout), wid, id)
  {
    var t := w.workers[wid].tasks[id];
    assert WorkerOk(w.workers[wid], w.nextTask);
    EventKeepsTasks(w, Claims(wid, id, now), timeout);
    EventKeepsExclusive(w, Claims(wid, id, now), timeout);
    ClaimRuns(w, wid, id, now);
    EndingUncounts(After(w, Claims(wid, id, now), timeout), wid, t, timeout);
  }

  /** After careful events only, an event keeps the capacity of all workers in every careful
      continuation if and only if it is careful itself: a claim of a job not in the worker's
      dictionary, or the end of a task whose job is no longer RUNNING. */
  lemma CapacityKeptIff(ws: seq<World>, es: seq<Event>, timeout: Time, k: nat, e: Event)
    requires History(ws, es, timeout) && k < |ws| && CanHappen(ws[k], e, timeout)
    requires forall m: nat :: m < k ==> Careful(ws[m], es[m])
    ensures SafeFrom(After(ws[k], e, timeout), timeout) <==> Careful(ws[k], e)
  {
    HistoryKeepsTasks(ws, es, timeout, k);
    CarefulKeepsTracked(ws, es, timeout, k);
    var w, r := ws[k], After(ws[k], e, timeout);
    if Careful(w, e) {
      EventKeepsTasks(w, e, timeout);
      EventKeepsExclusive(w, e, timeout);
      TrackedIsSafe(r, timeout);
    } else {
      var vs, fs := CarelessOverflows(w, e, timeout);
      assert CarefulRun(vs, fs, timeout) && vs[0] == r && !CapacityKept(vs[|fs|]);
    }
  }

  lemma CarelessOverflows(w: World, e: Event, timeout: Time) returns (vs: seq<World>, fs: seq<Event>)
    requires TasksOk(w) && Exclusive(w) && CanHappen(w, e, timeout) && !Careful(w, e)
    ensures CarefulRun(vs, fs, timeout) && vs[0] == After(w, e, timeout) && !CapacityKept(vs[|fs|])
  {
    match e
    case Claims(wid, id, now) =>
      ReclaimingUncounts(w, wid, id, now, timeout);
      var v, ended := After(w, e, timeout), Finishes(wid, w.workers[wid].tasks[id]);
      vs, fs := Overflow(After(v, ended, timeout), wid, id, timeout);
      vs, fs := Prepend(v, ended, vs, fs, timeout);
    case Finishes(wid, t) =>
      EndingUncounts(w, wid, t, timeout);
      vs, fs := Overflow(After(w, e, timeout), wid, w.workers[wid].unfinished[t], timeout);
  }

  // ---------------------------------------------------------------- concrete histories

  /** The events that are not careful. */
  ghost predicate CarelessAt(ws: seq<World>, es: seq<Event>, n: nat) {
    |ws| == |es| + 1 && n < |es| && forall m: nat :: m < |es| ==> (Careful(ws[m], es[m]) <==> m != n)
  }

  lemma Happens(ws: seq<World>, es: seq<Event>, timeout: Time, e: Event) returns (ws': seq<World>, es': seq<Event>)
    requires History(ws, es, timeout) && CanHappen(ws[|es|], e, timeout)
    ensures ws' == ws + [After(ws[|es|], e, timeout)] && es' == es + [e] && History(ws', es', timeout)
  {
    ws', es' := ws + [After(ws[|es|], e, timeout)], es + [e];
    forall k: nat | k < |es'|
      ensures CanHappen(ws'[k], es'[k], timeout) && ws'[k + 1] == After(ws'[k], es'[k], timeout)
    {
      if k < |es| {
        assert ws'[k] == ws[k] && es'[k] == es[k] && ws'[k + 1] == ws[k + 1];
      }
    }
  }

  lemma JoinedAt(ws: seq<World>, es: seq<Event>, vs: seq<World>, fs: seq<Event>, k: nat)
    requires |ws| == |es| + 1 && |vs| == |fs| + 1 && vs[0] == ws[|es|] && k < |es| + |fs|
    ensures var us, gs := ws + vs[1..], es + fs;
            if k < |es| then us[k] == ws[k] && gs[k] == es[k] && us[k + 1] == ws[k + 1]
            else us[k] == vs[k - |es|] && gs[k] == fs[k - |es|] && us[k + 1] == vs[k - |es| + 1]
  {
  }

  lemma JoinedEnd(ws: seq<World>, es: seq<Event>, vs: seq<World>, fs: seq<Event>)
    requires |ws| == |es| + 1 && |vs| == |fs| + 1 && vs[0] == ws[|es|]
    ensures |ws + vs[1..]| == |es + fs| + 1 && (ws + vs[1..])[|es + fs|] == vs[|fs|]
  {
  }

  lemma {:induction false} FollowsAt(ws: seq<World>, es: seq<Event>, timeout: Time, vs: seq<World>, fs: seq<Event>,
                                     n: nat, k: nat)
    requires History(ws, es, timeout) && CarelessAt(ws, es, n) && CarefulRun(vs, fs, timeout) && vs[0] == ws[|es|]
    requires k < |es| + |fs|
    ensures var us, gs := ws + vs[1..], es + fs;
            && CanHappen(us[k], gs[k], timeout) && us[k + 1] == After(us[k], gs[k], timeout)
            && (Careful(us[k], gs[k]) <==> k != n)
  {
    JoinedAt(ws, es, vs, fs, k);
  }

  lemma {:induction false} CarefulFollows(ws: seq<World>, es: seq<Event>, timeout: Time, vs: seq<World>,
                                          fs: seq<Event>, n: nat)
    returns (us: seq<World>, gs: seq<Event>)
    requires History(ws, es, timeout) && CarelessAt(ws, es, n) && CarefulRun(vs, fs, timeout) && vs[0] == ws[|es|]
    ensures History(us, gs, timeout) && CarelessAt(us, gs, n) && us[|gs|] == vs[|fs|] && es <= gs
  {
    us, gs := ws + vs[1..], es + fs;
    JoinedEnd(ws, es, vs, fs);
    forall k: nat | k < |gs|
      ensures CanHappen(us[k], gs[k], timeout) && us[k + 1] == After(us[k], gs[k], timeout)
      ensures Careful(us[k], gs[k]) <==> k != n
    {
      FollowsAt(ws, es, timeout, vs, fs, n, k);
    }
  }

  /** Any one careless event after careful ones can be followed by careful ones up to more running
      jobs than the worker has slots. */
  lemma ThenOverflows(ws: seq<World>, es: seq<Event>, timeout: Time, e: Event) returns (us: seq<World>, gs: seq<Event>)
    requires History(ws, es, timeout) && CanHappen(ws[|es|], e, timeout) && !Careful(ws[|es|], e)
    requires forall m: nat :: m < |es| ==> Careful(ws[m], es[m])
    ensures History(us, gs, timeout) && CarelessAt(us, gs, |es|) && gs[|es|] == e && !CapacityKept(us[|gs|])
  {
    HistoryKeepsTasks(ws, es, timeout, |es|);
    var vs, fs := CarelessOverflows(ws[|es|], e, timeout);
    us, gs := CarelessNext(ws, es, timeout, e);
    us, gs := CarefulFollows(us, gs, timeout, vs, fs, |es|);
  }

  lemma CarelessNext(ws: seq<World>, es: seq<Event>, timeout: Time, e: Event) returns (us: seq<World>, gs: seq<Event>)
    requires History(ws, es, timeout) && CanHappen(ws[|es|], e, timeout) && !Careful(ws[|es|], e)
    requires forall m: nat :: m < |es| ==> Careful(ws[m], es[m])
    ensures us == ws + [After(ws[|es|], e, timeout)] && gs == es + [e]
    ensures History(us, gs, timeout) && CarelessAt(us, gs, |es|)
  {
    us, gs := Happens(ws, es, timeout, e);
    OneCareless(ws, es, After(ws[|es|], e, timeout), e);
  }

  lemma OneCareless(ws: seq<World>, es: seq<Event>, w: World, e: Event)
    requires |ws| == |es| + 1 && !Careful(ws[|es|], e) && forall m: nat :: m < |es| ==> Careful(ws[m], es[m])
    ensures CarelessAt(ws + [w], es + [e], |es|)
  {
    var us, gs := ws + [w], es + [e];
    forall m: nat | m < |gs| ensures Careful(us[m], gs[m]) <==> m != |es| {
      assert us[m] == ws[m] && (m < |es| ==> gs[m] == es[m]);
    }
  }

  const ANY: Submission := Submission("vm", None, None, None, None)

  /** Worker 0 has two slots and runs job 0 in task 0. */
  ghost predicate OneRunning(w: World) {
    && w.workers == map[0 := Worker(2, map[0 := 0], map[0 := 0])] && w.holder == map[0 := 0]
    && w.nextJob == 1 && w.nextTask == 1
    && w.jobs == map[0 := Apply(NewJob(ANY, 0), Claim(0, 0))]
  }

  lemma ClaimFirstJob(timeout: Time) returns (ws: seq<World>, es: seq<Event>)
    ensures History(ws, es, timeout) && |es| == 3 && OneRunning(ws[3])
    ensures forall m: nat :: m < 3 ==> Careful(ws[m], es[m])
  {
    ws, es := Happens([EMPTY], [], timeout, Joins(0, 2));
    ws, es := Happens(ws, es, timeout, Submits(ANY, true, 0));
    assert ws[2].jobs == map[0 := NewJob(ANY, 0)];
    ws, es := Happens(ws, es, timeout, Claims(0, 0, 0));
  }

  /** The task of job 0 ends although the job is RUNNING; a worker comes to hold more running jobs than
      it has slots. */
  lemma AbandonedJobExceedsConcurrency(timeout: Time) returns (ws: seq<World>, es: seq<Event>)
    ensures History(ws, es, timeout) && CarelessAt(ws, es, 3) && es[3].Finishes? && !CapacityKept(ws[|es|])
  {
    ws, es := ClaimFirstJob(timeout);
    FirstTaskMayEnd(ws[3], timeout);
    ws, es := ThenOverflows(ws, es, timeout, Finishes(0, 0));
  }

  lemma FirstTaskMayEnd(w: World, timeout: Time)
    requires OneRunning(w)
    ensures CanHappen(w, Finishes(0, 0), timeout) && !Careful(w, Finishes(0, 0))
    ensures CanHappen(w, Works(0, 0, 0, FailBefore), timeout)
  {
  }

  /** Job 0 has failed and is queued again; worker 0 still holds its first task. */
  ghost predicate OneQueuedAgain(w: World) {
    && w.workers == map[0 := Worker(2, map[0 := 0], map[0 := 0])] && w.jobs.Keys == {0}
    && w.jobs[0].status.Queued? && w.jobs[0].queuedAt == 0
  }

  lemma FailAndRetryFirstJob(timeout: Time) returns (ws: seq<World>, es: seq<Event>)
    ensures History(ws, es, timeout) && |es| == 5 && forall m: nat :: m < 5 ==> Careful(ws[m], es[m])
    ensures OneQueuedAgain(ws[5])
  {
    ws, es := ClaimFirstJob(timeout);
    var before, first := ws, es;
    FirstJobQueuedAgain(ws[3], timeout);
    ws, es := Happens(ws, es, timeout, Works(0, 0, 0, FailBefore));
    ws, es := Happens(ws, es, timeout, Retries(0, None, 0));
    forall m: nat | m < 5 ensures Careful(ws[m], es[m]) {
      if m < 3 {
        assert ws[m] == before[m] && es[m] == first[m];
      }
    }
  }

  /** Its only job has failed. */
  ghost predicate OneFailed(w: World) {
    && w.workers == map[0 := Worker(2, map[0 := 0], map[0 := 0])]
    && w.jobs == map[0 := Apply(Apply(NewJob(ANY, 0), Claim(0, 0)), FailBefore)]
  }

  lemma {:induction false} FirstJobFails(w: World, timeout: Time)
    requires OneRunning(w)
    ensures CanHappen(w, Works(0, 0, 0, FailBefore), timeout)
            && OneFailed(After(w, Works(0, 0, 0, FailBefore), timeout))
  {
    FailsBefore(w.jobs[0]);
    assert w.jobs[0 := Apply(w.jobs[0], FailBefore)] == map[0 := Apply(w.jobs[0], FailBefore)];
  }

  lemma {:induction false} FailedJobQueuedAgain(w: World, timeout: Time)
    requires OneFailed(w)
    ensures CanHappen(w, Retries(0, None, 0), timeout) && OneQueuedAgain(After(w, Retries(0, None, 0), timeout))
  {
    FailsBefore(Apply(NewJob(ANY, 0), Claim(0, 0)));
    assert !NameTaken(w, w.jobs[0].submission, Some(0)) && !AddressTaken(w, w.jobs[0].submission, Some(0));
  }

  lemma {:induction false} FirstJobQueuedAgain(w: World, timeout: Time)
    requires OneRunning(w)
    ensures CanHappen(w, Works(0, 0, 0, FailBefore), timeout)
    ensures var v := After(w, Works(0, 0, 0, FailBefore), timeout);
            CanHappen(v, Retries(0, None, 0), timeout) && OneQueuedAgain(After(v, Retries(0, None, 0), timeout))
  {
    FirstJobFails(w, timeout);
    FailedJobQueuedAgain(After(w, Works(0, 0, 0, FailBefore), timeout), timeout);
  }

  /** A new job that fails before its pipeline can be retried, and is queued again then. */
  lemma FailsBefore(j: Job)
    requires j == Apply(NewJob(ANY, 0), Claim(0, 0))
    ensures var r := Apply(j, FailBefore);
            Enabled(j, FailBefore) && RetryAllowed(r, None) && ResetSet(r, None) != {}
            && Retry(r, None, 0).status.Queued?
  {
    var r := Apply(j, FailBefore);
    assert 0 in r.steps && r.steps[0].status.Cancelled?;
    assert 0 in ResetSet(r, None);
  }

  /** Worker 0 reclaims job 0 while it still holds its first task; again it comes to hold more running
      jobs than it has slots. */
  lemma ReclaimExceedsConcurrency(timeout: Time) returns (ws: seq<World>, es: seq<Event>)
    ensures History(ws, es, timeout) && CarelessAt(ws, es, 5) && es[5].Claims? && !CapacityKept(ws[|es|])
  {
    ws, es := FailAndRetryFirstJob(timeout);
    ws, es := ThenOverflows(ws, es, timeout, Claims(0, 0, 0));
  }

  // ---------------------------------------------------------------- abandoned jobs

  /** RUNNING, but no task of a live worker is left to run it: its task ended, or its worker died. */
  ghost predicate Abandoned(w: World, id: JobId) {
    id in w.jobs && w.jobs[id].status.Running? && id in w.holder
    && forall wid :: wid in w.workers ==> w.holder[id] !in w.workers[wid].unfinished
  }

  predicate ReapsJob(e: Event, id: JobId) { e.Reaps? && e.job == id }

  /** Nothing but a cancel request reaches the row. */
  lemma AbandonedAction(w: World, e: Event, timeout: Time, id: JobId)
    requires Exclusive(w) && CanHappen(w, e, timeout) && Abandoned(w, id) && !ReapsJob(e, id)
    ensures ActionOn(w, e, id).Elsewhere? || ActionOn(w, e, id).Cancel?
  {
  }

  lemma AbandonedKeepsTask(w: World, e: Event, timeout: Time, id: JobId)
    requires TasksOk(w) && CanHappen(w, e, timeout) && Abandoned(w, id)
    ensures var r := After(w, e, timeout);
            id in r.holder && forall wid :: wid in r.workers ==> r.holder[id] !in r.workers[wid].unfinished
  {
    match e
    case Claims(wid, b, now) => ClaimKeepsAbandoned(w, wid, b, now, id);
    case Submits(_, _, _) => JobEventKeepsWorkers(w, e, timeout);
    case Works(_, _, _, _) => JobEventKeepsWorkers(w, e, timeout);
    case Reaps(_, _, _, _, _) => JobEventKeepsWorkers(w, e, timeout);
    case Retries(_, _, _) => JobEventKeepsWorkers(w, e, timeout);
    case Cancels(_, _) => JobEventKeepsWorkers(w, e, timeout);
    case _ =>
  }

  lemma ClaimKeepsAbandoned(w: World, wid: WorkerId, b: JobId, now: Time, id: JobId)
    requires TasksOk(w) && Abandoned(w, id) && wid in w.workers && b in w.jobs && Enabled(w.jobs[b], Claim(wid, now))
    ensures var r := Claimed(w, wid, b, now);
            id in r.holder && forall k :: k in r.workers ==> r.holder[id] !in r.workers[k].unfinished
  {
    assert w.holder[id] < w.nextTask && b != id;
  }

  lemma AbandonedStep(w: World, e: Event, timeout: Time, id: JobId)
    requires TasksOk(w) && Exclusive(w) && CanHappen(w, e, timeout) && Abandoned(w, id) && !ReapsJob(e, id)
    ensures var r := After(w, e, timeout);
            && Abandoned(r, id) && r.jobs[id].heartbeatAt == w.jobs[id].heartbeatAt
            && r.jobs[id].workerId == w.jobs[id].workerId && r.jobs[id].steps == w.jobs[id].steps
  {
    EventActsOnJob(w, e, timeout, id);
    AbandonedAction(w, e, timeout, id);
    AbandonedKeepsTask(w, e, timeout, id);
  }

  lemma AbandonedNext(w: World, e: Event, r: World, timeout: Time, id: JobId)
    requires TasksOk(w) && Exclusive(w) && CanHappen(w, e, timeout) && Abandoned(w, id) && !ReapsJob(e, id)
    requires r == After(w, e, timeout)
    ensures Abandoned(r, id) && r.jobs[id].heartbeatAt == w.jobs[id].heartbeatAt
    ensures r.jobs[id].workerId == w.jobs[id].workerId && r.jobs[id].steps == w.jobs[id].steps
  {
    AbandonedStep(w, e, timeout, id);
  }

  /** An abandoned job stays as it is, without another heartbeat, until it is reaped. */
  lemma {:induction false} AbandonedUntilReaped(ws: seq<World>, es: seq<Event>, timeout: Time, k: nat, m: nat,
                                                id: JobId)
    requires History(ws, es, timeout) && k <= m < |ws| && Abandoned(ws[k], id)
    requires forall i: nat :: k <= i < m ==> !ReapsJob(es[i], id)
    ensures Abandoned(ws[m], id) && ws[m].jobs[id].heartbeatAt == ws[k].jobs[id].heartbeatAt
    ensures ws[m].jobs[id].workerId == ws[k].jobs[id].workerId && ws[m].jobs[id].steps == ws[k].jobs[id].steps
  {
    if k < m {
      AbandonedUntilReaped(ws, es, timeout, k, m - 1, id);
      HistoryKeepsTasks(ws, es, timeout, m - 1);
      AbandonedNext(ws[m - 1], es[m - 1], ws[m], timeout, id);
    }
  }

  /** No task belongs to two workers. */
  ghost predicate TasksUnique(w: World) {
    forall a, b, t ::
      a in w.workers && b in w.workers && t in w.workers[a].unfinished && t in w.workers[b].unfinished ==> a == b
  }

  /** A claim spawns a task with a new number. */
  lemma {:induction false} ClaimKeepsUnique(w: World, wid: WorkerId, id: JobId, now: Time)
    requires TasksOk(w) && TasksUnique(w) && wid in w.workers && id in w.jobs && Enabled(w.jobs[id], Claim(wid, now))
    ensures TasksUnique(Claimed(w, wid, id, now))
  {
    forall a | a in w.workers ensures w.nextTask !in w.workers[a].unfinished {
      assert WorkerOk(w.workers[a], w.nextTask);
    }
  }

  lemma {:induction false} EventKeepsUnique(w: World, e: Event, timeout: Time)
    requires TasksOk(w) && TasksUnique(w) && CanHappen(w, e, timeout)
    ensures TasksUnique(After(w, e, timeout))
  {
    match e
    case Claims(wid, id, now) => ClaimKeepsUnique(w, wid, id, now);
    case Joins(_, _) =>
    case Dies(_) =>
    case Finishes(_, _) =>
    case _ => JobEventKeepsWorkers(w, e, timeout);
  }

  lemma UniqueNext(w: World, e: Event, r: World, timeout: Time)
    requires TasksOk(w) && TasksUnique(w) && CanHappen(w, e, timeout) && r == After(w, e, timeout)
    ensures TasksUnique(r)
  {
    EventKeepsUnique(w, e, timeout);
  }

  lemma {:induction false} TasksAreUnique(ws: seq<World>, es: seq<Event>, timeout: Time, k: nat)
    requires History(ws, es, timeout) && k < |ws|
    ensures TasksUnique(ws[k])
  {
    if k > 0 {
      TasksAreUnique(ws, es, timeout, k - 1);
      HistoryKeepsTasks(ws, es, timeout, k - 1);
      UniqueNext(ws[k - 1], es[k - 1], ws[k], timeout);
    }
  }

  /** A task that ends while its job is RUNNING abandons the job, and the worker no longer excludes it
      from its reaping. */
  lemma EndedTaskAbandons(ws: seq<World>, es: seq<Event>, timeout: Time, k: nat)
    requires History(ws, es, timeout) && k < |es| && es[k].Finishes?
    ensures var id := ws[k].workers[es[k].worker].unfinished[es[k].task];
            && id !in ws[k + 1].workers[es[k].worker].tasks
            && (!Careful(ws[k], es[k]) ==> Abandoned(ws[k + 1], id) && !Abandoned(ws[k], id))
  {
    TasksAreUnique(ws, es, timeout, k);
    if !Careful(ws[k], es[k]) {
      EndAbandons(ws[k], es[k].worker, es[k].task);
    }
  }

  lemma EndAbandons(w: World, wid: WorkerId, t: TaskId)
    requires TasksUnique(w) && wid in w.workers && t in w.workers[wid].unfinished
    requires Runs(w, wid, w.workers[wid].unfinished[t], t)
    ensures Abandoned(TaskFinished(w, wid, t), w.workers[wid].unfinished[t])
            && !Abandoned(w, w.workers[wid].unfinished[t])
  {
  }

  /** Once its last heartbeat lies further back than the timeout, every live worker that holds no older
      task of the job can reap an abandoned job, and not before; it is then INTERRUPTED. */
  lemma AbandonedIsReapable(ws: seq<World>, es: seq<Event>, timeout: Time, k: nat, m: nat, id: JobId, wid: WorkerId,
                            now: Time, removed: bool, cleaned: bool)
    requires History(ws, es, timeout) && k <= m < |ws| && Abandoned(ws[k], id)
    requires forall i: nat :: k <= i < m ==> !ReapsJob(es[i], id)
    requires wid in ws[m].workers && id !in ws[m].workers[wid].tasks
    ensures ws[k].jobs[id].heartbeatAt.Some?
    ensures var e := Reaps(wid, id, now, removed, cleaned);
            && (CanHappen(ws[m], e, timeout) <==> now - ws[k].jobs[id].heartbeatAt.value > timeout)
            && (CanHappen(ws[m], e, timeout) ==> After(ws[m], e, timeout).jobs[id].status.Interrupted?)
  {
    OwnershipAlways(ws, es, timeout, k, id);
    AbandonedUntilReaped(ws, es, timeout, k, m, id);
  }
}
