/** The whole process as one state machine: the store, the scheduler, the
    worker threads that are running, and two observation logs (every job
    handed to `addJob`, and every job handed to `spawnWorker`, in order).

    Events are the requests the route serves and what worker threads report.
    A worker's report is the message `processFibonacciJob` would post for its
    job, given how the PDF renderer ended. An event that names a worker that
    is not running leaves the state unchanged, and so does a request whose
    id is not fresh (`uuidv4()` does not hand out an id twice). Time does not
    run backwards: `clock` is the time of the latest timed event, and an
    event stamped earlier leaves the state unchanged. */
module Service {
  import opened Wrappers
  import Decimal
  import Cache
  import JobQueue
  import FibonacciWorker
  import PdfGenerator
  import FibonacciRoute

  datatype System = System(
    store: Cache.Store,
    sched: JobQueue.Scheduler,
    running: seq<JobQueue.QueuedJob>,
    submitted: seq<JobQueue.QueuedJob>,
    started: seq<JobQueue.QueuedJob>,
    maxN: int,
    clock: int)

  datatype Event =
    | Submit(param: FibonacciRoute.Param, freshId: string, now: int)
    | WorkerMessage(worker: nat, render: FibonacciWorker.RenderOutcome, now: int)
    | WorkerError(worker: nat, message: string, now: int)
    | WorkerExit(worker: nat, code: int, now: int)
    | StoreTransportError
    | ExpiryTimers(now: int)

  /** Process start-up, from the three environment settings. */
  function Init(envExpiry: Option<int>, envMaxWorkers: Option<int>, envMaxN: Option<int>): System {
    System(Cache.InitialStore(envExpiry), JobQueue.InitialScheduler(envMaxWorkers), [], [], [],
           FibonacciRoute.MaxN(envMaxN), 0)
  }

  /** The message the worker for `job` posts: it is spawned with both fields. */
  function MessageOf(job: JobQueue.QueuedJob, render: FibonacciWorker.RenderOutcome): FibonacciWorker.WorkerMessage {
    FibonacciWorker.ProcessJob(Some(job.jobId), Some(job.n), render)
  }

  function RemoveAt<T>(s: seq<T>, k: nat): seq<T>
    requires k < |s|
  {
    s[..k] + s[k + 1..]
  }

  /** An id `uuidv4()` could return: never submitted before and naming no
      live record. */
  predicate Fresh(s: System, id: string, now: int) {
    id !in JobQueue.JobIds(s.submitted) && Cache.GetJob(s.store, id, now).None?
  }

  function Step(s: System, e: Event): System {
    match e
    case Submit(param, freshId, now) =>
      if now < s.clock || !Fresh(s, freshId, now) then s else
      var o := FibonacciRoute.Post(s.store, s.sched, param, s.maxN, freshId, now);
      s.(store := o.store, sched := o.sched, running := s.running + o.spawned,
         submitted := s.submitted + o.enqueued, started := s.started + o.spawned, clock := now)
    case WorkerMessage(k, render, now) =>
      if s.clock <= now && k < |s.running| then
        s.(store := JobQueue.OnMessage(s.store, s.running[k], MessageOf(s.running[k], render), now), clock := now)
      else s
    case WorkerError(k, message, now) =>
      if s.clock <= now && k < |s.running| then
        s.(store := JobQueue.OnWorkerError(s.store, s.running[k], message, now), clock := now)
      else s
    case WorkerExit(k, code, now) =>
      if s.clock <= now && k < |s.running| then
        var d := JobQueue.WorkerExited(s.sched, code);
        s.(store := JobQueue.MarkProcessing(s.store, d.spawned, now), sched := d.sched,
           running := RemoveAt(s.running, k) + d.spawned, started := s.started + d.spawned, clock := now)
      else s
    case StoreTransportError =>
      s.(store := Cache.SwitchToMemory(s.store))
    case ExpiryTimers(now) =>
      if now < s.clock then s else s.(store := Cache.Purge(s.store, now), clock := now)
  }

  function Run(s: System, events: seq<Event>): System
    decreases |events|
  {
    if |events| == 0 then s else Run(Step(s, events[0]), events[1..])
  }

  /** What holds of every reachable state: the scheduler's bookkeeping, every
      job record carrying its own input, every index entry carrying the
      Fibonacci number of the input it is filed under, and the job
      lifecycle. */
  ghost predicate Inv(s: System) {
    SchedInv(s) && JobsCarryInputs(s.store, s.submitted) && IndexAnswersFib(s.store) && Lifecycle(s)
  }

  /** The scheduler's bookkeeping:
      - the counter equals the number of running workers, and never exceeds
        the ceiling once anything runs;
      - no slot is idle while work waits;
      - the started jobs followed by the queue are exactly the submitted jobs,
        in order: dispatch is FIFO and nothing is lost or duplicated;
      - every running worker belongs to a started job;
      - every submitted input passed validation. */
  ghost predicate SchedInv(s: System) {
    && s.sched.active == |s.running|
    && (s.sched.active == 0 || s.sched.active <= s.sched.maxWorkers)
    && JobQueue.Settled(s.sched)
    && s.started + s.sched.queue == s.submitted
    && (forall j :: j in s.running ==> j in s.started && 0 <= j.n)
    && (forall i :: 0 <= i < |s.submitted| ==> 0 <= s.submitted[i].n <= s.maxN)
  }

  /** Whenever the record of a job in `jobs` can be read, it holds that
      job's input. */
  ghost predicate JobsCarryInputs(store: Cache.Store, jobs: seq<JobQueue.QueuedJob>) {
    forall j, t :: j in jobs && Cache.GetJob(store, j.jobId, t).Some? ==>
      Cache.GetJob(store, j.jobId, t).value.n == Some(j.n)
  }

  /** Whatever the index answers for `m` is the decimal of Fib(m). */
  ghost predicate IndexAnswersFib(store: Cache.Store) {
    forall m, t :: Cache.GetResultByInput(store, m, t).Some? ==>
      && 0 <= m
      && Cache.GetResultByInput(store, m, t).value.result == Some(Decimal.IntToString(FibonacciWorker.Fib(m)))
  }

  /** The job lifecycle `pending` → `processing` → `completed`/`failed`:
      - no two submitted jobs share an id;
      - the record of a job still in the queue, whenever it can be read, is
        `pending`;
      - the record of a started job, read at or after the latest event, is
        never `pending` again. */
  ghost predicate Lifecycle(s: System) {
    && UniqueIds(s.submitted)
    && QueuedPending(s.store, s.sched.queue)
    && StartedNotPending(s.store, s.started, s.clock)
  }

  ghost predicate UniqueIds(jobs: seq<JobQueue.QueuedJob>) {
    forall i, j :: 0 <= i < j < |jobs| ==> jobs[i].jobId != jobs[j].jobId
  }

  /** No job of `a` shares its id with a job of `b`. */
  ghost predicate IdsApart(a: seq<JobQueue.QueuedJob>, b: seq<JobQueue.QueuedJob>) {
    forall x, y :: x in a && y in b ==> x.jobId != y.jobId
  }

  ghost predicate QueuedPending(store: Cache.Store, queue: seq<JobQueue.QueuedJob>) {
    forall j, t :: j in queue && Cache.GetJob(store, j.jobId, t).Some? ==>
      Cache.GetJob(store, j.jobId, t).value.status == Cache.Pending
  }

  ghost predicate StartedNotPending(store: Cache.Store, started: seq<JobQueue.QueuedJob>, clock: int) {
    forall j, t :: j in started && clock <= t && Cache.GetJob(store, j.jobId, t).Some? ==>
      Cache.GetJob(store, j.jobId, t).value.status != Cache.Pending
  }

  /** Ids unique over `a + b` keep `a`'s and `b`'s apart. */
  lemma UniqueSplit(a: seq<JobQueue.QueuedJob>, b: seq<JobQueue.QueuedJob>)
    requires UniqueIds(a + b)
    ensures IdsApart(a, b)
  {
    forall x, y | x in a && y in b
      ensures x.jobId != y.jobId
    {
      var i :| 0 <= i < |a| && a[i] == x;
      var k :| 0 <= k < |b| && b[k] == y;
      assert (a + b)[i] == x && (a + b)[|a| + k] == y;
    }
  }

  /** Appending a job with a new id keeps ids unique. */
  lemma UniqueAppend(jobs: seq<JobQueue.QueuedJob>, job: JobQueue.QueuedJob)
    requires UniqueIds(jobs)
    requires job.jobId !in JobQueue.JobIds(jobs)
    ensures UniqueIds(jobs + [job])
  {
    var js := jobs + [job];
    forall i, j | 0 <= i < j < |js|
      ensures js[i].jobId != js[j].jobId
    {
      if j == |jobs| {
        assert js[i] in jobs;
      }
    }
  }

  /** A write that keeps every record's input keeps "every record carries its
      job's input". */
  lemma InputsCarried(before: Cache.Store, after: Cache.Store, now: int, jobs: seq<JobQueue.QueuedJob>)
    requires JobsCarryInputs(before, jobs)
    requires Cache.InputsKept(before, after, now)
    ensures JobsCarryInputs(after, jobs)
  {
    forall j, t | j in jobs && Cache.GetJob(after, j.jobId, t).Some?
      ensures Cache.GetJob(after, j.jobId, t).value.n == Some(j.n)
    {
      assert Cache.InputsKept(before, after, now);
    }
  }

  lemma InitSatisfiesInv(envExpiry: Option<int>, envMaxWorkers: Option<int>, envMaxN: Option<int>)
    ensures Inv(Init(envExpiry, envMaxWorkers, envMaxN))
  {
  }

  /** Handing `spawned` out of the front of the queue (after `enqueued` was
      appended) keeps "started, then queued, is submitted". */
  lemma FifoKept(started: seq<JobQueue.QueuedJob>, queue: seq<JobQueue.QueuedJob>, submitted: seq<JobQueue.QueuedJob>,
                 spawned: seq<JobQueue.QueuedJob>, queue': seq<JobQueue.QueuedJob>, enqueued: seq<JobQueue.QueuedJob>)
    requires started + queue == submitted
    requires spawned + queue' == queue + enqueued
    ensures (started + spawned) + queue' == submitted + enqueued
  {
    calc {
      (started + spawned) + queue';
      started + (spawned + queue');
      started + (queue + enqueued);
      (started + queue) + enqueued;
    }
  }

  /** Every queued job has a non-negative input when every submitted one does. */
  lemma QueuedInputsValid(started: seq<JobQueue.QueuedJob>, queue: seq<JobQueue.QueuedJob>, submitted: seq<JobQueue.QueuedJob>, maxN: int)
    requires started + queue == submitted
    requires forall i :: 0 <= i < |submitted| ==> 0 <= submitted[i].n <= maxN
    ensures forall j :: j in queue ==> 0 <= j.n
  {
    forall j | j in queue
      ensures 0 <= j.n
    {
      var i :| 0 <= i < |queue| && queue[i] == j;
      assert submitted[|started| + i] == j;
    }
  }

  /** Jobs handed out of the queue, together with the jobs that were already
      running, all belong to the started jobs and have non-negative inputs. */
  lemma RunningKept(running: seq<JobQueue.QueuedJob>, started: seq<JobQueue.QueuedJob>, queue: seq<JobQueue.QueuedJob>,
                    spawned: seq<JobQueue.QueuedJob>, queue': seq<JobQueue.QueuedJob>, enqueued: seq<JobQueue.QueuedJob>)
    requires forall j :: j in running ==> j in started && 0 <= j.n
    requires forall j :: j in queue ==> 0 <= j.n
    requires forall i :: 0 <= i < |enqueued| ==> 0 <= enqueued[i].n
    requires spawned + queue' == queue + enqueued
    ensures forall j :: j in running + spawned ==> j in started + spawned && 0 <= j.n
  {
    forall j | j in spawned
      ensures 0 <= j.n
    {
      assert j in queue + enqueued by {
        assert j in spawned + queue';
      }
    }
  }

  /** Appending validated inputs keeps every submitted input in range. */
  lemma BoundsKept(submitted: seq<JobQueue.QueuedJob>, enqueued: seq<JobQueue.QueuedJob>, maxN: int)
    requires forall i :: 0 <= i < |submitted| ==> 0 <= submitted[i].n <= maxN
    requires forall i :: 0 <= i < |enqueued| ==> 0 <= enqueued[i].n <= maxN
    ensures forall i :: 0 <= i < |submitted + enqueued| ==> 0 <= (submitted + enqueued)[i].n <= maxN
  {
    forall i | 0 <= i < |submitted + enqueued|
      ensures 0 <= (submitted + enqueued)[i].n <= maxN
    {
      if i >= |submitted| {
        assert (submitted + enqueued)[i] == enqueued[i - |submitted|];
      }
    }
  }

  lemma SubmitKeepsSched(s: System, param: FibonacciRoute.Param, freshId: string, now: int)
    requires SchedInv(s)
    ensures SchedInv(Step(s, Submit(param, freshId, now)))
  {
    if s.clock <= now && Fresh(s, freshId, now) {
      var o := FibonacciRoute.Post(s.store, s.sched, param, s.maxN, freshId, now);
      FifoKept(s.started, s.sched.queue, s.submitted, o.spawned, o.sched.queue, o.enqueued);
      QueuedInputsValid(s.started, s.sched.queue, s.submitted, s.maxN);
      RunningKept(s.running, s.started, s.sched.queue, o.spawned, o.sched.queue, o.enqueued);
      BoundsKept(s.submitted, o.enqueued, s.maxN);
    }
  }

  /** The index answers through its map alone. */
  lemma IndexUnchanged(before: Cache.Store, after: Cache.Store)
    requires IndexAnswersFib(before)
    requires after.index == before.index
    ensures IndexAnswersFib(after)
  {
    forall m, t | Cache.GetResultByInput(after, m, t).Some?
      ensures Cache.GetResultByInput(after, m, t) == Cache.GetResultByInput(before, m, t)
    {
    }
  }

  /** Storing the record of a fresh job keeps every submitted job's input,
      and the new record carries the new job's. */
  lemma NewRecordCarriesInput(store: Cache.Store, submitted: seq<JobQueue.QueuedJob>, freshId: string, n: int, now: int)
    requires JobsCarryInputs(store, submitted)
    requires freshId !in JobQueue.JobIds(submitted)
    ensures JobsCarryInputs(Cache.SetJob(store, freshId, FibonacciRoute.NewJob(n, now), store.defaultExpiry, now),
                            submitted + [JobQueue.QueuedJob(freshId, n)])
  {
    var stored := Cache.SetJob(store, freshId, FibonacciRoute.NewJob(n, now), store.defaultExpiry, now);
    forall j, t | j in submitted + [JobQueue.QueuedJob(freshId, n)] && Cache.GetJob(stored, j.jobId, t).Some?
      ensures Cache.GetJob(stored, j.jobId, t).value.n == Some(j.n)
    {
      if j in submitted {
        assert j.jobId in JobQueue.JobIds(submitted);
      }
    }
  }

  lemma SubmitKeepsInputs(s: System, param: FibonacciRoute.Param, freshId: string, now: int)
    requires JobsCarryInputs(s.store, s.submitted)
    ensures var s' := Step(s, Submit(param, freshId, now));
      JobsCarryInputs(s'.store, s'.submitted)
  {
    if s.clock <= now && Fresh(s, freshId, now) {
      var o := FibonacciRoute.Post(s.store, s.sched, param, s.maxN, freshId, now);
      var v := FibonacciRoute.Validate(param, s.maxN);
      if v.Failure? || Cache.GetResultByInput(s.store, v.value, now).Some? {
        assert s.submitted + o.enqueued == s.submitted;
      } else {
        var stored := Cache.SetJob(s.store, freshId, FibonacciRoute.NewJob(v.value, now), s.store.defaultExpiry, now);
        NewRecordCarriesInput(s.store, s.submitted, freshId, v.value, now);
        InputsCarried(stored, o.store, now, s.submitted + o.enqueued);
      }
    }
  }

  lemma SubmitPreservesInv(s: System, param: FibonacciRoute.Param, freshId: string, now: int)
    requires Inv(s)
    ensures Inv(Step(s, Submit(param, freshId, now)))
  {
    SubmitKeepsSched(s, param, freshId, now);
    SubmitKeepsInputs(s, param, freshId, now);
    SubmitKeepsLifecycle(s, param, freshId, now);
    IndexUnchanged(s.store, Step(s, Submit(param, freshId, now)).store);
  }

  /** After a dispatch round, the jobs still queued read back `pending`:
      their records are untouched unless they were just enqueued, and a just
      enqueued job that did not start was stored `pending`. */
  lemma QueueStaysPending(before: Cache.Store, after: Cache.Store, queue: seq<JobQueue.QueuedJob>,
                          enqueued: seq<JobQueue.QueuedJob>, spawned: seq<JobQueue.QueuedJob>, queue': seq<JobQueue.QueuedJob>)
    requires QueuedPending(before, queue)
    requires spawned + queue' == queue + enqueued
    requires IdsApart(spawned, queue')
    requires forall k, t :: k !in JobQueue.JobIds(spawned) && k !in JobQueue.JobIds(enqueued) ==>
      Cache.GetJob(after, k, t) == Cache.GetJob(before, k, t)
    requires forall k, t :: k in JobQueue.JobIds(enqueued) && k !in JobQueue.JobIds(spawned) && Cache.GetJob(after, k, t).Some? ==>
      Cache.GetJob(after, k, t).value.status == Cache.Pending
    ensures QueuedPending(after, queue')
  {
    forall j, t | j in queue' && Cache.GetJob(after, j.jobId, t).Some?
      ensures Cache.GetJob(after, j.jobId, t).value.status == Cache.Pending
    {
      assert j.jobId !in JobQueue.JobIds(spawned);
      assert j in queue + enqueued by {
        assert j in spawned + queue';
      }
      if j in enqueued {
        assert j.jobId in JobQueue.JobIds(enqueued);
      }
    }
  }

  /** After a dispatch round at `now`, every started job, old or new, is
      never `pending` from `now` on: the new ones were marked `processing`
      and the records of the old ones were not touched. */
  lemma StartedStayNotPending(before: Cache.Store, after: Cache.Store, started: seq<JobQueue.QueuedJob>,
                              enqueued: seq<JobQueue.QueuedJob>, spawned: seq<JobQueue.QueuedJob>, clock: int, now: int)
    requires StartedNotPending(before, started, clock)
    requires clock <= now
    requires forall j :: j in started ==> j.jobId !in JobQueue.JobIds(enqueued)
    requires forall k, t :: k !in JobQueue.JobIds(spawned) && k !in JobQueue.JobIds(enqueued) ==>
      Cache.GetJob(after, k, t) == Cache.GetJob(before, k, t)
    requires forall id :: id in JobQueue.JobIds(spawned) ==> Cache.StatusFrom(after, id, Cache.Processing, now)
    ensures StartedNotPending(after, started + spawned, now)
  {
    forall j, t | j in started + spawned && now <= t && Cache.GetJob(after, j.jobId, t).Some?
      ensures Cache.GetJob(after, j.jobId, t).value.status != Cache.Pending
    {
      if j.jobId in JobQueue.JobIds(spawned) {
        assert Cache.StatusFrom(after, j.jobId, Cache.Processing, now);
      } else {
        assert j in started;
      }
    }
  }

  /** A request that misses the index stores its new job as `pending` and
      queues it, or starts it and marks it `processing`; jobs it starts from
      the queue are marked `processing` too, and no other record changes. */
  lemma MissKeepsLifecycle(s: System, o: FibonacciRoute.PostOutcome, freshId: string, n: int, now: int)
    requires s.started + s.sched.queue == s.submitted
    requires Lifecycle(s)
    requires s.clock <= now
    requires freshId !in JobQueue.JobIds(s.submitted)
    requires o.enqueued == [JobQueue.QueuedJob(freshId, n)]
    requires o.spawned + o.sched.queue == s.sched.queue + o.enqueued
    requires forall k, t :: k != freshId && k !in JobQueue.JobIds(o.spawned) ==>
      Cache.GetJob(o.store, k, t) == Cache.GetJob(s.store, k, t)
    requires forall id :: id in JobQueue.JobIds(o.spawned) ==> Cache.StatusFrom(o.store, id, Cache.Processing, now)
    requires freshId !in JobQueue.JobIds(o.spawned) ==>
      forall t :: Cache.GetJob(o.store, freshId, t) ==
        (if t < now + s.store.defaultExpiry then Some(FibonacciRoute.NewJob(n, now)) else None)
    ensures UniqueIds(s.submitted + o.enqueued)
    ensures QueuedPending(o.store, o.sched.queue)
    ensures StartedNotPending(o.store, s.started + o.spawned, now)
  {
    assert JobQueue.JobIds(o.enqueued) == {freshId};
    UniqueAppend(s.submitted, JobQueue.QueuedJob(freshId, n));
    FifoKept(s.started, s.sched.queue, s.submitted, o.spawned, o.sched.queue, o.enqueued);
    UniqueSplit(s.started + o.spawned, o.sched.queue);
    forall j | j in s.started
      ensures j.jobId !in JobQueue.JobIds(o.enqueued)
    {
      assert j in s.started + s.sched.queue;
      assert j.jobId in JobQueue.JobIds(s.submitted);
    }
    QueueStaysPending(s.store, o.store, s.sched.queue, o.enqueued, o.spawned, o.sched.queue);
    StartedStayNotPending(s.store, o.store, s.started, o.enqueued, o.spawned, s.clock, now);
  }

  lemma SubmitKeepsLifecycle(s: System, param: FibonacciRoute.Param, freshId: string, now: int)
    requires SchedInv(s) && Lifecycle(s)
    ensures Lifecycle(Step(s, Submit(param, freshId, now)))
  {
    if s.clock <= now && Fresh(s, freshId, now) {
      var o := FibonacciRoute.Post(s.store, s.sched, param, s.maxN, freshId, now);
      var v := FibonacciRoute.Validate(param, s.maxN);
      if v.Success? && Cache.GetResultByInput(s.store, v.value, now).None? {
        MissKeepsLifecycle(s, o, freshId, v.value, now);
      } else {
        assert s.submitted + o.enqueued == s.submitted;
        assert s.started + o.spawned == s.started;
      }
    }
  }

  /** A handler that rewrites only the record of a started job, leaving it
      non-`pending` from `now` on, keeps the lifecycle. */
  lemma StartedWriteKeepsLifecycle(s: System, id: string, r: Cache.Store, now: int)
    requires SchedInv(s) && Lifecycle(s)
    requires s.clock <= now
    requires id in JobQueue.JobIds(s.started)
    requires forall k, t :: k != id ==> Cache.GetJob(r, k, t) == Cache.GetJob(s.store, k, t)
    requires forall t :: now <= t && Cache.GetJob(r, id, t).Some? ==> Cache.GetJob(r, id, t).value.status != Cache.Pending
    ensures Lifecycle(s.(store := r, clock := now))
  {
    UniqueSplit(s.started, s.sched.queue);
  }

  lemma MessageKeepsLifecycle(s: System, k: nat, render: FibonacciWorker.RenderOutcome, now: int)
    requires SchedInv(s) && Lifecycle(s)
    ensures Lifecycle(Step(s, WorkerMessage(k, render, now)))
  {
    if s.clock <= now && k < |s.running| {
      var job := s.running[k];
      assert job.jobId in JobQueue.JobIds(s.started);
      var r := JobQueue.OnMessage(s.store, job, MessageOf(job, render), now);
      StartedWriteKeepsLifecycle(s, job.jobId, r, now);
    }
  }

  lemma ErrorKeepsLifecycle(s: System, k: nat, message: string, now: int)
    requires SchedInv(s) && Lifecycle(s)
    ensures Lifecycle(Step(s, WorkerError(k, message, now)))
  {
    if s.clock <= now && k < |s.running| {
      var job := s.running[k];
      assert job.jobId in JobQueue.JobIds(s.started);
      var r := JobQueue.OnWorkerError(s.store, job, message, now);
      StartedWriteKeepsLifecycle(s, job.jobId, r, now);
    }
  }

  /** An exit starts the head job, if any, and marks it `processing`; the
      rest of the queue stays `pending`. */
  lemma ExitKeepsLifecycle(s: System, k: nat, code: int, now: int)
    requires SchedInv(s) && Lifecycle(s)
    ensures Lifecycle(Step(s, WorkerExit(k, code, now)))
  {
    if s.clock <= now && k < |s.running| {
      var d := JobQueue.WorkerExited(s.sched, code);
      var marked := JobQueue.MarkProcessing(s.store, d.spawned, now);
      FifoKept(s.started, s.sched.queue, s.submitted, d.spawned, d.sched.queue, []);
      assert s.submitted + [] == s.submitted;
      assert s.sched.queue + [] == s.sched.queue;
      UniqueSplit(s.started + d.spawned, d.sched.queue);
      QueueStaysPending(s.store, marked, s.sched.queue, [], d.spawned, d.sched.queue);
      StartedStayNotPending(s.store, marked, s.started, [], d.spawned, s.clock, now);
    }
  }

  /** A worker's report files its result under its own job's input, and
      that result is the decimal of Fib of that input. */
  lemma MessagePreservesInv(s: System, k: nat, render: FibonacciWorker.RenderOutcome, now: int)
    requires Inv(s)
    ensures Inv(Step(s, WorkerMessage(k, render, now)))
  {
    if s.clock <= now && k < |s.running| {
      var job := s.running[k];
      var msg := MessageOf(job, render);
      var r := JobQueue.OnMessage(s.store, job, msg, now);
      InputsCarried(s.store, r, now, s.submitted);
      MessageKeepsLifecycle(s, k, render, now);
      assert job in s.submitted by {
        assert job in s.started;
        assert job in s.started + s.sched.queue;
      }
      forall m, t | Cache.GetResultByInput(r, m, t).Some?
        ensures && 0 <= m
                && Cache.GetResultByInput(r, m, t).value.result == Some(Decimal.IntToString(FibonacciWorker.Fib(m)))
      {
        if Cache.GetResultByInput(r, m, t) != Cache.GetResultByInput(s.store, m, t) {
          assert Cache.GetJob(s.store, job.jobId, now).value.n == Some(job.n);
          assert msg.error.None?;
        }
      }
    }
  }

  lemma ErrorPreservesInv(s: System, k: nat, message: string, now: int)
    requires Inv(s)
    ensures Inv(Step(s, WorkerError(k, message, now)))
  {
    if s.clock <= now && k < |s.running| {
      var r := JobQueue.OnWorkerError(s.store, s.running[k], message, now);
      InputsCarried(s.store, r, now, s.submitted);
      ErrorKeepsLifecycle(s, k, message, now);
      IndexUnchanged(s.store, r);
    }
  }

  /** Falling back to memory forgets everything, which keeps both store
      conjuncts. */
  lemma FallbackPreservesInv(s: System)
    requires Inv(s)
    ensures Inv(Step(s, StoreTransportError))
  {
  }

  /** Expiry only removes entries, which keeps both store conjuncts. */
  lemma PurgePreservesInv(s: System, now: int)
    requires Inv(s)
    ensures Inv(Step(s, ExpiryTimers(now)))
  {
  }

  lemma ExitPreservesInv(s: System, k: nat, code: int, now: int)
    requires Inv(s)
    ensures Inv(Step(s, WorkerExit(k, code, now)))
  {
    if s.clock <= now && k < |s.running| {
      var d := JobQueue.WorkerExited(s.sched, code);
      var marked := JobQueue.MarkProcessing(s.store, d.spawned, now);
      InputsCarried(s.store, marked, now, s.submitted);
      IndexUnchanged(s.store, marked);
      ExitKeepsLifecycle(s, k, code, now);
      var rest := RemoveAt(s.running, k);
      assert |rest| == |s.running| - 1;
      assert forall j :: j in rest ==> j in s.running;
      FifoKept(s.started, s.sched.queue, s.submitted, d.spawned, d.sched.queue, []);
      QueuedInputsValid(s.started, s.sched.queue, s.submitted, s.maxN);
      RunningKept(rest, s.started, s.sched.queue, d.spawned, d.sched.queue, []);
      assert s.submitted + [] == s.submitted;
    }
  }

  lemma StepPreservesInv(s: System, e: Event)
    requires Inv(s)
    ensures Inv(Step(s, e))
  {
    match e
    case Submit(param, freshId, now) => SubmitPreservesInv(s, param, freshId, now);
    case WorkerMessage(k, render, now) => MessagePreservesInv(s, k, render, now);
    case WorkerError(k, message, now) => ErrorPreservesInv(s, k, message, now);
    case WorkerExit(k, code, now) => ExitPreservesInv(s, k, code, now);
    case StoreTransportError => FallbackPreservesInv(s);
    case ExpiryTimers(now) => PurgePreservesInv(s, now);
  }

  lemma {:induction false} RunPreservesInv(s: System, events: seq<Event>)
    requires Inv(s)
    ensures Inv(Run(s, events))
    decreases |events|
  {
    if |events| > 0 {
      StepPreservesInv(s, events[0]);
      RunPreservesInv(Step(s, events[0]), events[1..]);
    }
  }

  /** Whatever happens after start-up: no more workers run than the ceiling
      allows, `getQueueLength` counts exactly the submitted jobs not yet
      started, and jobs start in the order they were submitted. */
  lemma Reachable(envExpiry: Option<int>, envMaxWorkers: Option<int>, envMaxN: Option<int>, events: seq<Event>)
    ensures var s := Run(Init(envExpiry, envMaxWorkers, envMaxN), events);
      && s.sched.active == |s.running|
      && (|s.running| == 0 || |s.running| <= s.sched.maxWorkers)
      && JobQueue.QueueLength(s.sched) == |s.submitted| - |s.started|
      && s.started == s.submitted[..|s.started|]
      && (s.sched.queue != [] ==> s.sched.active >= s.sched.maxWorkers)
  {
    var s0 := Init(envExpiry, envMaxWorkers, envMaxN);
    InitSatisfiesInv(envExpiry, envMaxWorkers, envMaxN);
    RunPreservesInv(s0, events);
    var s := Run(s0, events);
    assert s.submitted[..|s.started|] == s.started;
  }

  /** In any state whose index holds Fibonacci numbers, a `POST /` answered
      from the index (status 200) answers with the decimal of Fib(n) for the
      `n` it was asked about. */
  lemma IndexedAnswerIsFib(s: System, n: int, freshId: string, now: int)
    requires IndexAnswersFib(s.store)
    ensures var o := FibonacciRoute.Post(s.store, s.sched, FibonacciRoute.Given(Some(n)), s.maxN, freshId, now);
      o.response.code == 200 ==>
        && 0 <= n
        && o.response.body.CachedBody?
        && o.response.body.result == Some(Decimal.IntToString(FibonacciWorker.Fib(n)))
  {
    if Cache.GetResultByInput(s.store, n, now).Some? {
      assert 0 <= n;
    }
  }

  /** Whatever happens after start-up, a `POST /` answered from the index
      (status 200) answers with the decimal of Fib(n) for the `n` it was
      asked about. */
  lemma CachedAnswersAreFib(envExpiry: Option<int>, envMaxWorkers: Option<int>, envMaxN: Option<int>,
                            events: seq<Event>, n: int, freshId: string, now: int)
    ensures var s := Run(Init(envExpiry, envMaxWorkers, envMaxN), events);
      var o := FibonacciRoute.Post(s.store, s.sched, FibonacciRoute.Given(Some(n)), s.maxN, freshId, now);
      o.response.code == 200 ==>
        && 0 <= n
        && o.response.body.CachedBody?
        && o.response.body.result == Some(Decimal.IntToString(FibonacciWorker.Fib(n)))
  {
    var s0 := Init(envExpiry, envMaxWorkers, envMaxN);
    InitSatisfiesInv(envExpiry, envMaxWorkers, envMaxN);
    RunPreservesInv(s0, events);
    IndexedAnswerIsFib(Run(s0, events), n, freshId, now);
  }

  /** A worker's report lands in the store: with a rendered PDF the job reads
      back as completed with the decimal of Fib(n) and its own artifact path,
      and the index answers for `n`; when rendering fails the job reads back
      as failed with a message naming the PDF failure, and the index is left
      alone. Either way exactly one of the two outcomes is recorded. */
  lemma WorkerReportRecorded(s: System, k: nat, render: FibonacciWorker.RenderOutcome, now: int)
    requires Inv(s)
    requires k < |s.running|
    requires s.clock <= now
    requires s.store.defaultExpiry > 0
    requires Cache.GetJob(s.store, s.running[k].jobId, now).Some?
    ensures var job := s.running[k];
      var rec := Cache.GetJob(s.store, job.jobId, now).value;
      var s' := Step(s, WorkerMessage(k, render, now));
      && (render.Rendered? ==>
            && Cache.GetJob(s'.store, job.jobId, now) ==
                 Some(rec.(status := Cache.Completed,
                           result := Some(Decimal.IntToString(FibonacciWorker.Fib(job.n))),
                           pdfPath := Some(PdfGenerator.OutputPath(job.jobId))))
            && (rec.n.Some? ==>
                  Cache.GetResultByInput(s'.store, rec.n.value, now) ==
                    Some(Cache.IndexEntry(Some(Decimal.IntToString(FibonacciWorker.Fib(job.n))),
                                          Some(PdfGenerator.OutputPath(job.jobId)), job.jobId))))
      && (render.RenderFailed? ==>
            && s'.store.index == s.store.index
            && Cache.GetJob(s'.store, job.jobId, now) ==
                 Some(rec.(status := Cache.Failed,
                           error := Some(FibonacciWorker.PDF_FAILURE_PREFIX + render.message))))
  {
  }

  /** A repeated input whose result is still indexed is answered from the
      index: nothing but the clock changes, so no worker starts. */
  lemma DuplicateInputShortCircuits(s: System, n: int, freshId: string, now: int)
    requires 0 <= n <= s.maxN
    requires Cache.GetResultByInput(s.store, n, now).Some?
    ensures var s' := Step(s, Submit(FibonacciRoute.Given(Some(n)), freshId, now));
      s' == s.(clock := s'.clock)
  {
  }

  /** The two jobs of the ceiling-one scenario. */
  const JOB_A := JobQueue.QueuedJob("a", 5)
  const JOB_B := JobQueue.QueuedJob("b", 8)

  /** First request, into an idle process with a ceiling of one: `a` starts
      at once and is marked processing. */
  lemma ScenarioFirstSubmit(s0: System)
    requires s0 == Init(None, Some(1), None)
    ensures var s1 := Step(s0, Submit(FibonacciRoute.Given(Some(5)), "a", 0));
      && s1.running == [JOB_A] && s1.sched == JobQueue.Scheduler([], 1, 1)
      && s1.maxN == 100000 && s1.store.defaultExpiry == 900 && s1.store.index == map[]
      && s1.submitted == [JOB_A] && s1.clock == 0
      && Cache.GetJob(s1.store, "a", 0) == Some(FibonacciRoute.NewJob(5, 0).(status := Cache.Processing))
      && Cache.GetJob(s1.store, "b", 0) == None
  {
    FirstSubmitSchedules(s0);
    FirstSubmitStores(s0);
  }

  /** The scheduler half of `ScenarioFirstSubmit`. */
  lemma FirstSubmitSchedules(s0: System)
    requires s0 == Init(None, Some(1), None)
    ensures var s1 := Step(s0, Submit(FibonacciRoute.Given(Some(5)), "a", 0));
      && s1.running == [JOB_A] && s1.sched == JobQueue.Scheduler([], 1, 1)
      && s1.maxN == 100000 && s1.submitted == [JOB_A] && s1.clock == 0
  {
    assert Fresh(s0, "a", 0);
    assert Cache.GetResultByInput(s0.store, 5, 0) == None;
  }

  /** The store half of `ScenarioFirstSubmit`. */
  lemma FirstSubmitStores(s0: System)
    requires s0 == Init(None, Some(1), None)
    ensures var s1 := Step(s0, Submit(FibonacciRoute.Given(Some(5)), "a", 0));
      && s1.store.defaultExpiry == 900 && s1.store.index == map[]
      && Cache.GetJob(s1.store, "a", 0) == Some(FibonacciRoute.NewJob(5, 0).(status := Cache.Processing))
      && Cache.GetJob(s1.store, "b", 0) == None
  {
    assert Fresh(s0, "a", 0);
    var o := FibonacciRoute.Post(s0.store, s0.sched, FibonacciRoute.Given(Some(5)), s0.maxN, "a", 0);
    assert Cache.GetResultByInput(s0.store, 5, 0) == None;
    assert o.spawned == [JOB_A];
    assert "a" in JobQueue.JobIds(o.spawned);
    assert "b" !in JobQueue.JobIds(o.spawned);
  }

  /** Second request while `a` runs: `b` is stored as pending and waits. */
  lemma ScenarioSecondSubmit(s1: System)
    requires s1.running == [JOB_A] && s1.sched == JobQueue.Scheduler([], 1, 1)
    requires s1.maxN == 100000 && s1.store.defaultExpiry == 900 && s1.store.index == map[]
    requires s1.submitted == [JOB_A] && s1.clock == 0
    requires Cache.GetJob(s1.store, "a", 0) == Some(FibonacciRoute.NewJob(5, 0).(status := Cache.Processing))
    requires Cache.GetJob(s1.store, "b", 0) == None
    ensures var s2 := Step(s1, Submit(FibonacciRoute.Given(Some(8)), "b", 0));
      && s2.running == [JOB_A] && s2.sched == JobQueue.Scheduler([JOB_B], 1, 1)
      && s2.store.defaultExpiry == 900 && s2.clock == 0
      && Cache.GetJob(s2.store, "a", 0) == Some(FibonacciRoute.NewJob(5, 0).(status := Cache.Processing))
      && Cache.GetJob(s2.store, "b", 0) == Some(FibonacciRoute.NewJob(8, 0))
  {
    assert JobQueue.JobIds(s1.submitted) == {"a"};
    var o := FibonacciRoute.Post(s1.store, s1.sched, FibonacciRoute.Given(Some(8)), s1.maxN, "b", 0);
    assert Cache.GetResultByInput(s1.store, 8, 0) == None;
    assert o.spawned == [];
    assert s1.running + [] == s1.running;
  }

  /** `a`'s worker reports a rendered result: `a` is completed, `b` untouched. */
  lemma ScenarioMessage(s2: System)
    requires s2.running == [JOB_A] && s2.store.defaultExpiry == 900 && s2.clock == 0
    requires Cache.GetJob(s2.store, "a", 0) == Some(FibonacciRoute.NewJob(5, 0).(status := Cache.Processing))
    requires Cache.GetJob(s2.store, "b", 0) == Some(FibonacciRoute.NewJob(8, 0))
    ensures var s3 := Step(s2, WorkerMessage(0, FibonacciWorker.Rendered, 0));
      && s3.running == s2.running && s3.sched == s2.sched && s3.clock == 0
      && Cache.GetJob(s3.store, "a", 0).Some? && Cache.GetJob(s3.store, "a", 0).value.status == Cache.Completed
      && Cache.GetJob(s3.store, "b", 0) == Some(FibonacciRoute.NewJob(8, 0))
  {
    var msg := MessageOf(JOB_A, FibonacciWorker.Rendered);
    assert msg.error.None?;
  }

  /** `a`'s worker exits: the freed slot goes to `b`, which is marked processing. */
  lemma ScenarioExit(s3: System)
    requires s3.running == [JOB_A] && s3.sched == JobQueue.Scheduler([JOB_B], 1, 1)
    requires s3.store.defaultExpiry == 900 && s3.clock == 0
    requires Cache.GetJob(s3.store, "b", 0) == Some(FibonacciRoute.NewJob(8, 0))
    ensures var s4 := Step(s3, WorkerExit(0, 0, 0));
      && s4.running == [JOB_B] && s4.sched.queue == []
      && Cache.GetJob(s4.store, "b", 0) == Some(FibonacciRoute.NewJob(8, 0).(status := Cache.Processing))
  {
    var d := JobQueue.WorkerExited(s3.sched, 0);
    assert d.spawned == [JOB_B];
    assert "b" in JobQueue.JobIds(d.spawned);
    assert RemoveAt(s3.running, 0) + d.spawned == [JOB_B];
  }

  /** With a ceiling of one, job `a` (input 5) and job `b` (input 8)
      submitted back to back: `a` is processing while `b` still waits as
      pending; once `a`'s worker exits, `b` starts. */
  lemma CeilingOneScenario(s0: System)
    requires s0 == Init(None, Some(1), None)
    ensures var s1 := Step(s0, Submit(FibonacciRoute.Given(Some(5)), "a", 0));
      var s2 := Step(s1, Submit(FibonacciRoute.Given(Some(8)), "b", 0));
      var s3 := Step(s2, WorkerMessage(0, FibonacciWorker.Rendered, 0));
      var s4 := Step(s3, WorkerExit(0, 0, 0));
      && s2.running == [JOB_A]
      && s2.sched.queue == [JOB_B]
      && Cache.GetJob(s2.store, "a", 0).Some? && Cache.GetJob(s2.store, "a", 0).value.status == Cache.Processing
      && Cache.GetJob(s2.store, "b", 0).Some? && Cache.GetJob(s2.store, "b", 0).value.status == Cache.Pending
      && Cache.GetJob(s3.store, "a", 0).Some? && Cache.GetJob(s3.store, "a", 0).value.status == Cache.Completed
      && s4.running == [JOB_B]
      && s4.sched.queue == []
      && Cache.GetJob(s4.store, "b", 0).Some? && Cache.GetJob(s4.store, "b", 0).value.status == Cache.Processing
  {
    ScenarioFirstSubmit(s0);
    var s1 := Step(s0, Submit(FibonacciRoute.Given(Some(5)), "a", 0));
    ScenarioSecondSubmit(s1);
    var s2 := Step(s1, Submit(FibonacciRoute.Given(Some(8)), "b", 0));
    ScenarioMessage(s2);
    var s3 := Step(s2, WorkerMessage(0, FibonacciWorker.Rendered, 0));
    ScenarioExit(s3);
  }
}
