/** `utils/jobQueue.js`: a FIFO backlog, a counter of running workers and a
    ceiling, plus the handlers `spawnWorker` attaches to each worker.

    The scheduler is a value; every event returns the next scheduler together
    with the jobs it started, in the order `spawnWorker` was called for them.
    The worker threads themselves are not modelled: their messages, errors
    and exits arrive as events. */
module JobQueue {
  import opened Wrappers
  import Env
  import Cache
  import FibonacciWorker

  /** `MAX_CONCURRENT_WORKERS` when `MAX_WORKERS` is unset. */
  const MAX_WORKERS_FALLBACK: int := 2

  datatype QueuedJob = QueuedJob(jobId: string, n: int)

  datatype Scheduler = Scheduler(queue: seq<QueuedJob>, active: int, maxWorkers: int)

  /** A scheduler after a round of `tryStartNext`, and the jobs that round
      handed to `spawnWorker`, first to last. */
  datatype Dispatch = Dispatch(sched: Scheduler, spawned: seq<QueuedJob>)

  /** `addJob`'s return value `{jobId, status: 'pending'}`. */
  datatype AddReply = AddReply(jobId: string, status: Cache.Status)

  datatype Added = Added(dispatch: Dispatch, reply: AddReply)

  /** The module's state at load: empty queue, nobody running, and the
      ceiling `parseInt(MAX_WORKERS) || 2`. */
  function InitialScheduler(envMax: Option<int>): (s: Scheduler)
    ensures s.queue == [] && s.active == 0
    ensures s.maxWorkers != 0
    ensures envMax.None? ==> s.maxWorkers == MAX_WORKERS_FALLBACK
  {
    Scheduler([], 0, Env.IntOr(envMax, MAX_WORKERS_FALLBACK))
  }

  /** No worker slot stays idle while work is waiting. */
  predicate Settled(s: Scheduler) {
    s.queue == [] || s.active >= s.maxWorkers
  }

  function Min(a: int, b: int): int {
    if a < b then a else b
  }

  /** What one run of `tryStartNext` does, in closed form: start as many head
      jobs as there are free slots, or all of them if fewer are waiting. */
  function DispatchPlan(s: Scheduler): (d: Dispatch)
    ensures d.spawned + d.sched.queue == s.queue
    ensures d.sched.active == s.active + |d.spawned|
    ensures d.sched.maxWorkers == s.maxWorkers
    ensures Settled(d.sched)
    ensures s.active <= s.maxWorkers ==> d.sched.active <= d.sched.maxWorkers
    ensures s.active >= s.maxWorkers ==> d.spawned == []
  {
    var k := if s.active < s.maxWorkers then Min(|s.queue|, s.maxWorkers - s.active) else 0;
    assert s.queue[..k] + s.queue[k..] == s.queue;
    Dispatch(Scheduler(s.queue[k..], s.active + k, s.maxWorkers), s.queue[..k])
  }

  /** `tryStartNext`: the `while` loop, shifting the head job and counting it
      as active until the ceiling is reached or the queue is empty. */
  method TryStartNext(s: Scheduler) returns (d: Dispatch)
    ensures d == DispatchPlan(s)
    ensures s.active <= s.maxWorkers ==> d.sched.active <= d.sched.maxWorkers
    ensures d.sched.queue == [] || d.sched.active >= d.sched.maxWorkers
  {
    var queue := s.queue;
    var active := s.active;
    var spawned: seq<QueuedJob> := [];
    while active < s.maxWorkers && |queue| > 0
      invariant spawned + queue == s.queue
      invariant active == s.active + |spawned|
      invariant active <= s.maxWorkers || spawned == []
      decreases |queue|
    {
      var job := queue[0];
      queue := queue[1..];
      active := active + 1;
      spawned := spawned + [job];
    }
    var k := |spawned|;
    assert spawned == s.queue[..k] && queue == s.queue[k..];
    d := Dispatch(Scheduler(queue, active, s.maxWorkers), spawned);
  }

  /** `addJob(jobId, n)`: push at the tail, run `tryStartNext`, and answer
      `{jobId, status: 'pending'}` whether or not the job already started. */
  function AddJob(s: Scheduler, jobId: string, n: int): (a: Added)
    ensures a.reply == AddReply(jobId, Cache.Pending)
    ensures a.dispatch.spawned + a.dispatch.sched.queue == s.queue + [QueuedJob(jobId, n)]
    ensures a.dispatch.sched.active == s.active + |a.dispatch.spawned|
    ensures a.dispatch.sched.maxWorkers == s.maxWorkers
    ensures Settled(a.dispatch.sched)
    ensures Settled(s) && s.active < s.maxWorkers ==> a.dispatch.spawned == [QueuedJob(jobId, n)]
    ensures s.active >= s.maxWorkers ==>
      a.dispatch.spawned == [] && a.dispatch.sched.queue == s.queue + [QueuedJob(jobId, n)]
  {
    var pushed := s.(queue := s.queue + [QueuedJob(jobId, n)]);
    Added(DispatchPlan(pushed), AddReply(jobId, Cache.Pending))
  }

  /** `getQueueLength`. */
  function QueueLength(s: Scheduler): nat {
    |s.queue|
  }

  /** `getQueueLength` after each scheduler event: `addJob` adds one and
      takes away what it starts; a worker's exit takes away what it starts. */
  lemma QueueLengthAccounting(s: Scheduler, jobId: string, n: int, code: int)
    ensures var a := AddJob(s, jobId, n);
      QueueLength(a.dispatch.sched) == QueueLength(s) + 1 - |a.dispatch.spawned|
    ensures var d := WorkerExited(s, code);
      QueueLength(d.sched) == QueueLength(s) - |d.spawned|
    ensures Settled(s) && s.active < s.maxWorkers ==> QueueLength(AddJob(s, jobId, n).dispatch.sched) == 0
    ensures s.active >= s.maxWorkers ==> QueueLength(AddJob(s, jobId, n).dispatch.sched) == QueueLength(s) + 1
  {
    var a := AddJob(s, jobId, n);
    assert |a.dispatch.spawned + a.dispatch.sched.queue| == |s.queue + [QueuedJob(jobId, n)]|;
    var d := WorkerExited(s, code);
    assert |d.spawned + d.sched.queue| == |s.queue|;
  }

  /** The `'exit'` handler: `activeWorkers--`, then `tryStartNext`. The exit
      code is only logged, so it has no effect here. In a settled scheduler a
      freed slot is refilled by exactly the head job when one is waiting. */
  function WorkerExited(s: Scheduler, code: int): (d: Dispatch)
    ensures d.spawned + d.sched.queue == s.queue
    ensures d.sched.active == s.active - 1 + |d.spawned|
    ensures d.sched.maxWorkers == s.maxWorkers
    ensures Settled(d.sched)
    ensures Settled(s) && 0 < s.active <= s.maxWorkers && s.queue == [] ==>
      d.spawned == [] && d.sched.active == s.active - 1
    ensures Settled(s) && 0 < s.active <= s.maxWorkers && s.queue != [] ==>
      d.spawned == [s.queue[0]] && d.sched.active == s.active
  {
    DispatchPlan(s.(active := s.active - 1))
  }

  // ---------------------------------------------------------------------------
  // The store writes made by `spawnWorker` and its handlers

  function JobIds(jobs: seq<QueuedJob>): set<string> {
    set j | j in jobs :: j.jobId
  }

  /** A lookup result with its status replaced, as `updateJobStatus` leaves it. */
  function WithStatus(o: Option<Cache.JobRecord>, status: Cache.Status): Option<Cache.JobRecord> {
    match o
    case None => None
    case Some(rec) => Some(rec.(status := status))
  }

  /** `spawnWorker` starts with `updateJobStatus(jobId, 'processing')`; this
      applies it for every job a dispatch round started. Records of other
      jobs are untouched; a started job that is still stored reads back as
      `processing` with every other field kept. */
  function MarkProcessing(store: Cache.Store, spawned: seq<QueuedJob>, now: int): (r: Cache.Store)
    ensures r.mode == store.mode && r.defaultExpiry == store.defaultExpiry
    ensures r.index == store.index
    ensures forall id, t :: id !in JobIds(spawned) ==> Cache.GetJob(r, id, t) == Cache.GetJob(store, id, t)
    ensures store.defaultExpiry > 0 ==> forall id :: id in JobIds(spawned) ==>
      Cache.GetJob(r, id, now) == WithStatus(Cache.GetJob(store, id, now), Cache.Processing)
    ensures Cache.InputsKept(store, r, now)
    ensures forall id :: id in JobIds(spawned) ==> Cache.StatusFrom(r, id, Cache.Processing, now)
    decreases |spawned|
  {
    if |spawned| == 0 then store
    else
      var s1 := Cache.UpdateJobStatus(store, spawned[0].jobId, Cache.Processing, now).store;
      assert JobIds(spawned) == {spawned[0].jobId} + JobIds(spawned[1..]) by {
        assert forall j :: j in spawned <==> j == spawned[0] || j in spawned[1..];
      }
      var r := MarkProcessing(s1, spawned[1..], now);
      Cache.InputsKeptTrans(store, s1, r, now);
      r
  }

  /** A JavaScript string in a condition: present and non-empty. */
  predicate Truthy(o: Option<string>) {
    o.Some? && o.value != ""
  }

  /** The `'message'` handler: `if (message.error)` records the failure,
      otherwise the message's `result` and `pdfPath` complete the job. */
  function OnMessage(store: Cache.Store, job: QueuedJob, msg: FibonacciWorker.WorkerMessage, now: int): (r: Cache.Store)
    ensures r.mode == store.mode && r.defaultExpiry == store.defaultExpiry
    ensures Cache.InputsKept(store, r, now)
    ensures forall m, t :: Cache.GetResultByInput(r, m, t).Some? ==>
      || Cache.GetResultByInput(r, m, t) == Cache.GetResultByInput(store, m, t)
      || (&& !Truthy(msg.error)
          && Cache.GetJob(store, job.jobId, now).Some?
          && Cache.GetJob(store, job.jobId, now).value.n == Some(m)
          && Cache.GetResultByInput(r, m, t) == Some(Cache.IndexEntry(msg.result, msg.pdfPath, job.jobId)))
    ensures forall k, t :: k != job.jobId ==> Cache.GetJob(r, k, t) == Cache.GetJob(store, k, t)
    ensures Cache.StatusFrom(r, job.jobId, if Truthy(msg.error) then Cache.Failed else Cache.Completed, now)
    ensures Truthy(msg.error) ==> r.index == store.index
    ensures Truthy(msg.error) && store.defaultExpiry > 0 ==>
      Cache.GetJob(r, job.jobId, now) ==
        WithFailure(Cache.GetJob(store, job.jobId, now), msg.error.value)
    ensures !Truthy(msg.error) && store.defaultExpiry > 0 ==>
      Cache.GetJob(r, job.jobId, now) ==
        WithResult(Cache.GetJob(store, job.jobId, now), msg.result, msg.pdfPath)
  {
    if Truthy(msg.error) then
      Cache.UpdateJobError(store, job.jobId, msg.error.value, now).store
    else
      Cache.UpdateJobResult(store, job.jobId, msg.result, msg.pdfPath, now).store
  }

  /** The `'error'` handler: the error's message fails the job. */
  function OnWorkerError(store: Cache.Store, job: QueuedJob, message: string, now: int): (r: Cache.Store)
    ensures r.mode == store.mode && r.defaultExpiry == store.defaultExpiry
    ensures Cache.InputsKept(store, r, now)
    ensures r.index == store.index
    ensures forall k, t :: k != job.jobId ==> Cache.GetJob(r, k, t) == Cache.GetJob(store, k, t)
    ensures Cache.StatusFrom(r, job.jobId, Cache.Failed, now)
    ensures store.defaultExpiry > 0 ==>
      Cache.GetJob(r, job.jobId, now) == WithFailure(Cache.GetJob(store, job.jobId, now), message)
  {
    Cache.UpdateJobError(store, job.jobId, message, now).store
  }

  function WithFailure(o: Option<Cache.JobRecord>, error: string): Option<Cache.JobRecord> {
    match o
    case None => None
    case Some(rec) => Some(rec.(status := Cache.Failed, error := Some(error)))
  }

  function WithResult(o: Option<Cache.JobRecord>, result: Option<string>, pdfPath: Option<string>): Option<Cache.JobRecord> {
    match o
    case None => None
    case Some(rec) => Some(rec.(status := Cache.Completed, result := result, pdfPath := pdfPath))
  }
}
