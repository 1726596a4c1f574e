/** `routes/fibonacci.js`: the decisions behind `POST /`, `GET /status/:jobId`
    and `GET /download/:jobId`, over data the store has already returned.

    `parseInt` is not modelled: the request's `n` arrives as `Missing`, `Null`
    or `Given(parsed)` with `parsed` the outcome of `parseInt(n)` (`None` for
    NaN). `uuidv4()` is the `freshId` parameter, the clock is `now`, and
    `fs.existsSync` is the `fileExists` parameter. */
module FibonacciRoute {
  import opened Wrappers
  import Env
  import Decimal
  import Cache
  import JobQueue

  /** `MAX_N` when `MAX_FIBONACCI_N` is unset. */
  const MAX_N_FALLBACK: int := 100000

  const MISSING_N := "Missing parameter: n"
  const NOT_A_NUMBER := "Parameter n must be a number"
  const NEGATIVE_N := "Parameter n must be a non-negative integer"
  const JOB_NOT_FOUND := "Job not found or expired"
  const NOT_COMPLETED := "Job is not completed yet"
  const PDF_NOT_FOUND := "PDF file not found"
  const PDF_EXPIRED := "PDF file not found or expired"

  /** `parseInt(process.env.MAX_FIBONACCI_N) || 100000`. */
  function MaxN(envMaxN: Option<int>): (m: int)
    ensures envMaxN.None? ==> m == MAX_N_FALLBACK
  {
    Env.IntOr(envMaxN, MAX_N_FALLBACK)
  }

  function TooLarge(maxN: int): string {
    "Parameter n must be less than or equal to " + Decimal.IntToString(maxN)
  }

  function DownloadUrl(jobId: string): string {
    "/api/fibonacci/download/" + jobId
  }

  datatype Param = Missing | Null | Given(parsed: Option<int>)

  datatype Body =
    | ErrorBody(error: string)
      /** `{jobId, status: 'completed', n, result, downloadUrl, fromCache: true, message}` */
    | CachedBody(jobId: string, n: int, result: Option<string>, downloadUrl: string)
      /** `{jobId, status: 'pending', message}` */
    | QueuedBody(jobId: string)
    | StatusBody(view: StatusView)
      /** `sendFile(pdfPath)` with `Content-Disposition: attachment; filename=…` */
    | FileBody(path: string, fileName: string)

  /** `{jobId, status, n}` plus `result`/`downloadUrl` or `error`; absent
      fields are `None`. */
  datatype StatusView = StatusView(jobId: string, status: Cache.Status, n: Option<int>,
                                   result: Option<string>, downloadUrl: Option<string>, error: Option<string>)

  datatype Response = Response(code: int, body: Body)

  /** The validation ladder of `POST /`, in the order the handler checks it. */
  function Validate(p: Param, maxN: int): (r: Result<int, Response>)
    ensures r.Success? <==> p.Given? && p.parsed.Some? && 0 <= p.parsed.value <= maxN
    ensures r.Success? ==> r.value == p.parsed.value
    ensures r.Failure? ==> r.error.code == 400 && r.error.body.ErrorBody?
    ensures p.Missing? || p.Null? ==> r == Failure(Response(400, ErrorBody(MISSING_N)))
    ensures p == Given(None) ==> r == Failure(Response(400, ErrorBody(NOT_A_NUMBER)))
    ensures p.Given? && p.parsed.Some? && p.parsed.value < 0 ==>
      r == Failure(Response(400, ErrorBody(NEGATIVE_N)))
    ensures p.Given? && p.parsed.Some? && 0 <= p.parsed.value && maxN < p.parsed.value ==>
      r == Failure(Response(400, ErrorBody(TooLarge(maxN))))
  {
    match p
    case Missing => Failure(Response(400, ErrorBody(MISSING_N)))
    case Null => Failure(Response(400, ErrorBody(MISSING_N)))
    case Given(None) => Failure(Response(400, ErrorBody(NOT_A_NUMBER)))
    case Given(Some(v)) =>
      if v < 0 then Failure(Response(400, ErrorBody(NEGATIVE_N)))
      else if v > maxN then Failure(Response(400, ErrorBody(TooLarge(maxN))))
      else Success(v)
  }

  /** The record `POST /` stores for a new job. */
  function NewJob(n: int, now: int): Cache.JobRecord {
    Cache.JobRecord(Some(n), Cache.Pending, Some(now), None, None, None)
  }

  /** The effect of one `POST /`: the response, the store and scheduler
      afterwards, the job handed to `addJob` (if any) and the jobs the
      resulting `tryStartNext` started. */
  datatype PostOutcome = PostOutcome(
    response: Response,
    store: Cache.Store,
    sched: JobQueue.Scheduler,
    enqueued: seq<JobQueue.QueuedJob>,
    spawned: seq<JobQueue.QueuedJob>)

  /** `POST /`: validate; answer from the result index on a hit; otherwise
      store a pending job, enqueue it once, and answer 202. */
  function Post(store: Cache.Store, sched: JobQueue.Scheduler, p: Param, maxN: int, freshId: string, now: int): (o: PostOutcome)
    ensures o.spawned + o.sched.queue == sched.queue + o.enqueued
    ensures o.sched.active == sched.active + |o.spawned|
    ensures o.sched.maxWorkers == sched.maxWorkers
    ensures forall i :: 0 <= i < |o.enqueued| ==> 0 <= o.enqueued[i].n <= maxN
    ensures o.store.mode == store.mode && o.store.defaultExpiry == store.defaultExpiry
    ensures o.store.index == store.index
    ensures JobQueue.Settled(sched) ==> JobQueue.Settled(o.sched)
    ensures Validate(p, maxN).Failure? ==>
      o == PostOutcome(Validate(p, maxN).error, store, sched, [], [])
    ensures Validate(p, maxN).Success? ==>
      var n := Validate(p, maxN).value;
      match Cache.GetResultByInput(store, n, now)
      case Some(e) =>
        o == PostOutcome(Response(200, CachedBody(e.jobId, n, e.result, DownloadUrl(e.jobId))), store, sched, [], [])
      case None =>
        && o.response == Response(202, QueuedBody(freshId))
        && o.enqueued == [JobQueue.QueuedJob(freshId, n)]
        && (store.defaultExpiry > 0 ==>
              Cache.GetJob(o.store, freshId, now) ==
                (if freshId in JobQueue.JobIds(o.spawned)
                 then Some(NewJob(n, now).(status := Cache.Processing))
                 else Some(NewJob(n, now))))
        && (forall k, t :: k != freshId && k !in JobQueue.JobIds(o.spawned) ==>
              Cache.GetJob(o.store, k, t) == Cache.GetJob(store, k, t))
        && Cache.InputsKept(Cache.SetJob(store, freshId, NewJob(n, now), store.defaultExpiry, now), o.store, now)
        && (forall id :: id in JobQueue.JobIds(o.spawned) ==> Cache.StatusFrom(o.store, id, Cache.Processing, now))
        && (freshId !in JobQueue.JobIds(o.spawned) ==>
              forall t :: Cache.GetJob(o.store, freshId, t) ==
                (if t < now + store.defaultExpiry then Some(NewJob(n, now)) else None))
  {
    match Validate(p, maxN)
    case Failure(response) => PostOutcome(response, store, sched, [], [])
    case Success(n) =>
      match Cache.GetResultByInput(store, n, now)
      case Some(e) =>
        PostOutcome(Response(200, CachedBody(e.jobId, n, e.result, DownloadUrl(e.jobId))), store, sched, [], [])
      case None =>
        var stored := Cache.SetJob(store, freshId, NewJob(n, now), store.defaultExpiry, now);
        var added := JobQueue.AddJob(sched, freshId, n);
        var marked := JobQueue.MarkProcessing(stored, added.dispatch.spawned, now);
        PostOutcome(Response(202, QueuedBody(added.reply.jobId)), marked, added.dispatch.sched,
                    [JobQueue.QueuedJob(freshId, n)], added.dispatch.spawned)
  }

  /** `GET /status/:jobId`: 404 once the record is gone; otherwise 200 with
      the status and input, the result and link only for a completed job,
      and the error only for a failed one. */
  function Status(store: Cache.Store, jobId: string, now: int): (r: Response)
    ensures Cache.GetJob(store, jobId, now).None? <==> r == Response(404, ErrorBody(JOB_NOT_FOUND))
    ensures Cache.GetJob(store, jobId, now).Some? ==>
      var rec := Cache.GetJob(store, jobId, now).value;
      && r.code == 200 && r.body.StatusBody?
      && var v := r.body.view;
      && v.jobId == jobId && v.status == rec.status && v.n == rec.n
      && (v.downloadUrl.Some? <==> rec.status == Cache.Completed)
      && (v.downloadUrl.Some? ==> v.downloadUrl.value == DownloadUrl(jobId))
      && (v.result.Some? ==> rec.status == Cache.Completed)
      && (rec.status == Cache.Completed ==> v.result == rec.result)
      && (v.error.Some? ==> rec.status == Cache.Failed)
      && (rec.status == Cache.Failed ==> v.error == rec.error)
  {
    match Cache.GetJob(store, jobId, now)
    case None => Response(404, ErrorBody(JOB_NOT_FOUND))
    case Some(rec) =>
      if rec.status == Cache.Completed then
        Response(200, StatusBody(StatusView(jobId, rec.status, rec.n, rec.result, Some(DownloadUrl(jobId)), None)))
      else if rec.status == Cache.Failed then
        Response(200, StatusBody(StatusView(jobId, rec.status, rec.n, None, None, rec.error)))
      else
        Response(200, StatusBody(StatusView(jobId, rec.status, rec.n, None, None, None)))
  }

  /** `!jobData.pdfPath`: absent or the empty string. */
  predicate HasPath(p: Option<string>) {
    p.Some? && p.value != ""
  }

  /** `GET /download/:jobId`: refusals in the handler's order, and the file
      only for a live, completed job whose artifact is recorded and on disk. */
  function Download(store: Cache.Store, jobId: string, now: int, fileExists: string -> bool): (r: Response)
    ensures Cache.GetJob(store, jobId, now).None? ==> r == Response(404, ErrorBody(JOB_NOT_FOUND))
    ensures Cache.GetJob(store, jobId, now).Some? ==>
      var rec := Cache.GetJob(store, jobId, now).value;
      && (rec.status != Cache.Completed ==> r == Response(400, ErrorBody(NOT_COMPLETED)))
      && (rec.status == Cache.Completed && !HasPath(rec.pdfPath) ==> r == Response(404, ErrorBody(PDF_NOT_FOUND)))
      && (rec.status == Cache.Completed && HasPath(rec.pdfPath) && !fileExists(rec.pdfPath.value) ==>
            r == Response(404, ErrorBody(PDF_EXPIRED)))
    ensures r.code == 200 <==>
      && Cache.GetJob(store, jobId, now).Some?
      && Cache.GetJob(store, jobId, now).value.status == Cache.Completed
      && HasPath(Cache.GetJob(store, jobId, now).value.pdfPath)
      && fileExists(Cache.GetJob(store, jobId, now).value.pdfPath.value)
    ensures r.code == 200 ==>
      r.body == FileBody(Cache.GetJob(store, jobId, now).value.pdfPath.value, "fibonacci-" + jobId + ".pdf")
  {
    match Cache.GetJob(store, jobId, now)
    case None => Response(404, ErrorBody(JOB_NOT_FOUND))
    case Some(rec) =>
      if rec.status != Cache.Completed then Response(400, ErrorBody(NOT_COMPLETED))
      else if !HasPath(rec.pdfPath) then Response(404, ErrorBody(PDF_NOT_FOUND))
      else if !fileExists(rec.pdfPath.value) then Response(404, ErrorBody(PDF_EXPIRED))
      else Response(200, FileBody(rec.pdfPath.value, "fibonacci-" + jobId + ".pdf"))
  }
}
