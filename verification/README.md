# Fibonacci job service — Dafny model

This project models the core of a small Node.js service that computes
Fibonacci numbers as background jobs. A `POST` request validates its input
and answers from a result-by-input index when it can. Otherwise it stores a
pending job record and puts the job on a FIFO queue. A scheduler runs at most
`MAX_CONCURRENT_WORKERS` worker threads at a time. Each worker computes
F(n) by fast doubling, renders a PDF and posts exactly one message back.
The scheduler's handlers write the outcome into a job store whose entries
expire. The store runs on Redis or, after any Redis failure, on an
in-process fallback.

Modules, one per source file:

- `Cache` (`cache.dfy`) is the job store and the `fib:<n>` result index.
  Time is a logical clock `now` in seconds. An entry carries a deadline and
  is live while `now < deadline`. Both backing modes are modelled by the same
  expiring maps, with job records and index entries in separate maps. The
  mode flag only moves from Redis to memory.
- `JobQueue` (`job_queue.dfy`) holds the backlog, the active-worker counter and
  the ceiling. `TryStartNext` is the literal `while` loop and is proved equal
  to the closed form `DispatchPlan`. It also holds the store writes made by
  `spawnWorker` and by its `message` and `error` handlers.
- `FibonacciWorker` (`fibonacci_worker.dfy`) holds the textbook `Fib`, the
  fast-doubling `Fd` and the doubling identities. It also holds the rule
  deciding which single message a worker posts.
- `PdfGenerator` (`pdf_generator.dfy`) holds the 70-column line breaking of
  the result, as a loop and as a reference definition, and the artifact path.
- `FibonacciRoute` (`fibonacci_route.dfy`) holds the `POST` validation and
  dedup decision, and the status and download response ladders.
- `Service` (`service.dfy`) is the whole process as one state machine. Its
  events are requests, worker reports and exits, store failures and timer
  firings. It holds the invariants that every reachable state keeps.
- `Decimal` (`decimal.dfy`), `Env` (`env.dfy`) and `Wrappers` (`wrappers.dfy`)
  are helpers: integer `toString` with its inverse, the
  `parseInt(x) || default` configuration idiom, and `Option`/`Result`.

Inputs that the program gets from outside are parameters of the model:

- the clock (`now`). Timed events come in non-decreasing time order: an
  event stamped earlier than the latest one leaves the state unchanged
  (`Service.Step`);
- `uuidv4()` (`freshId`). Ids are assumed never to repeat: a request whose
  id was submitted before, or names a live record, leaves the state
  unchanged (`Service.Step`);
- the outcome of `parseInt` (`Option<int>`);
- how PDF rendering ended (`RenderOutcome`);
- `fs.existsSync` (`fileExists`).

Two behaviours of the code that the model keeps:

- A worker that exits with a non-zero code without posting a message is only
  logged (utils/jobQueue.js:36-42). Its job is not marked failed.
- Switching to the in-memory fallback does not carry over what Redis held. The
  fallback maps (utils/cache.js:8-12) are written only in the memory branches
  (utils/cache.js:46-62, 148-156), so they are empty at the moment of the
  switch (utils/cache.js:21-36). `Cache.SwitchToMemory` states this.

## Model

| member | source | states |
|---|---|---|
| `Decimal.IntToStringRoundTrip` | workers/fibonacciWorker.js:48 | the decimal text of an integer reads back as the same integer, so printing loses nothing |
| `Decimal.Digits` | workers/fibonacciWorker.js:48 | the decimal text of a non-negative integer is non-empty, all digits, and has no leading zero |
| `Env.IntOr` | utils/cache.js:40 | a configured value falls back to the default `d` when it parses to NaN or 0 and is kept otherwise; the result is never 0 when `d` is not |
| `Cache.InitialStore` | utils/cache.js:7-12 | at load the store is in Redis mode, holds no job and no index entry, and the default expiry is 900 unless configured |
| `Cache.IndexKeyInjective` | utils/cache.js:146-147 | two different inputs never share a `fib:<n>` key |
| `Cache.IndexKeysAvoidJobIds` | utils/cache.js:158 | in Redis's single key space an index key can never equal a uuid-shaped job id |
| `Cache.GetJob` | utils/cache.js:70-78 | `getJob` returns the stored record while it is live, and `null` once its deadline has passed or when nothing was stored under the id |
| `Cache.GetResultByInput` | utils/cache.js:163-171 | `getResultByInput(n)` returns the entry stored under `fib:<n>` while it is live, and `null` otherwise |
| `Cache.ReadsNeverRevive` | utils/cache.js:39-42 | entries only disappear: a record or index entry live at some time was live, with the same value, at every earlier time |
| `Cache.JobExists` | utils/cache.js:124-130 | `jobExists` is true exactly when `getJob` returns a record |
| `Cache.SetJob` | utils/cache.js:45-67 | after a write the record is returned until `now + expiry` and absent afterwards, even if an older write had an earlier deadline; other jobs and the index are unchanged |
| `Cache.DeleteJob` | utils/cache.js:133-143 | after a delete the job is absent at every later time; the call reports whether it was present; other jobs and the index are unchanged |
| `Cache.DeleteTwice` | utils/cache.js:133-143 | a second delete of the same id finds nothing and changes nothing |
| `Cache.UpdateJobStatus` | utils/cache.js:81-88 | an absent job gives `null` and no write; otherwise only `status` changes and the record is live for the default expiry from now; from now on a readable record has the new status |
| `Cache.UpdateJobResult` | utils/cache.js:91-110 | a present job becomes `completed` with the given result and path; if the record has `n`, the index answers `{result, pdfPath, jobId}` for `n`; no other input's entry changes; an absent job writes nothing; from now on a readable record is `completed` |
| `Cache.UpdateJobError` | utils/cache.js:113-121 | a present job becomes `failed` with the message and every other field kept; the index is never written; an absent job writes nothing; from now on a readable record is `failed` |
| `Cache.CacheResultByInput` | utils/cache.js:146-160 | the entry for `n` is returned until `now + DEFAULT_EXPIRY`, whatever the caller; other inputs and all job lookups are unchanged |
| `Cache.Purge` | utils/cache.js:56-59 | firing the expiry timers removes exactly the expired entries, and no lookup from that time on can tell |
| `Cache.SwitchToMemory` | utils/cache.js:21-36 | after a Redis error the store is in memory mode; a second switch changes nothing; a switch from Redis leaves nothing visible |
| `Cache.FallbackIsPermanent` | utils/cache.js:23-35 | once in memory mode, or after any transport error, every later sequence of store calls stays in memory mode |
| `PdfGenerator.OutputPath` | utils/pdfGenerator.js:23 | the artifact path is `results/` + job id + `.pdf` |
| `PdfGenerator.OutputPathInjective` | utils/pdfGenerator.js:23 | different jobs never share an artifact path |
| `PdfGenerator.FormatResult` | utils/pdfGenerator.js:42-47 | the character loop builds exactly the reference 70-column wrapping `Wrap`, whose length, breaks and inverse the next rows state |
| `PdfGenerator.StripWrap` | utils/pdfGenerator.js:42-47 | removing the inserted newlines from the wrapped text gives back the digit string exactly |
| `PdfGenerator.WrapLength` | utils/pdfGenerator.js:44-45 | exactly `len / 70` newlines are inserted |
| `PdfGenerator.WrapPositions` | utils/pdfGenerator.js:42-47 | newlines sit exactly at every 71st output position, so each follows 70 input characters and the last line holds at most 70; every other position holds the shifted input character |
| `PdfGenerator.WrapSnoc` | utils/pdfGenerator.js:43-46 | one loop turn appends the character, then a newline when its 1-based position is a multiple of 70 |
| `FibonacciWorker.FibDoubleEven` | workers/fibonacciWorker.js:10 | F(2m) = F(m)·(2F(m+1) − F(m)) |
| `FibonacciWorker.FibDoubleOdd` | workers/fibonacciWorker.js:11 | F(2m+1) = F(m)² + F(m+1)² |
| `FibonacciWorker.DoublingPair` | workers/fibonacciWorker.js:9-11 | from `a` = F(m) and `b` = F(m+1), the code's `c` is F(2m), its `d` is F(2m+1), and `c + d` is F(2m+2) |
| `FibonacciWorker.DoublingStep` | workers/fibonacciWorker.js:9-15 | one call of `fd(k)` with k > 0: halving `k`, then picking `[d, c + d]` for odd `k` and `[c, d]` for even `k`, yields (F(k), F(k+1)) |
| `FibonacciWorker.Fd` | workers/fibonacciWorker.js:7-16 | `fd(k)` returns (F(k), F(k+1)), with `fd(0) = (0, 1)`; it terminates because its argument halves |
| `FibonacciWorker.FibFastDoubling` | workers/fibonacciWorker.js:5-18 | `fibFastDoubling(n)` equals the textbook F(n) |
| `FibonacciWorker.ProcessJob` | workers/fibonacciWorker.js:20-58 | exactly one of result and error is posted. Missing parameters give the fixed message. Otherwise the result is the decimal of F(n) with path `results/<jobId>.pdf`. A render failure gives an error that starts with `Failed to generate PDF: `. No error text is empty |
| `JobQueue.InitialScheduler` | utils/jobQueue.js:6-10 | the queue starts empty with no active worker, and the ceiling is 2 unless configured |
| `JobQueue.DispatchPlan` | utils/jobQueue.js:45-51 | one round starts head jobs in order; dispatched jobs plus the remaining queue are the old queue; the counter grows by one per job; it stays within the ceiling; afterwards the queue is empty or the pool is full |
| `JobQueue.TryStartNext` | utils/jobQueue.js:45-51 | the `while` loop computes exactly `DispatchPlan`: bound kept, and the queue is empty or `activeWorkers = MAX` on exit |
| `JobQueue.AddJob` | utils/jobQueue.js:55-59 | the job joins the tail and `{jobId, 'pending'}` is returned; it starts at once iff a slot is free in a settled scheduler, and waits untouched when the pool is full |
| `JobQueue.WorkerExited` | utils/jobQueue.js:36-42 | an exit frees a slot and re-runs dispatch: the head job takes it if one waits, else the count drops by one; the exit code changes nothing |
| `JobQueue.QueueLengthAccounting` | utils/jobQueue.js:55-64 | `getQueueLength` grows by one on `addJob` less the jobs it starts, and shrinks by the jobs an exit starts; it is 0 after `addJob` with a free slot and grows by one when the pool is full |
| `JobQueue.MarkProcessing` | utils/jobQueue.js:13-14 | every spawned job that is still stored reads back as `processing` with its other fields kept; no other record changes; no record's `n` changes; from now on a readable record of a spawned job is `processing` |
| `JobQueue.OnMessage` | utils/jobQueue.js:21-27 | a message with a truthy `error` fails the job and leaves the index alone; any other message completes it with the message's result and path; the only index entry it can add is under the job's own stored `n`; no record's `n` changes; from now on the job's readable record is `failed` or `completed` accordingly |
| `JobQueue.OnWorkerError` | utils/jobQueue.js:30-33 | a worker `error` event fails the job with the error's message and never touches the index; no record's `n` changes; from now on the job's readable record is `failed` |
| `FibonacciRoute.MaxN` | routes/fibonacci.js:16 | `MAX_N` defaults to 100000 |
| `FibonacciRoute.Validate` | routes/fibonacci.js:33-50 | accepted iff `n` is present, a number and `0 ≤ n ≤ MAX_N`. Each refusal is 400, checked in this order: missing or null, not a number, negative, too large |
| `FibonacciRoute.Post` | routes/fibonacci.js:28-93 | an invalid request changes nothing. An index hit answers 200 with the cached job and link, and creates and enqueues nothing. A miss stores `{n, pending}`, enqueues that job exactly once at the tail and answers 202; what it writes after storing the record changes no record's `n`. A job that did not start at once reads back `{n, pending}` until its expiry; every job the request started reads back `processing` from now on. The index is never written |
| `FibonacciRoute.Status` | routes/fibonacci.js:101-122 | an absent job gives 404 `Job not found or expired`. Otherwise the answer is 200 with status and `n`. Result and link appear only for a completed job, and error only for a failed one |
| `FibonacciRoute.Download` | routes/fibonacci.js:135-158 | refused in order: absent 404, not completed 400, no `pdfPath` 404, file missing 404. The file is sent iff all four checks pass |
| `Service.StepPreservesInv` | utils/jobQueue.js:21-59 | every event keeps these facts: the counter equals the number of running workers and stays within the ceiling; no slot idles while work waits; started jobs then queued jobs are the submitted jobs in order; every input passed validation; every readable job record holds its own job's `n`; every index entry for `n` holds the decimal of F(n); no two jobs share an id; a queued job's record is `pending`; a started job's record is never `pending` again from the latest event on |
| `Service.MissKeepsLifecycle` | routes/fibonacci.js:70-81 | a request that misses the index leaves every queued job `pending` (the new one included, unless it started) and every started job non-`pending`, and keeps ids unique |
| `Service.ExitKeepsLifecycle` | utils/jobQueue.js:36-49 | an exit marks the job it starts `processing`, leaves the rest of the queue `pending`, and leaves every started job non-`pending` |
| `Service.StartedWriteKeepsLifecycle` | utils/jobQueue.js:21-33 | a worker's report or `error` event, which rewrites only its own started job's record and leaves it `completed` or `failed`, keeps the lifecycle |
| `Service.SubmitKeepsInputs` | routes/fibonacci.js:70-81 | a request with a fresh id stores a record carrying its own `n` and leaves every earlier job's record carrying that job's `n` |
| `Service.MessagePreservesInv` | utils/jobQueue.js:21-27 | a worker's report files its result only under its own job's input, and that result is the decimal of F of that input |
| `Service.RunPreservesInv` | utils/jobQueue.js:36-59 | the same facts hold after any finite sequence of events, starting from a state where they hold |
| `Service.Reachable` | utils/jobQueue.js:45-64 | in every reachable state the running workers stay within the ceiling. `getQueueLength` is the number of submitted jobs not yet started. The dispatch order is a prefix of the `addJob` order |
| `Service.WorkerReportRecorded` | utils/jobQueue.js:21-27 | a rendered report completes the job with the decimal of F(n) and its own path, and indexes it under `n`. A render failure fails the job with the PDF-prefixed message and leaves the index unchanged |
| `Service.IndexedAnswerIsFib` | routes/fibonacci.js:53-67 | in any state whose index holds Fibonacci numbers, a `POST` answered from the index (200) carries the decimal of F(n) for the `n` it asked about |
| `Service.CachedAnswersAreFib` | routes/fibonacci.js:53-67 | in every reachable state a `POST` answered from the index (200) carries the decimal of F(n) for the `n` it asked about |
| `Service.DuplicateInputShortCircuits` | routes/fibonacci.js:53-68 | a valid request whose input is still indexed changes nothing in the process state but the clock, so no worker starts |
| `Service.CeilingOneScenario` | utils/jobQueue.js:45-59 | from start-up with a ceiling of one, two back-to-back requests leave job `a` processing and job `b` pending in the queue; `a`'s report completes it, and when `a`'s worker exits `b` starts and is marked processing |

## Left out

- The Redis client, its connection and its transport (utils/cache.js:15-37) are not modelled. The model only has the one-way mode switch, triggered by a `StoreTransportError` event.
- The `500 Internal server error` branches of the three routes are not modelled. They are reached when a store call throws, and for `POST /` also when `jobQueue.addJob` throws (see `JobQueue.TryStartNext` below). The model's store calls and dispatch do not throw.
- JobQueue.TryStartNext: does not model `new Worker(...)` (utils/jobQueue.js:16) throwing when a thread cannot be created. By then the job has been shifted off the queue, `activeWorkers++` has run (utils/jobQueue.js:47-48) and `updateJobStatus('processing')` has been issued (utils/jobQueue.js:14). So the slot is never freed and the job never runs. Thrown under `addJob`, the exception turns `POST /` into a 500 after the record was stored; thrown in the `exit` handler, it is uncaught. The model's dispatch always spawns.
- Real timers are replaced by deadlines on a logical clock. With a non-positive expiry the model's entry is absent at once. The in-memory code keeps such an entry until its timer callback runs, and Redis's `SETEX` rejects it.
- Cache.SetJob: promises the full `now + expiry` in both modes. Node clamps a timer delay above 2147483647 ms to 1 ms, so with an expiry of 2147484 s or more a memory-mode record disappears about 1 ms after it is written (utils/cache.js:56-59). Redis's `SETEX` keeps it for the full expiry (utils/cache.js:64). The updates, which re-store through `setJob`, inherit this.
- Cache.CacheResultByInput: promises the full `now + DEFAULT_EXPIRY` in both modes. With `PDF_EXPIRY_SECONDS` of 2147484 or more, a memory-mode index entry disappears about 1 ms after it is written, because of the same clamp (utils/cache.js:151-154), while Redis keeps it (utils/cache.js:158).
- Cache.InitialStore: assumes that Redis holds nothing at start-up, or only entries this service wrote. Redis outlives the process, so after a restart within the expiry, `fib:<n>` entries from the earlier run answer requests, and that run's jobs stay `pending` or `processing` until they expire, since their queue and workers are gone. `Service.Reachable` and `Service.CachedAnswersAreFib` start from the empty store. `Service.IndexedAnswerIsFib` and `Service.RunPreservesInv` hold from any state whose store satisfies the invariant.
- `JSON.stringify`/`JSON.parse` are treated as the identity on records.
- In Redis mode job records and `fib:<n>` entries share one key space, and `GET /status/:jobId` and `GET /download/:jobId` pass the client's id straight to `getJob` (routes/fibonacci.js:96-105, 130-139). So in Redis mode `/status/fib:5` reads the index entry and answers 200 with no status or `n`, and `/download/fib:5` answers 400. The model keeps the index in its own map and answers 404 to both. It agrees with the code for every id `uuidv4()` produces (`Cache.IndexKeysAvoidJobIds`).
- The PDF deletion timer (utils/pdfGenerator.js:67-68) is set inside the worker thread and likely keeps the thread alive. So the worker's `exit`, and with it `activeWorkers--` (utils/jobQueue.js:37), probably comes about `PDF_EXPIRY_SECONDS` after the result, and a finished job holds its slot until its PDF is deleted. The model does not tie the exit to that delay: a `WorkerExit` event may come at any time after the report, which covers this case without predicting it.
- `uuidv4`, `parseInt`, `new Date()` and `fs.existsSync` are parameters. `createdAt` is the logical submission time, not an ISO string.
- PDF rendering, the file stream, and the scheduled deletion of the PDF (utils/pdfGenerator.js:63-76) are not modelled. The same goes for the expiry-minutes notice (utils/pdfGenerator.js:56). The renderer's outcome is a parameter. The output path is modelled relative to the project root.
- `updateJobStatus('processing')` is called without waiting for it. The model applies it at spawn time, so its interleavings with a fast worker are not modelled.
- Worker threads and real parallelism are not modelled. Messages, `error` events and exits are separate events. The model does not forbid a worker from reporting twice.
- The `/test` route, `server.js`, `load-test.js` and `monitor.js` are not modelled. They are HTTP wiring, load generation and monitoring.
- JavaScript prints numbers of 1e21 and above in exponent form. The model always prints plain decimal, which matters only for a configured `MAX_N` or stored `n` that large.
- FibonacciWorker.Fd is defined on naturals only. A negative `n` makes the JavaScript recursion loop until the stack overflows. `ProcessJob` models that case as an error message carrying V8's `RangeError` text.
- JobQueue.MarkProcessing: states the read-back of spawned jobs only when the default expiry is positive. With a non-positive expiry the rewritten record is already expired in the model.
- JobQueue.OnMessage: states the read-back only when the default expiry is positive, for the same reason.
- JobQueue.OnWorkerError: states the read-back only when the default expiry is positive, for the same reason.
- FibonacciRoute.Post: states the stored record only when the default expiry is positive, for the same reason.
