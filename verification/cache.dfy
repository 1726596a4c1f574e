/** The job store of `utils/cache.js`.

    Both backing modes (Redis and the in-process fallback) are modelled by
    the same expiring maps: key to value with an expiry deadline, read against
    a logical clock `now` (seconds). An entry is live while `now < deadline`;
    for an expiry below 2^31 ms (about 24.8 days) the fallback's `setTimeout`
    purge and Redis's `SETEX` expiry both make it absent from the deadline
    on. (Node fires a timer with a longer delay after 1 ms, which the model
    does not follow.) Overwriting an entry replaces its deadline, which is
    the fallback's "clear the old timer, start a new one", so an old timer
    can never remove a newer value.

    Job records live under their job id; the result-by-input index lives in a
    separate map under keys `fib:<n>`. The fallback keeps two maps as well;
    Redis keeps both in one key space, which the two maps match for every id
    `uuidv4()` produces (`IndexKeysAvoidJobIds`), but not for a client-chosen
    id of the form `fib:<n>`. */
module Cache {
  import opened Wrappers
  import Decimal
  import Env

  /** `DEFAULT_EXPIRY` when the environment does not set one: 15 minutes. */
  const DEFAULT_EXPIRY_FALLBACK: int := 900

  datatype Mode = Redis | Memory

  datatype Status = Pending | Processing | Completed | Failed

  /** A job record as the route creates it and the update operations rewrite it.
      `createdAt` is the logical time of submission. */
  datatype JobRecord = JobRecord(
    n: Option<int>,
    status: Status,
    createdAt: Option<int>,
    result: Option<string>,
    pdfPath: Option<string>,
    error: Option<string>)

  /** What the index stores for an input: `{result, pdfPath, jobId}`. */
  datatype IndexEntry = IndexEntry(result: Option<string>, pdfPath: Option<string>, jobId: string)

  datatype Timed<T> = Timed(value: T, deadline: int)

  datatype Store = Store(
    mode: Mode,
    jobs: map<string, Timed<JobRecord>>,
    index: map<string, Timed<IndexEntry>>,
    defaultExpiry: int)

  /** Outcome of the read-modify-write updates: the new store and the record
      returned to the caller (`null` when the job is absent). */
  datatype Updated = Updated(store: Store, job: Option<JobRecord>)

  datatype Deleted = Deleted(store: Store, existed: bool)

  /** The value stored under `key` if it is still live at `now`. */
  function Lookup<T>(m: map<string, Timed<T>>, key: string, now: int): Option<T> {
    if key in m && now < m[key].deadline then Some(m[key].value) else None
  }

  /** The store at module load: Redis is tried first, nothing is stored yet,
      and the default expiry is `parseInt(PDF_EXPIRY_SECONDS) || 900`. */
  function InitialStore(envExpiry: Option<int>): (s: Store)
    ensures s.mode == Redis
    ensures s.defaultExpiry != 0
    ensures envExpiry.None? ==> s.defaultExpiry == DEFAULT_EXPIRY_FALLBACK
    ensures forall id, t :: GetJob(s, id, t) == None
    ensures forall n, t :: GetResultByInput(s, n, t) == None
  {
    Store(Redis, map[], map[], Env.IntOr(envExpiry, DEFAULT_EXPIRY_FALLBACK))
  }

  // ---------------------------------------------------------------------------
  // Keys of the result-by-input index

  function IndexKey(n: int): string {
    "fib:" + Decimal.IntToString(n)
  }

  /** Distinct inputs never share an index entry. */
  lemma IndexKeyInjective(a: int, b: int)
    ensures IndexKey(a) == IndexKey(b) ==> a == b
  {
    if IndexKey(a) == IndexKey(b) {
      assert IndexKey(a)[4..] == Decimal.IntToString(a);
      assert IndexKey(b)[4..] == Decimal.IntToString(b);
      Decimal.IntToStringInjective(a, b);
    }
  }

  /** The text shape of a `uuidv4()` job id: lower-case hex digits and dashes. */
  predicate IsUuidText(id: string) {
    forall i :: 0 <= i < |id| ==> id[i] in "0123456789abcdef-"
  }

  /** In Redis mode jobs and index entries share one key space; an index key
      contains a `:`, so it is never an id made by `uuidv4()`. */
  lemma IndexKeysAvoidJobIds(id: string, n: int)
    requires IsUuidText(id)
    ensures id != IndexKey(n)
  {
    var k := IndexKey(n);
    assert k[3] == ':';
    assert ':' !in "0123456789abcdef-";
  }

  // ---------------------------------------------------------------------------
  // Job records

  /** `getJob`: the record, or absent once expired, deleted or never written. */
  function GetJob(s: Store, id: string, now: int): (r: Option<JobRecord>)
    ensures r.Some? <==> id in s.jobs && now < s.jobs[id].deadline
    ensures r.Some? ==> r.value == s.jobs[id].value
  {
    Lookup(s.jobs, id, now)
  }

  /** `jobExists` agrees with `getJob` in both modes. */
  function JobExists(s: Store, id: string, now: int): (b: bool)
    ensures b <==> GetJob(s, id, now).Some?
  {
    id in s.jobs && now < s.jobs[id].deadline
  }

  /** `setJob(id, data, expiry)`: overwrite and restart the expiry clock. */
  function SetJob(s: Store, id: string, data: JobRecord, expiry: int, now: int): (r: Store)
    ensures r.mode == s.mode && r.defaultExpiry == s.defaultExpiry
    ensures r.index == s.index
    ensures forall t :: GetJob(r, id, t) == (if t < now + expiry then Some(data) else None)
    ensures forall k, t :: k != id ==> GetJob(r, k, t) == GetJob(s, k, t)
  {
    s.(jobs := s.jobs[id := Timed(data, now + expiry)])
  }

  /** `deleteJob`: removes the entry and its timer; reports whether it was there. */
  function DeleteJob(s: Store, id: string, now: int): (d: Deleted)
    ensures d.existed == JobExists(s, id, now)
    ensures forall t :: GetJob(d.store, id, t) == None
    ensures forall k, t :: k != id ==> GetJob(d.store, k, t) == GetJob(s, k, t)
    ensures d.store.mode == s.mode && d.store.defaultExpiry == s.defaultExpiry
    ensures d.store.index == s.index
  {
    Deleted(s.(jobs := s.jobs - {id}), JobExists(s, id, now))
  }

  /** A second delete of the same id finds nothing and changes nothing. */
  lemma DeleteTwice(s: Store, id: string, now: int, later: int)
    ensures var d := DeleteJob(s, id, now);
      var d' := DeleteJob(d.store, id, later);
      !d'.existed && d'.store == d.store
  {
    var d := DeleteJob(s, id, now);
    assert id !in d.store.jobs;
    assert d.store.jobs - {id} == d.store.jobs;
  }

  /** No write between `before` and `after` changed a record's input: a
      record live in `after` at time `t` carries the `n` of the record that
      `before` held under the same id, either at `t` or at `now`. */
  ghost predicate InputsKept(before: Store, after: Store, now: int) {
    forall id, t :: GetJob(after, id, t).Some? ==>
      || (GetJob(before, id, t).Some? && GetJob(after, id, t).value.n == GetJob(before, id, t).value.n)
      || (GetJob(before, id, now).Some? && GetJob(after, id, t).value.n == GetJob(before, id, now).value.n)
  }

  /** Two stretches of writes at the same `now` that each keep inputs keep them together. */
  lemma InputsKeptTrans(a: Store, b: Store, c: Store, now: int)
    requires InputsKept(a, b, now) && InputsKept(b, c, now)
    ensures InputsKept(a, c, now)
  {
    forall id, t | GetJob(c, id, t).Some?
      ensures || (GetJob(a, id, t).Some? && GetJob(c, id, t).value.n == GetJob(a, id, t).value.n)
              || (GetJob(a, id, now).Some? && GetJob(c, id, t).value.n == GetJob(a, id, now).value.n)
    {
      if GetJob(b, id, now).Some? {
        assert InputsKept(a, b, now);
      }
    }
  }

  /** From `now` on, a readable record of `id` has status `status`. */
  ghost predicate StatusFrom(s: Store, id: string, status: Status, now: int) {
    forall t :: now <= t && GetJob(s, id, t).Some? ==> GetJob(s, id, t).value.status == status
  }

  /** `updateJobStatus`: absent job → `null`, nothing written; otherwise only
      `status` changes and the record is re-stored under the default expiry. */
  function UpdateJobStatus(s: Store, id: string, status: Status, now: int): (u: Updated)
    ensures GetJob(s, id, now).None? ==> u.store == s && u.job.None?
    ensures GetJob(s, id, now).Some? ==>
      u.job == Some(GetJob(s, id, now).value.(status := status))
    ensures u.job.Some? ==>
      forall t :: GetJob(u.store, id, t) == (if t < now + s.defaultExpiry then u.job else None)
    ensures forall k, t :: k != id ==> GetJob(u.store, k, t) == GetJob(s, k, t)
    ensures u.store.index == s.index
    ensures u.store.mode == s.mode && u.store.defaultExpiry == s.defaultExpiry
    ensures InputsKept(s, u.store, now)
    ensures StatusFrom(u.store, id, status, now)
  {
    match GetJob(s, id, now)
    case None => Updated(s, None)
    case Some(rec) =>
      var rec' := rec.(status := status);
      Updated(SetJob(s, id, rec', s.defaultExpiry, now), Some(rec'))
  }

  /** `updateJobResult`: marks the job completed with its result and artifact,
      then, when the record carries its input `n`, indexes the result under
      `fib:<n>`. An absent job writes nothing at all. */
  function UpdateJobResult(s: Store, id: string, result: Option<string>, pdfPath: Option<string>, now: int): (u: Updated)
    ensures GetJob(s, id, now).None? ==> u.store == s && u.job.None?
    ensures GetJob(s, id, now).Some? ==>
      u.job == Some(GetJob(s, id, now).value.(status := Completed, result := result, pdfPath := pdfPath))
    ensures u.job.Some? ==>
      forall t :: GetJob(u.store, id, t) == (if t < now + s.defaultExpiry then u.job else None)
    ensures u.job.Some? && u.job.value.n.Some? ==>
      forall t :: GetResultByInput(u.store, u.job.value.n.value, t) ==
        (if t < now + s.defaultExpiry then Some(IndexEntry(result, pdfPath, id)) else None)
    ensures forall m, t :: (u.job.None? || u.job.value.n != Some(m)) ==>
      GetResultByInput(u.store, m, t) == GetResultByInput(s, m, t)
    ensures forall k, t :: k != id ==> GetJob(u.store, k, t) == GetJob(s, k, t)
    ensures u.store.mode == s.mode && u.store.defaultExpiry == s.defaultExpiry
    ensures InputsKept(s, u.store, now)
    ensures StatusFrom(u.store, id, Completed, now)
  {
    match GetJob(s, id, now)
    case None => Updated(s, None)
    case Some(rec) =>
      var rec' := rec.(status := Completed, result := result, pdfPath := pdfPath);
      var s1 := SetJob(s, id, rec', s.defaultExpiry, now);
      var s2 := if rec'.n.Some? then CacheResultByInput(s1, rec'.n.value, IndexEntry(result, pdfPath, id), now) else s1;
      Updated(s2, Some(rec'))
  }

  /** `updateJobError`: marks the job failed with the message; the index is
      never touched. */
  function UpdateJobError(s: Store, id: string, error: string, now: int): (u: Updated)
    ensures GetJob(s, id, now).None? ==> u.store == s && u.job.None?
    ensures GetJob(s, id, now).Some? ==>
      u.job == Some(GetJob(s, id, now).value.(status := Failed, error := Some(error)))
    ensures u.job.Some? ==>
      forall t :: GetJob(u.store, id, t) == (if t < now + s.defaultExpiry then u.job else None)
    ensures forall k, t :: k != id ==> GetJob(u.store, k, t) == GetJob(s, k, t)
    ensures u.store.index == s.index
    ensures u.store.mode == s.mode && u.store.defaultExpiry == s.defaultExpiry
    ensures InputsKept(s, u.store, now)
    ensures StatusFrom(u.store, id, Failed, now)
  {
    match GetJob(s, id, now)
    case None => Updated(s, None)
    case Some(rec) =>
      var rec' := rec.(status := Failed, error := Some(error));
      Updated(SetJob(s, id, rec', s.defaultExpiry, now), Some(rec'))
  }

  // ---------------------------------------------------------------------------
  // Result-by-input index

  /** `getResultByInput(n)`: the entry filed under `fib:<n>` while it is live. */
  function GetResultByInput(s: Store, n: int, now: int): (r: Option<IndexEntry>)
    ensures r.Some? <==> IndexKey(n) in s.index && now < s.index[IndexKey(n)].deadline
    ensures r.Some? ==> r.value == s.index[IndexKey(n)].value
  {
    Lookup(s.index, IndexKey(n), now)
  }

  /** Reading later never brings back what an earlier read no longer saw:
      whatever is live at `later` was live, with the same value, at every
      earlier time. */
  lemma ReadsNeverRevive(s: Store, id: string, n: int, t: int, later: int)
    requires t <= later
    ensures GetJob(s, id, later).Some? ==> GetJob(s, id, t) == GetJob(s, id, later)
    ensures GetResultByInput(s, n, later).Some? ==> GetResultByInput(s, n, t) == GetResultByInput(s, n, later)
  {
  }

  /** `cacheResultByInput(n, e)`: always the default expiry, whatever the
      caller; other inputs and all job records are untouched. */
  function CacheResultByInput(s: Store, n: int, e: IndexEntry, now: int): (r: Store)
    ensures r.mode == s.mode && r.defaultExpiry == s.defaultExpiry
    ensures r.jobs == s.jobs
    ensures forall t :: GetResultByInput(r, n, t) == (if t < now + s.defaultExpiry then Some(e) else None)
    ensures forall m, t :: m != n ==> GetResultByInput(r, m, t) == GetResultByInput(s, m, t)
  {
    var r := s.(index := s.index[IndexKey(n) := Timed(e, now + s.defaultExpiry)]);
    assert forall m :: m != n ==> IndexKey(m) != IndexKey(n) by {
      forall m | m != n {
        IndexKeyInjective(m, n);
      }
    }
    r
  }

  // ---------------------------------------------------------------------------
  // Expiry timers and the backing mode

  /** The fallback's expiry timers firing at `now`: every entry whose deadline
      has passed is dropped. No lookup from `now` on can tell the difference. */
  function Purge(s: Store, now: int): (r: Store)
    ensures r.mode == s.mode && r.defaultExpiry == s.defaultExpiry
    ensures forall id :: id in r.jobs ==> now < r.jobs[id].deadline
    ensures forall k :: k in r.index ==> now < r.index[k].deadline
    ensures forall id, t :: now <= t ==> GetJob(r, id, t) == GetJob(s, id, t)
    ensures forall n, t :: now <= t ==> GetResultByInput(r, n, t) == GetResultByInput(s, n, t)
    ensures forall id, t :: GetJob(r, id, t).Some? ==> GetJob(r, id, t) == GetJob(s, id, t)
    ensures forall n, t :: GetResultByInput(r, n, t).Some? ==> GetResultByInput(r, n, t) == GetResultByInput(s, n, t)
  {
    s.(jobs := map id | id in s.jobs && now < s.jobs[id].deadline :: s.jobs[id],
       index := map k | k in s.index && now < s.index[k].deadline :: s.index[k])
  }

  /** A Redis connection failure or runtime error: `useMemoryCache = true`.
      The in-process maps are only ever written in memory mode, so at the
      moment of the switch they are empty and everything stored in Redis
      stops being visible. Switching again changes nothing. */
  function SwitchToMemory(s: Store): (r: Store)
    ensures r.mode == Memory
    ensures r.defaultExpiry == s.defaultExpiry
    ensures s.mode == Memory ==> r == s
    ensures s.mode == Redis ==> forall id, t :: GetJob(r, id, t) == None
    ensures s.mode == Redis ==> forall n, t :: GetResultByInput(r, n, t) == None
  {
    if s.mode == Memory then s else Store(Memory, map[], map[], s.defaultExpiry)
  }

  /** Every way the program touches the store, for reasoning about sequences
      of calls. */
  datatype StoreOp =
    | SetJobOp(id: string, data: JobRecord, expiry: int)
    | DeleteJobOp(id: string)
    | UpdateStatusOp(id: string, status: Status)
    | UpdateResultOp(id: string, result: Option<string>, pdfPath: Option<string>)
    | UpdateErrorOp(id: string, error: string)
    | CacheByInputOp(n: int, entry: IndexEntry)
    | TimersFire
    | TransportError

  datatype StoreCall = StoreCall(op: StoreOp, now: int)

  function Apply(s: Store, c: StoreCall): Store {
    match c.op
    case SetJobOp(id, data, expiry) => SetJob(s, id, data, expiry, c.now)
    case DeleteJobOp(id) => DeleteJob(s, id, c.now).store
    case UpdateStatusOp(id, status) => UpdateJobStatus(s, id, status, c.now).store
    case UpdateResultOp(id, result, pdfPath) => UpdateJobResult(s, id, result, pdfPath, c.now).store
    case UpdateErrorOp(id, error) => UpdateJobError(s, id, error, c.now).store
    case CacheByInputOp(n, entry) => CacheResultByInput(s, n, entry, c.now)
    case TimersFire => Purge(s, c.now)
    case TransportError => SwitchToMemory(s)
  }

  function ApplyAll(s: Store, calls: seq<StoreCall>): Store
    decreases |calls|
  {
    if |calls| == 0 then s else ApplyAll(Apply(s, calls[0]), calls[1..])
  }

  /** `useMemoryCache` only ever becomes true: once any transport error has
      happened (or the store already runs in memory), every later state is in
      memory mode, whatever calls follow. */
  lemma {:induction false} FallbackIsPermanent(s: Store, calls: seq<StoreCall>)
    ensures (s.mode == Memory || exists i :: 0 <= i < |calls| && calls[i].op == TransportError) ==>
      ApplyAll(s, calls).mode == Memory
    decreases |calls|
  {
    if |calls| > 0 {
      var s1 := Apply(s, calls[0]);
      if s.mode == Memory || calls[0].op == TransportError {
        assert s1.mode == Memory;
      } else if i :| 0 <= i < |calls| && calls[i].op == TransportError {
        assert i > 0;
        assert calls[1..][i - 1].op == TransportError;
      }
      FallbackIsPermanent(s1, calls[1..]);
    }
  }
}
