/**
 `WorkManager`: the registry of running jobs (the key set of `workerFutures`, in its
 iteration order) and the lazily created per-specification locks. The futures themselves
 are left out; of the worker a `JobId` carries, only whether `terminate()` was called is
 kept. Locks are modelled by their hold count for the calling thread.
 */
module WorkManager {
  import opened Wrappers
  import opened Bytes

  datatype Uuid = Uuid(mostSigBits: Long, leastSigBits: Long)

  datatype Worker = Worker(terminated: bool)

  datatype JobId = JobId(workerId: Uuid, specificationId: string, worker: Worker)

  datatype RegistryError =
    | NoSuchElement        // `orElseThrow()` found no job with that worker id
    | NullPointer          // `unlock` of a specification that never had a lock
    | IllegalMonitorState  // `unlock` of a lock the caller does not hold

  datatype Registry = Registry(jobs: seq<JobId>, locks: map<string, nat>)

  const Empty: Registry := Registry([], map[])

  /** `JobId.equals`: the worker object takes no part. */
  predicate JobIdEquals(a: JobId, b: JobId)
  {
    a.workerId == b.workerId && a.specificationId == b.specificationId
  }

  /** `JobId.equals` is an equivalence relation that ignores the worker. */
  lemma JobIdEqualsIsEquivalence(a: JobId, b: JobId, c: JobId, w: Worker)
    ensures JobIdEquals(a, a)
    ensures JobIdEquals(a, b) ==> JobIdEquals(b, a)
    ensures JobIdEquals(a, b) && JobIdEquals(b, c) ==> JobIdEquals(a, c)
    ensures JobIdEquals(a, a.(worker := w))
    ensures JobIdEquals(a, b) <==> (a.workerId, a.specificationId) == (b.workerId, b.specificationId)
  {
  }

  /** Worker ids are unique among registered jobs, so at most one job answers to an id. */
  predicate Valid(r: Registry)
  {
    forall i, j :: 0 <= i < |r.jobs| && 0 <= j < |r.jobs| && r.jobs[i].workerId == r.jobs[j].workerId ==> i == j
  }

  predicate Registered(r: Registry, w: Uuid)
  {
    exists i :: 0 <= i < |r.jobs| && r.jobs[i].workerId == w
  }

  // ---------------------------------------------------------------------------------------
  // Locks.

  function Holds(r: Registry, s: string): nat
  {
    if s in r.locks then r.locks[s] else 0
  }

  /** `lock(s)`: `computeIfAbsent` creates the lock on first use, then the caller takes it. */
  function Lock(r: Registry, s: string): (r': Registry)
    ensures r'.jobs == r.jobs
    ensures r'.locks.Keys == r.locks.Keys + {s}
    ensures Holds(r', s) == Holds(r, s) + 1
    ensures forall t :: t != s ==> Holds(r', t) == Holds(r, t)
  {
    r.(locks := r.locks[s := Holds(r, s) + 1])
  }

  /** `unlock(s)`: `get` returns null for a specification never locked, and `unlock` of a lock
      not held throws. The lock stays in the map either way. */
  function Unlock(r: Registry, s: string): (res: Result<Registry, RegistryError>)
    ensures s !in r.locks ==> res == Failure(NullPointer)
    ensures s in r.locks && r.locks[s] == 0 ==> res == Failure(IllegalMonitorState)
    ensures res.Success? <==> s in r.locks && r.locks[s] > 0
    ensures res.Success? ==>
              && res.value.jobs == r.jobs
              && res.value.locks.Keys == r.locks.Keys
              && Holds(res.value, s) + 1 == Holds(r, s)
              && forall t :: t != s ==> Holds(res.value, t) == Holds(r, t)
  {
    if s !in r.locks then Failure(NullPointer)
    else if r.locks[s] == 0 then Failure(IllegalMonitorState)
    else Success(r.(locks := r.locks[s := r.locks[s] - 1]))
  }

  // ---------------------------------------------------------------------------------------
  // Stream queries over the key set.

  /** `anyMatch(jobId -> jobId.specificationId.equals(s))`. */
  function AnyMatch(jobs: seq<JobId>, s: string): (b: bool)
    ensures b <==> exists i :: 0 <= i < |jobs| && jobs[i].specificationId == s
  {
    if |jobs| == 0 then false
    else jobs[0].specificationId == s || AnyMatch(jobs[1..], s)
  }

  /** `isRunning(s)`: some registered job has specification `s`. */
  function IsRunning(r: Registry, s: string): (b: bool)
    ensures b <==> exists j :: j in r.jobs && j.specificationId == s
  {
    AnyMatch(r.jobs, s)
  }

  /** `map(jobId -> jobId.workerId)`. */
  function WorkerIds(jobs: seq<JobId>): (ids: seq<Uuid>)
    ensures |ids| == |jobs|
    ensures forall i :: 0 <= i < |jobs| ==> ids[i] == jobs[i].workerId
  {
    if |jobs| == 0 then [] else [jobs[0].workerId] + WorkerIds(jobs[1..])
  }

  /** `list()`: the worker id of every registered job, each once. */
  function List(r: Registry): (ids: seq<Uuid>)
    ensures forall w :: w in ids <==> Registered(r, w)
    ensures |ids| == |r.jobs|
    ensures Valid(r) ==> forall i, j :: 0 <= i < j < |ids| ==> ids[i] != ids[j]
  {
    WorkerIds(r.jobs)
  }

  /** `filter(key -> key.workerId.equals(w)).findFirst()`. */
  function FindFirst(jobs: seq<JobId>, w: Uuid): (res: Option<JobId>)
    ensures res.None? <==> forall i :: 0 <= i < |jobs| ==> jobs[i].workerId != w
    ensures res.Some? ==> res.value in jobs && res.value.workerId == w
  {
    if |jobs| == 0 then None
    else if jobs[0].workerId == w then Some(jobs[0])
    else FindFirst(jobs[1..], w)
  }

  /** `get(w)`: the job registered under `w`, or null. */
  function Get(r: Registry, w: Uuid): (res: Option<JobId>)
    ensures res.None? <==> !Registered(r, w)
    ensures res.Some? ==> res.value in r.jobs && res.value.workerId == w
  {
    FindFirst(r.jobs, w)
  }

  // ---------------------------------------------------------------------------------------
  // Registry updates.

  /** `run(builder)`: registers a job for the worker the builder makes. The worker id comes
      from the worker and is taken to be fresh. */
  function Run(r: Registry, w: Uuid, s: string): (res: (Registry, JobId))
    requires !Registered(r, w)
    ensures res.1 == JobId(w, s, Worker(false))
    ensures res.0.jobs == r.jobs + [res.1]
    ensures res.0.locks == r.locks
    ensures Valid(r) ==> Valid(res.0)
  {
    var job := JobId(w, s, Worker(false));
    (Registry(r.jobs + [job], r.locks), job)
  }

  /** Calls `terminate()` on the worker of the first job registered under `w`. */
  function Terminate(jobs: seq<JobId>, w: Uuid): (jobs': seq<JobId>)
    ensures |jobs'| == |jobs|
    ensures forall i :: 0 <= i < |jobs| ==> JobIdEquals(jobs'[i], jobs[i])
    ensures forall i :: 0 <= i < |jobs| && jobs[i].workerId != w ==> jobs'[i] == jobs[i]
    ensures forall i :: 0 <= i < |jobs| && jobs[i].workerId == w ==>
              (exists k :: 0 <= k < i && jobs[k].workerId == w) || jobs'[i].worker.terminated
  {
    if |jobs| == 0 then []
    else if jobs[0].workerId == w then [jobs[0].(worker := Worker(true))] + jobs[1..]
    else [jobs[0]] + Terminate(jobs[1..], w)
  }

  /** `cancel(w)`: false when `w` is not listed; otherwise terminates that job's worker and
      returns true. The job stays registered either way. */
  function Cancel(r: Registry, w: Uuid): (res: (Registry, bool))
    ensures res.1 <==> Registered(r, w)
    ensures !res.1 ==> res.0 == r
    ensures res.0.locks == r.locks
  {
    if w !in List(r) then (r, false)
    else (r.(jobs := Terminate(r.jobs, w)), true)
  }

  /** `workerFutures.remove(jobId)`: drops every entry equal to `j`. */
  function RemoveKey(jobs: seq<JobId>, j: JobId): (jobs': seq<JobId>)
    ensures forall x :: x in jobs' <==> x in jobs && !JobIdEquals(x, j)
    ensures |jobs'| <= |jobs|
  {
    if |jobs| == 0 then []
    else if JobIdEquals(jobs[0], j) then RemoveKey(jobs[1..], j)
    else [jobs[0]] + RemoveKey(jobs[1..], j)
  }

  /** `remove(w)`: throws when no job is registered under `w`, otherwise deregisters it. */
  function Remove(r: Registry, w: Uuid): (res: Result<Registry, RegistryError>)
    ensures res.Failure? <==> !Registered(r, w)
    ensures res.Failure? ==> res.error == NoSuchElement
    ensures res.Success? ==> res.value.locks == r.locks
  {
    match FindFirst(r.jobs, w)
    case None => Failure(NoSuchElement)
    case Some(j) => Success(r.(jobs := RemoveKey(r.jobs, j)))
  }

  // ---------------------------------------------------------------------------------------
  // Properties relating the operations.

  /** After `run`, the new job is listed, found by `get`, and its specification is running;
      every job that was registered before still is. */
  lemma RunRegisters(r: Registry, w: Uuid, s: string)
    requires Valid(r) && !Registered(r, w)
    ensures var (r', j) := Run(r, w, s);
            && IsRunning(r', s)
            && w in List(r')
            && Get(r', w) == Some(j)
            && (forall v :: v != w ==> Get(r', v) == Get(r, v))
            && |List(r')| == |List(r)| + 1
  {
    var (r', j) := Run(r, w, s);
    assert r'.jobs[|r.jobs|] == j;
    forall v | v != w ensures Get(r', v) == Get(r, v) {
      FindFirstAppend(r.jobs, j, v);
    }
    FindFirstAppend(r.jobs, j, w);
  }

  lemma {:induction false} FindFirstAppend(jobs: seq<JobId>, j: JobId, v: Uuid)
    ensures FindFirst(jobs + [j], v) == if FindFirst(jobs, v).Some? then FindFirst(jobs, v)
                                       else if j.workerId == v then Some(j) else None
  {
    if |jobs| > 0 {
      assert (jobs + [j])[1..] == jobs[1..] + [j];
      FindFirstAppend(jobs[1..], j, v);
    } else {
      assert jobs + [j] == [j];
    }
  }

  /** `cancel` never removes a job: the listing and every `isRunning` answer are unchanged,
      and a cancelled job's worker has been told to terminate. */
  lemma CancelKeepsJobs(r: Registry, w: Uuid, s: string)
    requires Valid(r)
    ensures var (r', ok) := Cancel(r, w);
            && List(r') == List(r)
            && IsRunning(r', s) == IsRunning(r, s)
            && Valid(r')
            && (ok ==> Get(r', w).Some? && Get(r', w).value.worker.terminated)
  {
    var (r', ok) := Cancel(r, w);
    assert forall i :: 0 <= i < |r.jobs| ==> JobIdEquals(r'.jobs[i], r.jobs[i]);
    SameKeysSameAnswers(r, r', s);
    if ok {
      CancelTerminates(r, w);
    }
  }

  /** Two registries whose jobs agree position by position under `JobId.equals` give the same
      listing and the same `isRunning` answers. */
  lemma SameKeysSameAnswers(r: Registry, r': Registry, s: string)
    requires |r'.jobs| == |r.jobs|
    requires forall i :: 0 <= i < |r.jobs| ==> JobIdEquals(r'.jobs[i], r.jobs[i])
    ensures List(r') == List(r)
    ensures AnyMatch(r'.jobs, s) == AnyMatch(r.jobs, s)
    ensures Valid(r) ==> Valid(r')
  {
    assert forall i :: 0 <= i < |r.jobs| ==> List(r')[i] == List(r)[i];
  }

  lemma CancelTerminates(r: Registry, w: Uuid)
    requires Valid(r) && Registered(r, w)
    ensures var r' := Cancel(r, w).0;
            Get(r', w).Some? && Get(r', w).value.worker.terminated
  {
    var i :| 0 <= i < |r.jobs| && r.jobs[i].workerId == w;
    CancelIsTerminate(r, w);
    TerminateOnly(r.jobs, w, i);
    var r' := r.(jobs := Terminate(r.jobs, w));
    SameKeysSameAnswers(r, r', "");
    UniqueGet(r', w, r'.jobs[i]);
  }

  lemma CancelIsTerminate(r: Registry, w: Uuid)
    requires Registered(r, w)
    ensures Cancel(r, w).0 == r.(jobs := Terminate(r.jobs, w))
  {
    assert w in List(r);
  }

  /** With unique worker ids, the one job with id `w` is the one terminated. */
  lemma TerminateOnly(jobs: seq<JobId>, w: Uuid, i: nat)
    requires UniqueIds(jobs) && i < |jobs| && jobs[i].workerId == w
    ensures Terminate(jobs, w)[i].worker.terminated && Terminate(jobs, w)[i].workerId == w
  {
    assert forall k :: 0 <= k < i ==> jobs[k].workerId != w;
  }

  /** `remove(w)` deletes the job registered under `w` and nothing else. */
  lemma RemoveOnlyThatJob(r: Registry, w: Uuid)
    requires Valid(r) && Registered(r, w)
    ensures Remove(r, w).Success?
    ensures var r' := Remove(r, w).value;
            && Valid(r')
            && Get(r', w).None?
            && (forall v :: v != w ==> Get(r', v) == Get(r, v))
            && |r'.jobs| + 1 == |r.jobs|
  {
    var j := FindFirst(r.jobs, w).value;
    var i :| 0 <= i < |r.jobs| && r.jobs[i] == j;
    RemoveKeyUnique(r.jobs, i);
    var r' := Remove(r, w).value;
    assert r'.jobs == r.jobs[..i] + r.jobs[i + 1..];
    RemoveAtValid(r, i);
    forall v | v != w ensures Get(r', v) == Get(r, v) {
      RemoveAtGet(r, i, v);
    }
  }

  lemma RemoveAtValid(r: Registry, i: nat)
    requires Valid(r) && i < |r.jobs|
    ensures Valid(Registry(r.jobs[..i] + r.jobs[i + 1..], r.locks))
    ensures !Registered(Registry(r.jobs[..i] + r.jobs[i + 1..], r.locks), r.jobs[i].workerId)
  {
    var js := r.jobs[..i] + r.jobs[i + 1..];
    assert forall a :: 0 <= a < |js| ==> js[a] == if a < i then r.jobs[a] else r.jobs[a + 1];
  }

  lemma RemoveAtGet(r: Registry, i: nat, v: Uuid)
    requires Valid(r) && i < |r.jobs| && v != r.jobs[i].workerId
    ensures Get(Registry(r.jobs[..i] + r.jobs[i + 1..], r.locks), v) == Get(r, v)
  {
    var r' := Registry(r.jobs[..i] + r.jobs[i + 1..], r.locks);
    RemoveAtValid(r, i);
    var js := r'.jobs;
    assert forall a :: 0 <= a < |js| ==> js[a] == if a < i then r.jobs[a] else r.jobs[a + 1];
    if Get(r, v).Some? {
      var g := Get(r, v).value;
      var b :| 0 <= b < |r.jobs| && r.jobs[b] == g;
      assert b != i;
      if b < i { assert js[b] == g; } else { assert js[b - 1] == g; }
      UniqueGet(r', v, g);
    } else {
      assert forall a :: 0 <= a < |js| ==> js[a].workerId != v;
    }
  }

  lemma UniqueGet(r: Registry, v: Uuid, g: JobId)
    requires Valid(r) && g in r.jobs && g.workerId == v
    ensures Get(r, v) == Some(g)
  {
    var x := Get(r, v).value;
    var a :| 0 <= a < |r.jobs| && r.jobs[a] == x;
    var b :| 0 <= b < |r.jobs| && r.jobs[b] == g;
  }

  /** No two jobs share a worker id. */
  predicate UniqueIds(jobs: seq<JobId>)
  {
    forall a, b :: 0 <= a < |jobs| && 0 <= b < |jobs| && jobs[a].workerId == jobs[b].workerId ==> a == b
  }

  lemma UniqueIdsTail(jobs: seq<JobId>)
    requires |jobs| > 0 && UniqueIds(jobs)
    ensures UniqueIds(jobs[1..])
    ensures forall k :: 0 <= k < |jobs[1..]| ==> jobs[1..][k].workerId != jobs[0].workerId
  {
    var rest := jobs[1..];
    forall a, b | 0 <= a < |rest| && 0 <= b < |rest| && rest[a].workerId == rest[b].workerId
      ensures a == b
    {
      assert rest[a] == jobs[a + 1] && rest[b] == jobs[b + 1];
    }
    forall k | 0 <= k < |rest| ensures rest[k].workerId != jobs[0].workerId {
      assert rest[k] == jobs[k + 1];
    }
  }

  lemma ConsSplice(jobs: seq<JobId>, i: nat)
    requires 0 < i < |jobs|
    ensures [jobs[0]] + (jobs[1..][..i - 1] + jobs[1..][i..]) == jobs[..i] + jobs[i + 1..]
  {
    assert jobs[1..][..i - 1] == jobs[1..i];
    assert jobs[1..][i..] == jobs[i + 1..];
    assert jobs[..i] == [jobs[0]] + jobs[1..i];
  }

  /** Removing the key of the only job with its worker id drops exactly that position. */
  lemma {:induction false} RemoveKeyUnique(jobs: seq<JobId>, i: nat)
    requires i < |jobs| && UniqueIds(jobs)
    ensures RemoveKey(jobs, jobs[i]) == jobs[..i] + jobs[i + 1..]
  {
    var rest := jobs[1..];
    UniqueIdsTail(jobs);
    if i == 0 {
      RemoveKeyAbsent(rest, jobs[0]);
    } else {
      assert !JobIdEquals(jobs[0], jobs[i]);
      assert rest[i - 1] == jobs[i];
      RemoveKeyUnique(rest, i - 1);
      ConsSplice(jobs, i);
    }
  }

  lemma {:induction false} RemoveKeyAbsent(jobs: seq<JobId>, j: JobId)
    requires forall k :: 0 <= k < |jobs| ==> jobs[k].workerId != j.workerId
    ensures RemoveKey(jobs, j) == jobs
  {
    if |jobs| > 0 {
      RemoveKeyAbsent(jobs[1..], j);
    }
  }

  // ---------------------------------------------------------------------------------------
  // Any sequence of calls.

  datatype Op = LockOp(s: string) | UnlockOp(s: string) | RunOp(w: Uuid, s: string) | CancelOp(w: Uuid) | RemoveOp(w: Uuid)

  /** The effect of one call on the registry; a call that throws leaves it unchanged. Only
      `run` with a fresh worker id may be issued. */
  function Step(r: Registry, op: Op): Registry
  {
    match op
    case LockOp(s) => Lock(r, s)
    case UnlockOp(s) => (match Unlock(r, s) case Success(r') => r' case Failure(_) => r)
    case RunOp(w, s) => if Registered(r, w) then r else Run(r, w, s).0
    case CancelOp(w) => Cancel(r, w).0
    case RemoveOp(w) => (match Remove(r, w) case Success(r') => r' case Failure(_) => r)
  }

  function Steps(r: Registry, ops: seq<Op>): Registry
  {
    if |ops| == 0 then r else Step(Steps(r, ops[..|ops| - 1]), ops[|ops| - 1])
  }

  predicate NeverLocked(ops: seq<Op>, s: string)
  {
    forall i :: 0 <= i < |ops| ==> ops[i] != LockOp(s)
  }

  /** The lock map only grows; a specification gets a lock only by `lock`, so `unlock` of a
      specification never locked fails; and worker ids stay unique. */
  lemma {:induction false} LockMapGrows(r: Registry, ops: seq<Op>, s: string)
    requires Valid(r)
    ensures r.locks.Keys <= Steps(r, ops).locks.Keys
    ensures Valid(Steps(r, ops))
    ensures s !in r.locks && NeverLocked(ops, s) ==> Unlock(Steps(r, ops), s) == Failure(NullPointer)
  {
    if |ops| > 0 {
      var prev := ops[..|ops| - 1];
      LockMapGrows(r, prev, s);
      var r0 := Steps(r, prev);
      var op := ops[|ops| - 1];
      match op {
        case RemoveOp(w) =>
          if Registered(r0, w) { RemoveOnlyThatJob(r0, w); }
        case CancelOp(w) =>
          CancelKeepsJobs(r0, w, "");
        case _ =>
      }
    }
  }
}
