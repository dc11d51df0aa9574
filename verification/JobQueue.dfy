/** The job table and its atomic statements (app/jobs/queue.py). A job's id is its position: rows
    are never deleted. Instants are integers; backoff and delays arrive as parameters. */
module JobQueue {
  import opened Common

  datatype Status = Queued | Running | Succeeded | Failed | Dead | Cancelled

  datatype Job = Job(kind: string, priority: int, runAfter: int, status: Status, attempts: int, maxAttempts: int,
                     dedupeKey: Option<string>, lockedBy: Option<string>, heartbeatAt: Option<int>,
                     finishedAt: Option<int>, cancelAsked: bool)

  type Table = seq<Job>

  // ----- the partial unique index -----------------------------------------------------------

  predicate IsQueued(t: Table, i: int, key: string) {
    0 <= i < |t| && t[i].status == Queued && t[i].dedupeKey == Some(key)
  }

  /** SELECT 1 FROM jobs WHERE dedupe_key = key AND status = 'queued' AND id != except */
  predicate QueuedWith(t: Table, key: string, except: int) {
    exists i :: 0 <= i < |t| && i != except && IsQueued(t, i, key)
  }

  /** What the index enforces: no two queued rows share a non-null key. */
  predicate UniqueQueued(t: Table) {
    forall i, j :: 0 <= i < j < |t| && t[i].status == Queued && t[j].status == Queued && t[i].dedupeKey.Some? ==>
      t[i].dedupeKey != t[j].dedupeKey
  }

  /** A statement that would break the index is aborted as a whole. */
  function Guarded(before: Table, after: Table): Table {
    if UniqueQueued(after) then after else before
  }

  // ----- the statements as functions of the table -------------------------------------------

  function NewJob(kind: string, key: Option<string>, runAfter: int, priority: int, maxAttempts: int): Job {
    Job(kind, priority, runAfter, Queued, 0, maxAttempts, key, None, None, None, false)
  }

  function Enqueued(t: Table, job: Job): Table {
    if job.dedupeKey.Some? && QueuedWith(t, job.dedupeKey.value, -1) then t else t + [job]
  }

  predicate Due(job: Job, now: int, drain: bool, kinds: seq<string>) {
    job.status == Queued && (job.runAfter <= now || drain) && (kinds == [] || job.kind in kinds)
  }

  /** ORDER BY priority DESC, run_after, id */
  predicate Precedes(t: Table, i: int, j: int)
    requires 0 <= i < |t| && 0 <= j < |t|
  {
    || t[i].priority > t[j].priority
    || (t[i].priority == t[j].priority && t[i].runAfter < t[j].runAfter)
    || (t[i].priority == t[j].priority && t[i].runAfter == t[j].runAfter && i <= j)
  }

  ghost predicate IsNext(t: Table, i: int, now: int, drain: bool, kinds: seq<string>) {
    && 0 <= i < |t| && Due(t[i], now, drain, kinds)
    && forall j :: 0 <= j < |t| && Due(t[j], now, drain, kinds) ==> Precedes(t, i, j)
  }

  function Claimed(t: Table, i: int, worker: string, now: int): Table
    requires 0 <= i < |t|
  {
    t[i := t[i].(status := Running, lockedBy := Some(worker), heartbeatAt := Some(now), attempts := t[i].attempts + 1)]
  }

  /** The guard every outcome statement carries: still running, still locked by this worker. */
  predicate Owns(t: Table, i: int, worker: string) {
    0 <= i < |t| && t[i].status == Running && t[i].lockedBy == Some(worker)
  }

  function Completed(t: Table, i: int, worker: string, now: int): Table {
    if Owns(t, i, worker) then t[i := t[i].(status := Succeeded, finishedAt := Some(now), lockedBy := None)] else t
  }

  function MarkedCancelled(t: Table, i: int, worker: string, now: int): Table {
    if Owns(t, i, worker) then t[i := t[i].(status := Cancelled, finishedAt := Some(now), lockedBy := None)] else t
  }

  /** An empty key counts as no key here, although the index still covers it. */
  predicate HasDuplicate(t: Table, i: int)
    requires 0 <= i < |t|
  {
    t[i].dedupeKey.Some? && t[i].dedupeKey.value != "" && QueuedWith(t, t[i].dedupeKey.value, i)
  }

  /** What `fail` and `defer` decide after reading, and write in a second statement: the job failed for
      good, ran out of attempts, is dropped as a duplicate, goes back after a failure, or goes back with
      its attempt returned. */
  datatype Plan = Fails(at: int) | Dies(at: int) | Drops(at: int) | Requeues(runAfter: int) | GivesBack(runAfter: int)

  function FailPlan(t: Table, i: int, retryable: bool, now: int, delay: int): Plan
    requires 0 <= i < |t|
  {
    if retryable && t[i].attempts < t[i].maxAttempts then
      if HasDuplicate(t, i) then Drops(now) else Requeues(now + delay)
    else if retryable then Dies(now) else Fails(now)
  }

  function DeferPlan(t: Table, i: int, now: int, delay: int): Plan
    requires 0 <= i < |t|
  {
    if HasDuplicate(t, i) then Drops(now) else GivesBack(now + delay)
  }

  function PlannedRow(row: Job, plan: Plan): Job {
    match plan
    case Fails(at) => row.(status := Failed, finishedAt := Some(at), lockedBy := None)
    case Dies(at) => row.(status := Dead, finishedAt := Some(at), lockedBy := None)
    case Drops(at) => row.(status := Cancelled, finishedAt := Some(at), lockedBy := None)
    case Requeues(runAfter) => row.(status := Queued, runAfter := runAfter, finishedAt := None, lockedBy := None)
    case GivesBack(runAfter) =>
      row.(status := Queued, attempts := if row.attempts - 1 > 0 then row.attempts - 1 else 0,
           runAfter := runAfter, lockedBy := None, heartbeatAt := None)
  }

  /** The guarded UPDATE of `fail` and `defer`. */
  function Written(t: Table, i: int, worker: string, plan: Plan): Table {
    if Owns(t, i, worker) then Guarded(t, t[i := PlannedRow(t[i], plan)]) else t
  }

  function FailedTable(t: Table, i: int, worker: string, retryable: bool, now: int, delay: int): Table {
    if Owns(t, i, worker) then Written(t, i, worker, FailPlan(t, i, retryable, now, delay)) else t
  }

  function Deferred(t: Table, i: int, worker: string, now: int, delay: int): Table {
    if Owns(t, i, worker) then Written(t, i, worker, DeferPlan(t, i, now, delay)) else t
  }

  predicate Stale(job: Job, cutoff: int) {
    job.status == Running && (job.heartbeatAt.None? || job.heartbeatAt.value < cutoff)
  }

  function ReapedRow(t: Table, i: int, cutoff: int): Job
    requires 0 <= i < |t|
  {
    if !Stale(t[i], cutoff) then t[i]
    else
      t[i].(status := if t[i].dedupeKey.Some? && QueuedWith(t, t[i].dedupeKey.value, i) then Cancelled else Queued,
            lockedBy := None, heartbeatAt := None)
  }

  function ReapAll(t: Table, cutoff: int): Table {
    seq(|t|, i requires 0 <= i < |t| => ReapedRow(t, i, cutoff))
  }

  function Reaped(t: Table, cutoff: int): Table {
    Guarded(t, ReapAll(t, cutoff))
  }

  function CancelRequested(t: Table, i: int, now: int): Table {
    if !(0 <= i < |t|) then t
    else if t[i].status == Queued then t[i := t[i].(status := Cancelled, finishedAt := Some(now))]
    else if t[i].status == Running then t[i := t[i].(cancelAsked := true)]
    else t
  }

  predicate Retryable(t: Table, i: int) {
    0 <= i < |t| && (t[i].status == Failed || t[i].status == Dead)
  }

  function RetriedRow(job: Job, now: int): Job {
    job.(status := Queued, attempts := 0, runAfter := now, lockedBy := None, finishedAt := None)
  }

  function Retried(t: Table, i: int, now: int): Table {
    if Retryable(t, i) then Guarded(t, t[i := RetriedRow(t[i], now)]) else t
  }

  function Beaten(t: Table, worker: string, now: int): Table {
    seq(|t|, i requires 0 <= i < |t| => if Owns(t, i, worker) then t[i].(heartbeatAt := Some(now)) else t[i])
  }

  // ----- a worker's outcome -----------------------------------------------------------------

  datatype Outcome = Complete | Fail(retryable: bool) | AckCancel | Defer

  /** The outcome `_execute_claimed` records when nobody comes between a read and its write; a defer that the
      index aborts becomes a retryable failure. */
  function Finished(t: Table, i: int, worker: string, outcome: Outcome, now: int, delay: int): Table {
    match outcome
    case Complete => Completed(t, i, worker, now)
    case AckCancel => MarkedCancelled(t, i, worker, now)
    case Fail(retryable) => FailedTable(t, i, worker, retryable, now, delay)
    case Defer =>
      if DeferAborts(t, i, worker, now, delay) then FailedTable(t, i, worker, true, now, delay)
      else Deferred(t, i, worker, now, delay)
  }

  predicate DeferAborts(t: Table, i: int, worker: string, now: int, delay: int) {
    Owns(t, i, worker) && !UniqueQueued(t[i := PlannedRow(t[i], DeferPlan(t, i, now, delay))])
  }

  datatype HandlerResult = Returned | RaisedCancelled | RaisedDeferred | RaisedNonRetryable | RaisedOther | NoHandler

  function OutcomeOf(result: HandlerResult, drain: bool): Outcome {
    match result
    case Returned => Complete
    case RaisedCancelled => AckCancel
    case RaisedDeferred => Defer
    case RaisedNonRetryable => Fail(false)
    case RaisedOther => Fail(!drain)
    case NoHandler => Fail(false)
  }

  // ----- what a handler's result means for its row ------------------------------------------

  /** Another row with the same key waits in the queue. */
  ghost predicate DuplicateWaits(t: Table, i: nat)
    requires i < |t|
  {
    t[i].dedupeKey.Some? && exists j ::
      0 <= j < |t| && j != i && t[j].status == Queued && t[j].dedupeKey == t[i].dedupeKey
  }

  /** A job that failed and may be tried again: out of attempts it is dead; else it is queued after the delay,
      unless a duplicate waits, for which it is dropped; with the empty key, which is none, the index refuses
      and the row stays as it was. */
  ghost predicate TriedAgain(t: Table, i: nat, now: int, delay: int, b: Job)
    requires i < |t|
  {
    var a := t[i];
    if a.attempts >= a.maxAttempts then b == a.(status := Dead, finishedAt := Some(now), lockedBy := None)
    else if !DuplicateWaits(t, i)
      then b == a.(status := Queued, runAfter := now + delay, finishedAt := None, lockedBy := None)
    else if a.dedupeKey != Some("") then b == a.(status := Cancelled, finishedAt := Some(now), lockedBy := None)
    else b == a
  }

  /** The row `b` that a worker leaves of its own row `i`. */
  ghost predicate LeftAs(t: Table, i: nat, result: HandlerResult, drain: bool, now: int, delay: int, b: Job)
    requires i < |t|
  {
    var a := t[i];
    match result
    case Returned => b == a.(status := Succeeded, finishedAt := Some(now), lockedBy := None)
    case RaisedCancelled => b == a.(status := Cancelled, finishedAt := Some(now), lockedBy := None)
    case NoHandler => b == a.(status := Failed, finishedAt := Some(now), lockedBy := None)
    case RaisedNonRetryable => b == a.(status := Failed, finishedAt := Some(now), lockedBy := None)
    case RaisedOther =>
      if drain then b == a.(status := Failed, finishedAt := Some(now), lockedBy := None)
      else TriedAgain(t, i, now, delay, b)
    case RaisedDeferred =>
      if !DuplicateWaits(t, i) then
        b == a.(status := Queued, attempts := if a.attempts >= 1 then a.attempts - 1 else 0,
                runAfter := now + delay, lockedBy := None, heartbeatAt := None)
      else if a.dedupeKey != Some("") then b == a.(status := Cancelled, finishedAt := Some(now), lockedBy := None)
      else TriedAgain(t, i, now, delay, b)
  }

  /** A table whose queued rows were all queued before, under the same keys, is as unique as before. */
  lemma FewerQueued(t: Table, t': Table)
    requires UniqueQueued(t) && |t'| == |t|
    requires forall i :: 0 <= i < |t| && t'[i].status == Queued ==>
      t[i].status == Queued && t'[i].dedupeKey == t[i].dedupeKey
    ensures UniqueQueued(t')
  {
  }

  lemma UniqueAfterRequeue(t: Table, i: nat, row: Job)
    requires UniqueQueued(t) && i < |t| && t[i].status != Queued && row.status == Queued
    ensures UniqueQueued(t[i := row]) <==> !(row.dedupeKey.Some? && QueuedWith(t, row.dedupeKey.value, i))
  {
    var t' := t[i := row];
    if row.dedupeKey.Some? && QueuedWith(t, row.dedupeKey.value, i) {
      var j :| 0 <= j < |t| && j != i && IsQueued(t, j, row.dedupeKey.value);
      assert t'[j].status == Queued && t'[j].dedupeKey == t'[i].dedupeKey;
      assert !UniqueQueued(t');
    } else {
      forall j, k | 0 <= j < k < |t| && t'[j].status == Queued && t'[k].status == Queued && t'[j].dedupeKey.Some?
        ensures t'[j].dedupeKey != t'[k].dedupeKey
      {
        if row.dedupeKey.Some? {
          assert k != i ==> !IsQueued(t, k, row.dedupeKey.value);
          assert j != i ==> !IsQueued(t, j, row.dedupeKey.value);
        }
      }
    }
  }

  lemma WaitsIsQueued(t: Table, i: nat)
    requires i < |t|
    ensures DuplicateWaits(t, i) <==> t[i].dedupeKey.Some? && QueuedWith(t, t[i].dedupeKey.value, i)
  {
    if DuplicateWaits(t, i) {
      var j :| 0 <= j < |t| && j != i && t[j].status == Queued && t[j].dedupeKey == t[i].dedupeKey;
      assert IsQueued(t, j, t[i].dedupeKey.value);
    }
    if t[i].dedupeKey.Some? && QueuedWith(t, t[i].dedupeKey.value, i) {
      var j :| 0 <= j < |t| && j != i && IsQueued(t, j, t[i].dedupeKey.value);
      assert t[j].status == Queued && t[j].dedupeKey == t[i].dedupeKey;
    }
  }

  lemma FailureLeaves(t: Table, i: nat, worker: string, now: int, delay: int)
    requires UniqueQueued(t) && Owns(t, i, worker)
    ensures |FailedTable(t, i, worker, true, now, delay)| == |t|
    ensures TriedAgain(t, i, now, delay, FailedTable(t, i, worker, true, now, delay)[i])
  {
    hide UniqueQueued;
    var plan := FailPlan(t, i, true, now, delay);
    OnlyRequeueMeetsIndex(t, i, plan);
    WaitsIsQueued(t, i);
  }

  /** Only a plan that puts the row back in the queue can meet the index. */
  lemma OnlyRequeueMeetsIndex(t: Table, i: nat, plan: Plan)
    requires UniqueQueued(t) && i < |t| && t[i].status == Running
    ensures UniqueQueued(t[i := PlannedRow(t[i], plan)]) <==>
      !((plan.Requeues? || plan.GivesBack?) && t[i].dedupeKey.Some? && QueuedWith(t, t[i].dedupeKey.value, i))
  {
    var row := PlannedRow(t[i], plan);
    if row.status == Queued {
      UniqueAfterRequeue(t, i, row);
    } else {
      FewerQueued(t, t[i := row]);
    }
  }

  /** What becomes of a worker's own row, for every result of its handler, when nobody comes in between. */
  lemma ResultDecidesRow(t: Table, i: nat, worker: string, result: HandlerResult, drain: bool, now: int, delay: int)
    requires UniqueQueued(t) && Owns(t, i, worker)
    ensures var after := Finished(t, i, worker, OutcomeOf(result, drain), now, delay);
      |after| == |t| && LeftAs(t, i, result, drain, now, delay, after[i])
  {
    hide UniqueQueued, TriedAgain;
    FailureLeaves(t, i, worker, now, delay);
    OnlyRequeueMeetsIndex(t, i, FailPlan(t, i, false, now, delay));
    OnlyRequeueMeetsIndex(t, i, DeferPlan(t, i, now, delay));
    WaitsIsQueued(t, i);
  }

  /** Nothing a worker records touches any row but its own, and nothing at all if it does not own that one. */
  lemma ResultTouchesOwnRow(t: Table, i: int, worker: string, outcome: Outcome, now: int, delay: int)
    ensures var after := Finished(t, i, worker, outcome, now, delay);
      |after| == |t| && (!Owns(t, i, worker) ==> after == t) && forall j :: 0 <= j < |t| && j != i ==> after[j] == t[j]
  {
    hide UniqueQueued, HasDuplicate, PlannedRow;
  }

  // ----- the operations ---------------------------------------------------------------------

  /** The `jobs` table. Each method is one statement, or one transaction of the module. */
  class Queue {
    var jobs: Table

    constructor ()
      ensures jobs == []
    {
      jobs := [];
    }

    /** Insert, or return the pending row that shares the key. */
    method Enqueue(kind: string, key: Option<string>, runAfter: int, priority: int, maxAttempts: int) returns (id: nat)
      modifies this
      ensures jobs == Enqueued(old(jobs), NewJob(kind, key, runAfter, priority, maxAttempts))
      ensures id < |jobs| && jobs[id].dedupeKey == key
      ensures key != Some("") ==> jobs[id].status == Queued
    {
      var row := NewJob(kind, key, runAfter, priority, maxAttempts);
      if key.Some? && QueuedWith(jobs, key.value, -1) {
        // ON CONFLICT DO NOTHING: look the existing row up.
        var last := |jobs| - 1;
        ghost var k :| 0 <= k < |jobs| && IsQueued(jobs, k, key.value);
        if key.value != "" {
          while jobs[last].dedupeKey != key || jobs[last].status != Queued
            invariant k <= last < |jobs|
            decreases last
          {
            last := last - 1;
          }
        } else {
          while jobs[last].dedupeKey != key
            invariant k <= last < |jobs|
            decreases last
          {
            last := last - 1;
          }
        }
        id := last;
      } else {
        id := |jobs|;
        jobs := jobs + [row];
      }
    }

    /** Claim the first due row, if any. */
    method Dequeue(worker: string, now: int, drain: bool, kinds: seq<string>) returns (id: Option<nat>)
      modifies this
      ensures id.Some? ==>
        IsNext(old(jobs), id.value, now, drain, kinds) && jobs == Claimed(old(jobs), id.value, worker, now)
      ensures id.None? ==> jobs == old(jobs) && forall j :: 0 <= j < |jobs| ==> !Due(jobs[j], now, drain, kinds)
    {
      id := None;
      for j := 0 to |jobs|
        invariant jobs == old(jobs)
        invariant id.None? ==> forall k :: 0 <= k < j ==> !Due(jobs[k], now, drain, kinds)
        invariant id.Some? ==> id.value < j && Due(jobs[id.value], now, drain, kinds)
        invariant id.Some? ==> forall k :: 0 <= k < j && Due(jobs[k], now, drain, kinds) ==> Precedes(jobs, id.value, k)
      {
        if Due(jobs[j], now, drain, kinds) && (id.None? || !Precedes(jobs, id.value, j)) {
          id := Some(j);
        }
      }
      if id.Some? {
        var row := jobs[id.value];
        jobs := jobs[id.value := row.(status := Running, lockedBy := Some(worker), heartbeatAt := Some(now),
                                      attempts := row.attempts + 1)];
      }
    }

    method Complete(id: nat, worker: string, now: int) returns (ok: bool)
      modifies this
      ensures jobs == Completed(old(jobs), id, worker, now) && ok == Owns(old(jobs), id, worker)
    {
      ok := Owns(jobs, id, worker);
      if ok {
        jobs := jobs[id := jobs[id].(status := Succeeded, finishedAt := Some(now), lockedBy := None)];
      }
    }

    method MarkCancelled(id: nat, worker: string, now: int) returns (ok: bool)
      modifies this
      ensures jobs == MarkedCancelled(old(jobs), id, worker, now) && ok == Owns(old(jobs), id, worker)
    {
      ok := Owns(jobs, id, worker);
      if ok {
        jobs := jobs[id := jobs[id].(status := Cancelled, finishedAt := Some(now), lockedBy := None)];
      }
    }

    /** The reading half of `fail`. */
    method PlanFailure(id: nat, retryable: bool, now: int, delay: int) returns (plan: Plan)
      requires id < |jobs|
      ensures plan == FailPlan(jobs, id, retryable, now, delay)
    {
      if retryable && jobs[id].attempts < jobs[id].maxAttempts {
        if jobs[id].dedupeKey.Some? && jobs[id].dedupeKey.value != "" {
          if QueuedWith(jobs, jobs[id].dedupeKey.value, id) {
            plan := Drops(now);
          } else {
            plan := Requeues(now + delay);
          }
        } else {
          plan := Requeues(now + delay);
        }
      } else {
        plan := if retryable then Dies(now) else Fails(now);
      }
    }

    /** The reading half of `defer`. */
    method PlanDeferral(id: nat, now: int, delay: int) returns (plan: Plan)
      requires id < |jobs|
      ensures plan == DeferPlan(jobs, id, now, delay)
    {
      plan := GivesBack(now + delay);
      if jobs[id].dedupeKey.Some? && jobs[id].dedupeKey.value != "" {
        if QueuedWith(jobs, jobs[id].dedupeKey.value, id) {
          plan := Drops(now);
        }
      }
    }

    /** The writing half of both: one guarded UPDATE, which the index may abort. */
    method Write(id: nat, worker: string, plan: Plan) returns (updated: bool, aborted: bool)
      modifies this
      ensures jobs == Written(old(jobs), id, worker, plan)
      ensures aborted <==>
        Owns(old(jobs), id, worker) && !UniqueQueued(old(jobs)[id := PlannedRow(old(jobs)[id], plan)])
      ensures updated <==> Owns(old(jobs), id, worker) && !aborted
    {
      if !Owns(jobs, id, worker) {
        return false, false;
      }
      var row := jobs[id].(lockedBy := None);
      match plan {
        case Fails(at) => row := row.(status := Failed, finishedAt := Some(at));
        case Dies(at) => row := row.(status := Dead, finishedAt := Some(at));
        case Drops(at) => row := row.(status := Cancelled, finishedAt := Some(at));
        case Requeues(runAfter) => row := row.(status := Queued, runAfter := runAfter, finishedAt := None);
        case GivesBack(runAfter) =>
          row := row.(status := Queued, attempts := if row.attempts - 1 > 0 then row.attempts - 1
            else 0, runAfter := runAfter, heartbeatAt := None);
      }
      var after := jobs[id := row];
      aborted := !UniqueQueued(after);
      updated := !aborted;
      jobs := Guarded(jobs, after);
    }

    /** Read the row, decide the new status, then one guarded UPDATE; here with nothing in between. */
    method Fail(id: nat, worker: string, retryable: bool, now: int, delay: int) returns (ok: bool)
      modifies this
      ensures jobs == FailedTable(old(jobs), id, worker, retryable, now, delay)
      ensures ok ==> Owns(old(jobs), id, worker)
    {
      if id >= |jobs| {
        return false;
      }
      var plan := PlanFailure(id, retryable, now, delay);
      var aborted;
      ok, aborted := Write(id, worker, plan);
    }

    /** Requeue with a delay and give the attempt back, unless a duplicate is already queued. */
    method Defer(id: nat, worker: string, now: int, delay: int) returns (aborted: bool)
      modifies this
      ensures jobs == Deferred(old(jobs), id, worker, now, delay)
      ensures aborted == DeferAborts(old(jobs), id, worker, now, delay)
    {
      if id >= |jobs| {
        return false;
      }
      var plan := PlanDeferral(id, now, delay);
      var updated;
      updated, aborted := Write(id, worker, plan);
    }

    /** One UPDATE over every stale running row; the EXISTS in it reads the table as it was. */
    method ReapStale(cutoff: int)
      modifies this
      ensures jobs == Reaped(old(jobs), cutoff)
    {
      var after := jobs;
      for i := 0 to |jobs|
        invariant jobs == old(jobs) && |after| == |jobs|
        invariant forall k :: 0 <= k < i ==> after[k] == ReapedRow(jobs, k, cutoff)
        invariant forall k :: i <= k < |jobs| ==> after[k] == jobs[k]
      {
        var row := jobs[i];
        if row.status == Running && (row.heartbeatAt.None? || row.heartbeatAt.value < cutoff) {
          if row.dedupeKey.Some? && QueuedWith(jobs, row.dedupeKey.value, i) {
            row := row.(status := Cancelled);
          } else {
            row := row.(status := Queued);
          }
          after := after[i := row.(lockedBy := None, heartbeatAt := None)];
        }
      }
      assert after == ReapAll(jobs, cutoff);
      jobs := Guarded(jobs, after);
    }

    method Cancel(id: nat, now: int) returns (outright: bool)
      modifies this
      ensures jobs == CancelRequested(old(jobs), id, now)
      ensures outright <==> id < |old(jobs)| && old(jobs)[id].status == Queued
    {
      outright := false;
      if id < |jobs| {
        if jobs[id].status == Queued {
          jobs := jobs[id := jobs[id].(status := Cancelled, finishedAt := Some(now))];
          outright := true;
        } else if jobs[id].status == Running {
          jobs := jobs[id := jobs[id].(cancelAsked := true)];
        }
      }
    }

    method Retry(id: nat, now: int) returns (ok: bool)
      modifies this
      ensures jobs == Retried(old(jobs), id, now)
      ensures ok <==> jobs != old(jobs)
    {
      ok := false;
      if id < |jobs| && (jobs[id].status == Failed || jobs[id].status == Dead) {
        var after := jobs[id := jobs[id].(
          status := Queued, attempts := 0, runAfter := now, lockedBy := None, finishedAt := None)];
        ok := UniqueQueued(after);
        jobs := Guarded(jobs, after);
      }
    }

    /** Phases 2 and 3 of a worker: the handler has run, now exactly one outcome is recorded. */
    method ExecuteClaimed(id: nat, worker: string, result: HandlerResult, drain: bool, now: int, delay: int)
      modifies this
      ensures jobs == Finished(old(jobs), id, worker, OutcomeOf(result, drain), now, delay)
      ensures |jobs| == |old(jobs)| && forall j :: 0 <= j < |jobs| && j != id ==> jobs[j] == old(jobs)[j]
      ensures Owns(old(jobs), id, worker) && UniqueQueued(old(jobs)) ==>
        LeftAs(old(jobs), id, result, drain, now, delay, jobs[id])
      ensures !Owns(old(jobs), id, worker) ==> jobs == old(jobs)
    {
      hide UniqueQueued, LeftAs, FailPlan, DeferPlan, PlannedRow;
      ResultTouchesOwnRow(jobs, id, worker, OutcomeOf(result, drain), now, delay);
      if Owns(jobs, id, worker) && UniqueQueued(jobs) {
        ResultDecidesRow(jobs, id, worker, result, drain, now, delay);
      }
      match result {
        case NoHandler => var _ := Fail(id, worker, false, now, delay);
        case Returned => var _ := Complete(id, worker, now);
        case RaisedCancelled => var _ := MarkCancelled(id, worker, now);
        case RaisedDeferred =>
          var aborted := Defer(id, worker, now, delay);
          if aborted {
            var _ := Fail(id, worker, true, now, delay);
          }
        case RaisedNonRetryable => var _ := Fail(id, worker, false, now, delay);
        case RaisedOther => var _ := Fail(id, worker, !drain, now, delay);
      }
    }
  }
}
