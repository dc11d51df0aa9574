/** What each statement of the job table does to the rows, in the words of its SQL (app/jobs/queue.py:26-55,
    345-409, app/jobs/worker.py:226). */
module JobMeaning {
  import opened Common
  import opened JobQueue

  /** Waiting, of a kind that is asked for, and due now, or the queue is being drained. */
  ghost predicate Eligible(t: Table, i: int, now: int, drain: bool, kinds: seq<string>) {
    && 0 <= i < |t| && t[i].status == Queued
    && (t[i].runAfter <= now || drain)
    && (|kinds| > 0 ==> t[i].kind in kinds)
  }

  /** The first is served before the second: it has a higher priority; or the same, and was due earlier; or the
      same of both, and came first. */
  ghost predicate Sooner(t: Table, i: int, j: int)
    requires 0 <= i < |t| && 0 <= j < |t|
  {
    if t[i].priority != t[j].priority then t[i].priority > t[j].priority
    else if t[i].runAfter != t[j].runAfter then t[i].runAfter < t[j].runAfter
    else i < j
  }

  /** The row a worker claims is eligible, and is served before every other eligible one. */
  lemma NextMeans(t: Table, i: int, now: int, drain: bool, kinds: seq<string>)
    ensures IsNext(t, i, now, drain, kinds) <==>
      Eligible(t, i, now, drain, kinds) && forall j :: Eligible(t, j, now, drain, kinds) && j != i ==> Sooner(t, i, j)
    ensures (forall j :: 0 <= j < |t| ==> !Due(t[j], now, drain, kinds)) <==>
      !exists j :: Eligible(t, j, now, drain, kinds)
  {
    forall j | 0 <= j < |t| ensures Due(t[j], now, drain, kinds) <==> Eligible(t, j, now, drain, kinds) {
    }
    if IsNext(t, i, now, drain, kinds) {
      forall j | Eligible(t, j, now, drain, kinds) && j != i ensures Sooner(t, i, j) {
        assert Due(t[j], now, drain, kinds) && Precedes(t, i, j);
      }
    }
    if Eligible(t, i, now, drain, kinds)
      && forall j :: Eligible(t, j, now, drain, kinds) && j != i ==> Sooner(t, i, j) {
      forall j | 0 <= j < |t| && Due(t[j], now, drain, kinds) ensures Precedes(t, i, j) {
        assert Eligible(t, j, now, drain, kinds);
      }
    }
  }

  /** Being claimed marks the row and counts an attempt. */
  lemma ClaimMeans(t: Table, i: nat, worker: string, now: int)
    requires i < |t|
    ensures var a, after := t[i], Claimed(t, i, worker, now);
      after == t[i := Job(a.kind, a.priority, a.runAfter, Running, a.attempts + 1, a.maxAttempts, a.dedupeKey,
        Some(worker), Some(now), a.finishedAt, a.cancelAsked)]
  {
  }

  /** A key that waits is not enqueued again; anything else is, as a fresh row at the end. */
  lemma EnqueueMeans(t: Table, kind: string, key: Option<string>, runAfter: int, priority: int, maxAttempts: int)
    ensures var after := Enqueued(t, NewJob(kind, key, runAfter, priority, maxAttempts));
      if key.Some? && exists j :: 0 <= j < |t| && t[j].status == Queued && t[j].dedupeKey == key then after == t
      else after == t + [Job(kind, priority, runAfter, Queued, 0, maxAttempts, key, None, None, None, false)]
  {
    if key.Some? {
      if QueuedWith(t, key.value, -1) {
        var j :| 0 <= j < |t| && j != -1 && IsQueued(t, j, key.value);
        assert t[j].status == Queued && t[j].dedupeKey == key;
      }
      if j :| 0 <= j < |t| && t[j].status == Queued && t[j].dedupeKey == key {
        assert IsQueued(t, j, key.value);
      }
    }
  }

  /** The reaper frees exactly the running rows without a heartbeat since the cutoff: back to the queue, or dropped
      where a duplicate waits. */
  lemma ReapMeans(t: Table, cutoff: int, i: nat)
    requires i < |t|
    ensures |ReapAll(t, cutoff)| == |t|
    ensures var a, b := t[i], ReapAll(t, cutoff)[i];
      if a.status == Running && (a.heartbeatAt.Some? ==> a.heartbeatAt.value < cutoff) then
        b == a.(status := if DuplicateWaits(t, i) then Cancelled else Queued, lockedBy := None, heartbeatAt := None)
      else b == a
  {
    WaitsIsQueued(t, i);
  }

  /** A user's cancelling ends a waiting job, asks a running one to stop, and does nothing to any other. */
  lemma CancelMeans(t: Table, i: nat, now: int)
    requires i < |t|
    ensures var a := t[i];
      CancelRequested(t, i, now) ==
        if a.status == Queued then t[i := a.(status := Cancelled, finishedAt := Some(now))]
        else if a.status == Running then t[i := a.(cancelAsked := true)]
        else t
  {
    assert t[i := t[i]] == t;
  }

  /** A retry puts a failed or dead job back in the queue as if it were new, and due at once. */
  lemma RetryMeans(t: Table, i: nat, now: int)
    requires UniqueQueued(t) && i < |t|
    ensures var a := t[i];
      if (a.status == Failed || a.status == Dead) && !DuplicateWaits(t, i) then
        Retried(t, i, now) == t[i :=
          Job(a.kind, a.priority, now, Queued, 0, a.maxAttempts, a.dedupeKey, None, a.heartbeatAt, None, a.cancelAsked)]
      else Retried(t, i, now) == t
  {
    hide UniqueQueued, QueuedWith;
    WaitsIsQueued(t, i);
    if Retryable(t, i) {
      UniqueAfterRequeue(t, i, RetriedRow(t[i], now));
    }
  }

  /** A worker's heartbeat marks the rows it is running, and no others. */
  lemma BeatMeans(t: Table, worker: string, now: int, i: nat)
    requires i < |t|
    ensures |Beaten(t, worker, now)| == |t|
    ensures Beaten(t, worker, now)[i] ==
      if t[i].status == Running && t[i].lockedBy == Some(worker) then t[i].(heartbeatAt := Some(now)) else t[i]
  {
  }
}
