/** What the job queue promises over every run. */
module JobTheorems {
  import opened Common
  import opened JobQueue
  import opened JobRuns

  // ----- attempts -----------------------------------------------------------------------------

  /** In every reachable state each row's attempts are its claims less its requeuing defers since it was
      last enqueued or retried, and exceed the limit only by the number of times it was reaped since. */
  lemma AttemptsAccounted(steps: seq<Step>, s: System, i: nat)
    requires Run(EMPTY, steps, s) && i < |s.jobs|
    ensures |s.tally| == |s.jobs|
    ensures s.jobs[i].attempts == s.tally[i].claims - s.tally[i].defers
    ensures 0 <= s.jobs[i].attempts <= Limit(s.jobs[i]) + s.tally[i].reaps
    ensures s.jobs[i].lockedBy.Some? <==> s.jobs[i].status == Running
  {
    Reachable(steps, s);
    assert RowInv(s.jobs[i], s.tally[i]);
  }

  /** Exactly when a row is over its limit after a step: it was claimed with no attempt left, or it was over the
      limit before, and neither a retry nor a deferral given back has brought it down. */
  lemma OverTheLimitIff(s: System, step: Step, i: nat)
    requires Inv(s) && Enabled(s, step) && i < |s.jobs|
    ensures |Effect(s, step)| > i && Limit(Effect(s, step)[i]) == Limit(s.jobs[i])
    ensures var limit, before, after := Limit(s.jobs[i]), s.jobs[i], Effect(s, step)[i];
      after.attempts > limit <==>
        || (step.Claim? && step.id == i && before.attempts >= limit)
        || (before.attempts > limit && !(step.Retry? && step.id == i && after != before)
             && !(step.Write? && s.plans[step.worker].GivesBack? && after != before && before.attempts == limit + 1))
    ensures step.Claim? && step.id == i && s.jobs[i].attempts >= Limit(s.jobs[i]) ==> s.tally[i].reaps > 0
  {
    hide UniqueQueued, QueuedWith, HasDuplicate, PlannedRow, HolderInv, PlanInv;
    RowSteps(s, step, i);
    assert RowInv(s.jobs[i], s.tally[i]);
    if step.Write? {
      PlannedRowEnds(s.jobs[i], s.plans[step.worker]);
    }
  }

  /** The reaper's contribution is real: a job limited to one attempt can be claimed twice. */
  lemma ReapingExceedsTheLimit() returns (steps: seq<Step>, s: System)
    ensures Run(EMPTY, steps, s) && |s.jobs| == 1 && s.jobs[0].maxAttempts == 1 && s.jobs[0].attempts == 2
  {
    var s1 := Apply(EMPTY, Enqueue("k", None, 0, 0, 1));
    var s2 := Apply(s1, Claim("w", 0, 0));
    var s3 := Apply(s2, Reap(1));
    assert s3.jobs == ReapAll(s2.jobs, 1);
    var s4 := Apply(s3, Claim("v", 0, 2));
    s := s4;
    steps := [Enqueue("k", None, 0, 0, 1), Claim("w", 0, 0), Reap(1), Claim("v", 0, 2)];
    assert Run(s3, steps[3..], s4) by { assert steps[3..][1..] == []; }
    assert Run(s2, steps[2..], s4) by { assert steps[2..][1..] == steps[3..]; }
    assert Run(s1, steps[1..], s4) by { assert steps[1..][1..] == steps[2..]; }
  }

  // ----- fencing and terminality --------------------------------------------------------------

  /** Whatever a worker whose claim somebody else closed still does about that job, it changes no row. */
  lemma FencedWorkerChangesNothing(s: System, w: string, step: Step)
    requires Inv(s) && w in s.fenced && Enabled(s, step) && IsOwnStep(step, w)
    ensures Effect(s, step) == s.jobs
  {
    assert HolderInv(s, w);
  }

  /** A claim is closed only by its claimant, still unfenced, or by the reaper, which fences the claimant. */
  lemma ClaimClosedByClaimantOrReaper(s: System, step: Step, i: nat, w: string)
    requires Inv(s) && Enabled(s, step) && Owns(s.jobs, i, w)
    ensures |Effect(s, step)| > i
    ensures !Owns(Effect(s, step), i, w) ==>
      || ((step.Finish? || step.Write?) && step.worker == w && s.holding[w] == i && w !in s.fenced)
      || (step.Reap? && Stale(s.jobs[i], step.cutoff)
        && (w in s.holding && s.holding[w] == i ==> w in Apply(s, step).fenced))
  {
    hide UniqueQueued, QueuedWith, HasDuplicate, RowInv, PlanInv, PlannedRow;
    RowSteps(s, step, i);
    assert HolderInv(s, w);
  }

  lemma FencedStays(s: System, step: Step, w: string)
    requires Inv(s) && Enabled(s, step) && w in s.fenced && !(step.Claim? && step.worker == w)
    ensures w in Apply(s, step).holding ==> w in Apply(s, step).fenced
  {
    hide Effect, RowInv, PlanInv, UniqueQueued;
  }

  /** From the moment it is fenced until it claims again, whatever the others do, nothing a worker does about
      the job it lost has any effect, even a write that was decided before. */
  lemma {:induction false} FencedUntilNextClaim(s: System, steps: seq<Step>, s': System, w: string, own: Step)
    requires Inv(s) && Run(s, steps, s') && (w in s.holding ==> w in s.fenced)
    requires forall step :: step in steps ==> !(step.Claim? && step.worker == w)
    requires Enabled(s', own) && IsOwnStep(own, w)
    ensures Effect(s', own) == s'.jobs
    decreases steps
  {
    hide Effect, Apply, RowInv, PlanInv, HolderInv;
    if steps == [] {
      FencedWorkerChangesNothing(s, w, own);
    } else {
      var step := steps[0];
      assert step in steps;
      assert forall x :: x in steps[1..] ==> x in steps;
      StepKeepsInv(s, step);
      if w in s.holding {
        FencedStays(s, step, w);
      } else {
        IdleStays(s, step, w);
      }
      FencedUntilNextClaim(Apply(s, step), steps[1..], s', w, own);
    }
  }

  lemma IdleStays(s: System, step: Step, w: string)
    requires Inv(s) && Enabled(s, step) && w !in s.holding && !(step.Claim? && step.worker == w)
    ensures w !in Apply(s, step).holding
  {
    hide Effect, RowInv, UniqueQueued;
  }

  /** Succeeded and cancelled rows never change again; failed and dead rows change only by a retry of theirs. */
  lemma {:induction false} TerminalRowsAreFinal(s: System, steps: seq<Step>, s': System, i: nat)
    requires Inv(s) && Run(s, steps, s') && i < |s.jobs|
    requires s.jobs[i].status != Queued && s.jobs[i].status != Running
    requires s.jobs[i].status == Failed || s.jobs[i].status == Dead ==>
      forall step :: step in steps ==> !(step.Retry? && step.id == i)
    ensures i < |s'.jobs| && s'.jobs[i] == s.jobs[i]
    decreases steps
  {
    hide Inv;
    if steps != [] {
      assert steps[0] in steps;
      TerminalRowStays(s, steps[0], i);
      StepKeepsInv(s, steps[0]);
      assert forall step :: step in steps[1..] ==> step in steps;
      TerminalRowsAreFinal(Apply(s, steps[0]), steps[1..], s', i);
    }
  }

  lemma TerminalRowStays(s: System, step: Step, i: nat)
    requires Inv(s) && Enabled(s, step) && i < |s.jobs| && s.jobs[i].status != Queued && s.jobs[i].status != Running
    requires s.jobs[i].status == Failed || s.jobs[i].status == Dead ==> !(step.Retry? && step.id == i)
    ensures i < |Effect(s, step)| && Effect(s, step)[i] == s.jobs[i]
  {
    hide UniqueQueued, QueuedWith, HasDuplicate, PlannedRow, RowInv, HolderInv, PlanInv;
    RowSteps(s, step, i);
  }

  // ----- when the index aborts a statement ----------------------------------------------------

  /** The write of a plan leaves the row running exactly when the plan is to requeue it and another row with
      its key is queued by then. */
  lemma WriteTakesEffectIff(t: Table, i: nat, w: string, plan: Plan)
    requires UniqueQueued(t) && Owns(t, i, w)
    ensures Written(t, i, w, plan)[i].status == Running <==>
      (plan.Requeues? || plan.GivesBack?) && t[i].dedupeKey.Some? && QueuedWith(t, t[i].dedupeKey.value, i)
  {
    PlannedRowEnds(t[i], plan);
    var row := PlannedRow(t[i], plan);
    if row.status == Queued {
      UniqueAfterRequeue(t, i, row);
    } else {
      FewerQueued(t, t[i := row]);
    }
  }

  /** With nobody in between, a worker's outcome always takes effect, except that a row with an empty key stays
      running when it should go back to the queue while another row with an empty key waits there. */
  lemma OutcomeTakesEffectIff(t: Table, i: nat, w: string, outcome: Outcome, now: int, delay: int)
    requires UniqueQueued(t) && Owns(t, i, w)
    ensures Finished(t, i, w, outcome, now, delay)[i].status == Running <==>
      && (outcome == Defer || outcome == Fail(true)) && t[i].attempts < t[i].maxAttempts
      && t[i].dedupeKey == Some("") && QueuedWith(t, "", i)
  {
    hide UniqueQueued, QueuedWith, PlannedRow;
    var d, f := DeferPlan(t, i, now, delay), FailPlan(t, i, true, now, delay);
    OnlyRequeueMeetsIndex(t, i, d);
    WriteTakesEffectIff(t, i, w, d);
    WriteTakesEffectIff(t, i, w, f);
    WriteTakesEffectIff(t, i, w, FailPlan(t, i, false, now, delay));
    PlannedRowEnds(t[i], d);
  }

  /** It does happen: a job with an empty key fails while another one waits. */
  lemma EmptyKeyStaysRunning(t: Table)
    requires var job := NewJob("k", Some(""), 0, 0, 5);
      t == [job.(status := Running, lockedBy := Some("w"), attempts := 1), job]
    ensures UniqueQueued(t) && Owns(t, 0, "w") && Finished(t, 0, "w", Fail(true), 0, 0)[0].status == Running
  {
    assert IsQueued(t, 1, "");
    OutcomeTakesEffectIff(t, 0, "w", Fail(true), 0, 0);
  }

  /** A retry is refused exactly when another row with the same key is already queued. */
  lemma RetryTakesEffectIff(t: Table, i: nat, now: int)
    requires UniqueQueued(t) && Retryable(t, i)
    ensures Retried(t, i, now)[i].status == Queued <==>
      !(t[i].dedupeKey.Some? && QueuedWith(t, t[i].dedupeKey.value, i))
  {
    UniqueAfterRequeue(t, i, RetriedRow(t[i], now));
  }

  /** Two stale running rows share a key that no queued row has. */
  ghost predicate StaleTwins(t: Table, cutoff: int, i: int, j: int) {
    && 0 <= i < j < |t| && Stale(t[i], cutoff) && Stale(t[j], cutoff)
    && t[i].dedupeKey.Some? && t[i].dedupeKey == t[j].dedupeKey && !QueuedWith(t, t[i].dedupeKey.value, -1)
  }

  /** The reaper's single statement is aborted, and frees nobody, exactly when there are stale twins. */
  lemma ReapTakesEffectIff(t: Table, cutoff: int)
    requires UniqueQueued(t)
    ensures Reaped(t, cutoff) == ReapAll(t, cutoff) <==> !exists i, j :: StaleTwins(t, cutoff, i, j)
  {
    var all := ReapAll(t, cutoff);
    if i, j :| StaleTwins(t, cutoff, i, j) {
      assert all[i].status == Queued && all[j].status == Queued && all[i].dedupeKey == all[j].dedupeKey;
      assert !UniqueQueued(all);
      assert t[i] != all[i];
    } else {
      forall i, j | 0 <= i < j < |t| && all[i].status == Queued && all[j].status == Queued && all[i].dedupeKey.Some?
        ensures all[i].dedupeKey != all[j].dedupeKey
      {
        if all[i].dedupeKey == all[j].dedupeKey {
          ReapClash(t, cutoff, i, j);
        }
      }
    }
  }

  lemma ReapClash(t: Table, cutoff: int, i: nat, j: nat)
    requires UniqueQueued(t) && i < j < |t| && t[i].dedupeKey.Some? && t[i].dedupeKey == t[j].dedupeKey
    requires ReapedRow(t, i, cutoff).status == Queued && ReapedRow(t, j, cutoff).status == Queued
    ensures StaleTwins(t, cutoff, i, j)
  {
    var key := t[i].dedupeKey.value;
    if Stale(t[i], cutoff) {
      assert !IsQueued(t, j, key);
    } else {
      assert IsQueued(t, i, key);
    }
  }

  // ----- duplicates ---------------------------------------------------------------------------

  ghost predicate Pending(t: Table, key: string) {
    QueuedWith(t, key, -1)
  }

  lemma PendingWitness(t: Table, key: string, j: int)
    requires IsQueued(t, j, key)
    ensures Pending(t, key)
  {
    assert 0 <= j < |t| && j != -1 && IsQueued(t, j, key);
  }

  /** A job is marked as a duplicate only while a queued row with its key is there: the reaper's statement
      leaves one, and a worker plans to drop its job only from a table that has one. */
  lemma DuplicateOnlyWhilePending(s: System, step: Step, i: nat, key: string)
    requires Inv(s) && Enabled(s, step) && i < |s.jobs| && s.jobs[i].dedupeKey == Some(key)
    ensures step.Reap? && s.jobs[i].status == Running && |Effect(s, step)| > i ==>
      Effect(s, step)[i].status == Cancelled ==> Pending(Effect(s, step), key)
    ensures step.Read? && s.holding[step.worker] == i && Plans(s, step)[step.worker].Drops? ==> Pending(s.jobs, key)
  {
    hide RowInv, HolderInv, PlanInv;
    if step.Reap? {
      if s.jobs[i].status == Running && |Effect(s, step)| > i && Effect(s, step)[i].status == Cancelled {
        ReapKeepsPending(s.jobs, step.cutoff, i, key);
      }
    }
  }

  /** The step takes a queued row with the key out of the queue. */
  ghost predicate TakesOut(s: System, step: Step, key: string) {
    (step.Claim? && IsQueued(s.jobs, step.id, key)) || (step.CancelRequest? && IsQueued(s.jobs, step.id, key))
  }

  ghost predicate SomeStale(t: Table, cutoff: int, key: string) {
    exists i :: 0 <= i < |t| && Stale(t[i], cutoff) && t[i].dedupeKey == Some(key)
  }

  /** The step puts a row with the key into a queue that has none. */
  ghost predicate PutsIn(s: System, step: Step, key: string)
    requires Enabled(s, step)
  {
    match step
    case Enqueue(_, k, _, _, _) => k == Some(key)
    case Retry(i, _) => Retryable(s.jobs, i) && s.jobs[i].dedupeKey == Some(key)
    case Reap(cutoff) => SomeStale(s.jobs, cutoff, key) && !exists i, j :: StaleTwins(s.jobs, cutoff, i, j)
    case Write(w) =>
      Owns(s.jobs, s.holding[w], w) && s.jobs[s.holding[w]].dedupeKey == Some(key)
        && (s.plans[w].Requeues? || s.plans[w].GivesBack?)
    case _ => false
  }

  /** A pending key stops being pending exactly when its queued row is claimed or cancelled by a user. */
  lemma PendingGoesIff(s: System, step: Step, key: string)
    requires Inv(s) && Enabled(s, step) && Pending(s.jobs, key)
    ensures Pending(Effect(s, step), key) <==> !TakesOut(s, step, key)
  {
    hide HasDuplicate, PlannedRow, RowInv, HolderInv, PlanInv;
    if !TakesOut(s, step, key) {
      PendingStays(s, step, key);
    } else {
      OnlyQueued(s.jobs, step.id, key);
      var after := Effect(s, step);
      assert forall j :: 0 <= j < |s.jobs| && j != step.id ==> after[j] == s.jobs[j];
      assert !IsQueued(after, step.id, key);
    }
  }

  lemma OnlyQueued(t: Table, i: nat, key: string)
    requires UniqueQueued(t) && IsQueued(t, i, key)
    ensures forall j :: j != i ==> !IsQueued(t, j, key)
  {
  }

  /** A key that is not pending becomes so exactly when it is enqueued, or a row with it is retried, requeued or
      given back by its worker, or freed by the reaper. */
  lemma PendingComesIff(s: System, step: Step, key: string)
    requires Inv(s) && Enabled(s, step) && !Pending(s.jobs, key)
    ensures Pending(Effect(s, step), key) <==> PutsIn(s, step, key)
  {
    hide UniqueQueued, HasDuplicate, QueuedWith, PlannedRow, RowInv, HolderInv, PlanInv, Reaped, StaleTwins;
    NobodyQueued(s.jobs, key);
    match step {
      case Enqueue(kind, k, runAfter, priority, maxAttempts) => EnqueuePends(
        s.jobs, NewJob(kind, k, runAfter, priority, maxAttempts), key);
      case Retry(i, now) => RetryPends(s.jobs, i, now, key);
      case Reap(cutoff) => ReapPends(s.jobs, cutoff, key);
      case Write(w) => WritePends(s.jobs, s.holding[w], w, s.plans[w], key);
      case _ =>
        assert |Effect(s, step)| == |s.jobs|;
        forall j ensures !IsQueued(Effect(s, step), j, key) {
          assert !IsQueued(s.jobs, j, key);
          if 0 <= j < |s.jobs| {
            RowSteps(s, step, j);
          }
        }
        NoWitness(Effect(s, step), key);
    }
  }

  lemma NobodyQueued(t: Table, key: string)
    requires !Pending(t, key)
    ensures forall j :: !IsQueued(t, j, key)
    ensures forall except :: !QueuedWith(t, key, except)
  {
    forall j ensures !IsQueued(t, j, key) {
      if IsQueued(t, j, key) {
        PendingWitness(t, key, j);
      }
    }
  }

  lemma NoWitness(t: Table, key: string)
    requires forall j :: !IsQueued(t, j, key)
    ensures !Pending(t, key)
  {
  }

  lemma EnqueuePends(t: Table, job: Job, key: string)
    requires (forall j :: !IsQueued(t, j, key)) && !Pending(t, key) && job.status == Queued
    ensures Pending(Enqueued(t, job), key) <==> job.dedupeKey == Some(key)
  {
    hide Pending, QueuedWith;
    var after := Enqueued(t, job);
    if job.dedupeKey == Some(key) {
      assert !QueuedWith(t, key, -1) by { NobodyQueued(t, key); }
      PendingWitness(after, key, |t|);
    } else {
      assert forall j :: 0 <= j < |t| ==> after[j] == t[j];
      forall j ensures !IsQueued(after, j, key) {
        assert !IsQueued(t, j, key);
      }
      NoWitness(after, key);
    }
  }

  /** Putting one row back makes its own key pending and no other. */
  lemma OneRowPends(t: Table, i: nat, row: Job, key: string)
    requires UniqueQueued(t) && i < |t| && t[i].status != Queued && row.dedupeKey == t[i].dedupeKey && !Pending(t, key)
    ensures Pending(Guarded(t, t[i := row]), key) <==> row.status == Queued && row.dedupeKey == Some(key)
  {
    hide UniqueQueued, QueuedWith, Pending;
    NobodyQueued(t, key);
    var after := Guarded(t, t[i := row]);
    if row.status == Queued && row.dedupeKey == Some(key) {
      UniqueAfterRequeue(t, i, row);
      PendingWitness(after, key, i);
    } else {
      forall j ensures !IsQueued(after, j, key) {
        assert !IsQueued(t, j, key);
      }
      NoWitness(after, key);
    }
  }

  lemma RetryPends(t: Table, i: nat, now: int, key: string)
    requires UniqueQueued(t) && !Pending(t, key)
    ensures Pending(Retried(t, i, now), key) <==> Retryable(t, i) && t[i].dedupeKey == Some(key)
  {
    hide UniqueQueued, Pending, Guarded;
    if Retryable(t, i) {
      OneRowPends(t, i, RetriedRow(t[i], now), key);
    }
  }

  lemma WritePends(t: Table, i: nat, w: string, plan: Plan, key: string)
    requires UniqueQueued(t) && !Pending(t, key)
    ensures Pending(Written(t, i, w, plan), key) <==>
      Owns(t, i, w) && t[i].dedupeKey == Some(key) && (plan.Requeues? || plan.GivesBack?)
  {
    hide UniqueQueued, Pending, Guarded, PlannedRow;
    if Owns(t, i, w) {
      PlannedRowEnds(t[i], plan);
      OneRowPends(t, i, PlannedRow(t[i], plan), key);
    }
  }

  lemma ReapPends(t: Table, cutoff: int, key: string)
    requires UniqueQueued(t) && !Pending(t, key)
    ensures Pending(Reaped(t, cutoff), key) <==>
      SomeStale(t, cutoff, key) && !exists i, j :: StaleTwins(t, cutoff, i, j)
  {
    hide UniqueQueued, Pending, QueuedWith, StaleTwins;
    NobodyQueued(t, key);
    ReapTakesEffectIff(t, cutoff);
    if Reaped(t, cutoff) == ReapAll(t, cutoff) {
      var after := ReapAll(t, cutoff);
      if SomeStale(t, cutoff, key) {
        var i :| 0 <= i < |t| && Stale(t[i], cutoff) && t[i].dedupeKey == Some(key);
        PendingWitness(after, key, i);
      } else {
        forall j ensures !IsQueued(after, j, key) {
          assert !IsQueued(t, j, key);
        }
        NoWitness(after, key);
      }
    }
  }

  /** Whether the key is pending after `steps`, told by who put rows in and took them out. */
  ghost predicate StillPending(s: System, steps: seq<Step>, key: string, pending: bool)
    decreases steps
  {
    if steps == [] || |s.tally| != |s.jobs| || !Enabled(s, steps[0]) then pending
    else StillPending(Apply(s, steps[0]), steps[1..], key, if pending then !TakesOut(s, steps[0], key)
      else PutsIn(s, steps[0], key))
  }

  /** A key is pending at the end of a run exactly when it was put in and not taken out since, or was pending at
      the start and never taken out. */
  lemma {:induction false} PendingAfterIff(s: System, steps: seq<Step>, s': System, key: string)
    requires Inv(s) && Run(s, steps, s')
    ensures Pending(s'.jobs, key) <==> StillPending(s, steps, key, Pending(s.jobs, key))
    decreases steps
  {
    hide Inv, Pending, TakesOut, PutsIn, Effect;
    if steps != [] {
      if Pending(s.jobs, key) {
        PendingGoesIff(s, steps[0], key);
      } else {
        PendingComesIff(s, steps[0], key);
      }
      TableOf(s, steps[0]);
      StepKeepsInv(s, steps[0]);
      PendingAfterIff(Apply(s, steps[0]), steps[1..], s', key);
    }
  }

  /** Dropping a job leaves a queued row with a key exactly when there is one just before the write. */
  lemma DropLeavesPendingIff(s: System, w: string, key: string)
    requires Inv(s) && Enabled(s, Write(w)) && s.plans[w].Drops?
    ensures Pending(Effect(s, Write(w)), key) <==> Pending(s.jobs, key)
  {
    hide Inv, Pending, Effect;
    if Pending(s.jobs, key) {
      PendingGoesIff(s, Write(w), key);
    } else {
      PendingComesIff(s, Write(w), key);
    }
  }

  /** From the read to the write: a job dropped as a duplicate leaves a queued row with its key exactly when
      the duplicate that was read has not been claimed or cancelled since, or another row has come in its place. */
  lemma DroppedWhilePendingIff(s: System, read: Step, steps: seq<Step>, s': System, i: nat, key: string)
    requires Inv(s) && Enabled(s, read) && read.Read? && s.holding[read.worker] == i && i < |s.jobs|
      && s.jobs[i].dedupeKey == Some(key)
    requires Plans(s, read)[read.worker].Drops? && Run(Apply(s, read), steps, s')
    requires Enabled(s', Write(read.worker)) && s'.plans[read.worker].Drops?
    ensures Pending(Effect(s', Write(read.worker)), key) <==> StillPending(Apply(s, read), steps, key, true)
  {
    hide Apply, RowInv, HolderInv, PlanInv, StillPending, QueuedWith, UniqueQueued;
    DuplicateOnlyWhilePending(s, read, i, key);
    StepKeepsInv(s, read);
    ReadLeavesTable(s, read);
    PendingAfterIff(Apply(s, read), steps, s', key);
    RunKeepsInv(Apply(s, read), steps, s');
    DropLeavesPendingIff(s', read.worker, key);
  }

  lemma ReadLeavesTable(s: System, read: Step)
    requires Inv(s) && Enabled(s, read) && read.Read?
    ensures Apply(s, read).jobs == s.jobs
  {
    hide RowInv, HolderInv, PlanInv;
  }

  // A run in which the duplicate is claimed before the job is dropped for it, state by state.

  const WAITING := NewJob("j", Some("k"), 0, 0, 5)
  const ONCE := Tally(1, 0, 0)
  const NEVER := Tally(0, 0, 0)

  function HeldBy(w: string): Job {
    WAITING.(status := Running, lockedBy := Some(w), heartbeatAt := Some(0), attempts := 1)
  }

  const S1 := System([WAITING], map[], map[], {}, [NEVER])
  const S2 := System([HeldBy("w")], map["w" := 0], map[], {}, [ONCE])
  const S3 := System([HeldBy("w"), WAITING], map["w" := 0], map[], {}, [ONCE, NEVER])
  const S4 := System([HeldBy("w"), WAITING], map["w" := 0], map["w" := Drops(0)], {}, [ONCE, NEVER])
  const S5 := System([HeldBy("w"), HeldBy("v")], map["w" := 0, "v" := 1], map["w" := Drops(0)], {}, [ONCE, ONCE])

  const E := Enqueue("j", Some("k"), 0, 0, 5)

  lemma FirstStep()
    ensures Enabled(EMPTY, E) && Apply(EMPTY, E) == S1
  {
    assert !QueuedWith([], "k", -1);
    assert Effect(EMPTY, E) == [WAITING];
  }

  lemma SecondStep()
    ensures Enabled(S1, Claim("w", 0, 0)) && Apply(S1, Claim("w", 0, 0)) == S2
  {
    assert Effect(S1, Claim("w", 0, 0)) == [HeldBy("w")];
  }

  lemma ThirdStep()
    ensures Enabled(S2, E) && Apply(S2, E) == S3
  {
    assert !QueuedWith(S2.jobs, "k", -1);
    assert Effect(S2, E) == [HeldBy("w"), WAITING];
  }

  lemma FourthStep()
    ensures Enabled(S3, Read("w", Fail(true), 0, 0)) && Apply(S3, Read("w", Fail(true), 0, 0)) == S4
  {
    var t := S3.jobs;
    assert "k" != "" && 0 <= 1 < |t| && 1 != 0 && IsQueued(t, 1, "k");
    assert FailPlan(t, 0, true, 0, 0) == Drops(0);
  }

  lemma FifthStep()
    ensures Enabled(S4, Claim("v", 1, 0)) && Apply(S4, Claim("v", 1, 0)) == S5
  {
    assert "v"[0] != "w"[0];
    assert Effect(S4, Claim("v", 1, 0)) == [HeldBy("w"), HeldBy("v")];
  }

  /** Otherwise it need not be: the duplicate that was seen can be claimed before the job is dropped for it. */
  lemma DroppedAfterTheDuplicateWasClaimed(steps: seq<Step>)
    requires steps == [E, Claim("w", 0, 0), E, Read("w", Fail(true), 0, 0), Claim("v", 1, 0)]
    ensures Run(EMPTY, steps, S5) && Enabled(S5, Write("w"))
    ensures S5.jobs[0].dedupeKey == Some("k") && Effect(S5, Write("w"))[0].status == Cancelled
      && !Pending(Effect(S5, Write("w")), "k")
  {
    hide Apply, Enabled, Effect;
    FirstStep();
    SecondStep();
    ThirdStep();
    FourthStep();
    FifthStep();
    assert steps[4..][1..] == [] && steps[3..][1..] == steps[4..] && steps[2..][1..] == steps[3..]
      && steps[1..][1..] == steps[2..];
    assert Run(S5, [], S5) && Run(S4, steps[4..], S5);
    assert Run(S3, steps[3..], S5);
    assert Run(S2, steps[2..], S5);
    assert Run(S1, steps[1..], S5);
    LastStep();
  }

  lemma LastStep()
    ensures Enabled(S5, Write("w")) && Effect(S5, Write("w"))[0].status == Cancelled
      && !Pending(Effect(S5, Write("w")), "k")
  {
    var after := S5.jobs[0 := PlannedRow(S5.jobs[0], Drops(0))];
    assert UniqueQueued(after);
    assert Effect(S5, Write("w")) == after;
  }

  lemma ReapKeepsPending(t: Table, cutoff: int, i: nat, key: string)
    requires UniqueQueued(t) && i < |t| && t[i].status == Running && t[i].dedupeKey == Some(key)
    requires Reaped(t, cutoff)[i].status != Running
    ensures Pending(Reaped(t, cutoff), key)
  {
    var after := Reaped(t, cutoff);
    assert after == ReapAll(t, cutoff);
    if QueuedWith(t, key, i) {
      var j :| 0 <= j < |t| && j != i && IsQueued(t, j, key);
      assert after[j] == t[j];
      PendingWitness(after, key, j);
    } else {
      PendingWitness(after, key, i);
    }
  }

  // ----- no work is lost ----------------------------------------------------------------------

  /** A queued row leaves the queue only by being claimed or cancelled by a user. */
  lemma PendingStays(s: System, step: Step, key: string)
    requires Inv(s) && Enabled(s, step) && Pending(s.jobs, key)
    requires !(step.Claim? && IsQueued(s.jobs, step.id, key))
      && !(step.CancelRequest? && IsQueued(s.jobs, step.id, key))
    ensures Pending(Effect(s, step), key)
  {
    var j :| 0 <= j < |s.jobs| && j != -1 && IsQueued(s.jobs, j, key);
    hide UniqueQueued, HasDuplicate, PlannedRow, RowInv, HolderInv, PlanInv;
    RowSteps(s, step, j);
    PendingWitness(Effect(s, step), key, j);
  }

  lemma EnqueueMakesPending(s: System, kind: string, key: string, runAfter: int, priority: int, maxAttempts: int)
    requires Inv(s)
    ensures Pending(Effect(s, Enqueue(kind, Some(key), runAfter, priority, maxAttempts)), key)
  {
    var after := Effect(s, Enqueue(kind, Some(key), runAfter, priority, maxAttempts));
    if !QueuedWith(s.jobs, key, -1) {
      PendingWitness(after, key, |s.jobs|);
    }
  }

  ghost predicate Untouched(s: System, steps: seq<Step>, key: string)
    decreases steps
  {
    steps != [] && |s.tally| == |s.jobs| && Enabled(s, steps[0]) ==>
      && !(steps[0].Claim? && IsQueued(s.jobs, steps[0].id, key))
      && !(steps[0].CancelRequest? && IsQueued(s.jobs, steps[0].id, key))
      && Untouched(Apply(s, steps[0]), steps[1..], key)
  }

  /** After an enqueue of a key, a row with that key stays queued through any run in which no row
      with that key is claimed or cancelled by a user. */
  lemma {:induction false} PendingUntilClaimedOrCancelled(s: System, steps: seq<Step>, s': System, key: string)
    requires Inv(s) && Run(s, steps, s') && Pending(s.jobs, key) && Untouched(s, steps, key)
    ensures Pending(s'.jobs, key)
    decreases steps
  {
    hide Inv;
    if steps != [] {
      PendingStays(s, steps[0], key);
      StepKeepsInv(s, steps[0]);
      PendingUntilClaimedOrCancelled(Apply(s, steps[0]), steps[1..], s', key);
    }
  }

  /** Bookkeeping since an enqueue of `key`: `running` are the rows with that key claimed since and still
      running under that claim; `settled` says that one of those ended for good, or a user cancelled one. */
  datatype Watch = Watch(running: set<nat>, settled: bool)

  ghost function Observe(s: System, step: Step, key: string, m: Watch): Watch
    requires Enabled(s, step)
  {
    match step
    case Claim(_, i, _) => if s.jobs[i].dedupeKey == Some(key) then m.(running := m.running + {i}) else m
    case Finish(w, _, _) => if Ends(s, step, m) then Watch(m.running - {s.holding[w]}, true) else m
    case Write(w) =>
      if Ends(s, step, m) then Watch(m.running - {s.holding[w]}, m.settled || s.plans[w].Fails? || s.plans[w].Dies?)
        else m
    case Reap(_) => m.(running := set i | i in m.running && i < |Effect(s, step)|
      && Effect(s, step)[i].status == Running)
    case CancelRequest(i, _) => m.(settled := m.settled || IsQueued(s.jobs, i, key))
    case _ => m
  }

  /** The step ends one of the watched runs. */
  ghost predicate Ends(s: System, step: Step, m: Watch)
    requires Enabled(s, step) && (step.Finish? || step.Write?)
  {
    var i := s.holding[step.worker];
    i in m.running && i < |s.jobs| && i < |Effect(s, step)| && Effect(s, step)[i].status != Running
  }

  /** The run of row `i` is going to be dropped as a duplicate: its worker has read, but not yet written. */
  ghost predicate Doomed(s: System, i: nat) {
    exists w :: w in s.plans && w in s.holding && s.holding[w] == i && s.plans[w].Drops? && Owns(s.jobs, i, w)
  }

  ghost predicate Alive(s: System, m: Watch, i: nat) {
    i in m.running && !Doomed(s, i)
  }

  ghost predicate Watched(s: System, key: string, m: Watch) {
    forall i :: i in m.running ==> i < |s.jobs| && s.jobs[i].status == Running && s.jobs[i].dedupeKey == Some(key)
  }

  /** The key's work is settled, or pending, or running in a row that is not about to be dropped. */
  ghost predicate Covered(s: System, key: string, m: Watch) {
    Watched(s, key, m) && (m.settled || Pending(s.jobs, key) || exists i :: Alive(s, m, i))
  }

  ghost function Observed(s: System, steps: seq<Step>, key: string, m: Watch): Watch
    decreases steps
  {
    if steps == [] || |s.tally| != |s.jobs| || !Enabled(s, steps[0]) then m
    else Observed(Apply(s, steps[0]), steps[1..], key, Observe(s, steps[0], key, m))
  }

  lemma WatchedStays(s: System, step: Step, key: string, m: Watch)
    requires Inv(s) && Enabled(s, step) && Watched(s, key, m)
    ensures Watched(Apply(s, step), key, Observe(s, step, key, m))
  {
    hide UniqueQueued, HasDuplicate, QueuedWith, RowInv, HolderInv, PlanInv, PlannedRow;
    var m' := Observe(s, step, key, m);
    forall i | i in m'.running
      ensures i < |Effect(s, step)| && Effect(s, step)[i].status == Running
      && Effect(s, step)[i].dedupeKey == Some(key) {
      if i in m.running {
        RowSteps(s, step, i);
        if step.Write? {
          PlannedRowEnds(s.jobs[i], s.plans[step.worker]);
        }
      }
    }
  }

  /** A run that is not doomed and does not end stays so, unless its worker now reads a duplicate. */
  lemma AliveStays(s: System, step: Step, key: string, m: Watch, i: nat)
    requires Inv(s) && Enabled(s, step) && Watched(s, key, m) && Alive(s, m, i) && i in Observe(s, step, key, m).running
    requires step.Read? ==> s.holding[step.worker] != i || !Plans(s, step)[step.worker].Drops?
    ensures Alive(Apply(s, step), Observe(s, step, key, m), i)
  {
    hide UniqueQueued, HasDuplicate, QueuedWith, RowInv, PlannedRow;
    RowSteps(s, step, i);
    var s' := Apply(s, step);
    forall w | w in s'.plans && w in s'.holding && s'.holding[w] == i && s'.plans[w].Drops?
      ensures !Owns(s'.jobs, i, w) {
      assert PlanInv(s, w) && HolderInv(s, w);
      if step.Write? {
        PlannedRowEnds(s.jobs[i], s.plans[step.worker]);
      }
      if w in s.plans {
        assert s'.plans[w] == s.plans[w];
      }
    }
  }

  lemma ReadStaysCovered(s: System, step: Step, key: string, m: Watch)
    requires Inv(s) && Enabled(s, step) && Covered(s, key, m) && step.Read?
    ensures Covered(Apply(s, step), key, m)
  {
    hide Inv, Apply, Doomed, Plans;
    WatchedStays(s, step, key, m);
    ReadLeavesTable(s, step);
    if !m.settled && !Pending(s.jobs, key) {
      var i :| Alive(s, m, i);
      DuplicateOnlyWhilePending(s, step, i, key);
      AliveStays(s, step, key, m, i);
    }
  }

  lemma OutcomeStaysCovered(s: System, step: Step, key: string, m: Watch)
    requires Inv(s) && Enabled(s, step) && Covered(s, key, m) && (step.Finish? || step.Write?)
    ensures Covered(Apply(s, step), key, Observe(s, step, key, m))
  {
    hide Inv, Apply, Doomed, Effect;
    var m' := Observe(s, step, key, m);
    WatchedStays(s, step, key, m);
    if Pending(s.jobs, key) {
      PendingStays(s, step, key);
      TableOf(s, step);
    } else if !m'.settled {
      var i :| Alive(s, m, i);
      if i in m'.running {
        AliveStays(s, step, key, m, i);
      } else {
        GoesBack(s, step, key, m, i);
        TableOf(s, step);
      }
    }
  }

  lemma TableOf(s: System, step: Step)
    requires Inv(s) && Enabled(s, step)
    ensures Apply(s, step).jobs == Effect(s, step)
  {
  }

  /** A run that ends without settling the work, and was not doomed, goes back to the queue. */
  lemma GoesBack(s: System, step: Step, key: string, m: Watch, i: nat)
    requires Inv(s) && Enabled(s, step) && (step.Finish? || step.Write?) && Watched(s, key, m) && Alive(s, m, i)
    requires i !in Observe(s, step, key, m).running && !Observe(s, step, key, m).settled
    ensures Pending(Effect(s, step), key)
  {
    hide UniqueQueued, HasDuplicate, QueuedWith, RowInv, PlannedRow, Pending;
    var w := step.worker;
    RowSteps(s, step, i);
    PlannedRowEnds(s.jobs[i], s.plans[w]);
    assert Owns(s.jobs, i, w);
    assert !s.plans[w].Drops?;
    PendingWitness(Effect(s, step), key, i);
  }

  lemma ReapStaysCovered(s: System, step: Step, key: string, m: Watch)
    requires Inv(s) && Enabled(s, step) && Covered(s, key, m) && step.Reap?
    ensures Covered(Apply(s, step), key, Observe(s, step, key, m))
  {
    hide Inv, Apply, Doomed;
    var m' := Observe(s, step, key, m);
    WatchedStays(s, step, key, m);
    TableOf(s, step);
    if Pending(s.jobs, key) {
      PendingStays(s, step, key);
    } else if !m'.settled {
      var i :| Alive(s, m, i);
      if i in m'.running {
        AliveStays(s, step, key, m, i);
      } else {
        ReapedRowLeaves(s, step, m, key, i);
        ReapKeepsPending(s.jobs, step.cutoff, i, key);
      }
    }
  }

  lemma ReapedRowLeaves(s: System, step: Step, m: Watch, key: string, i: nat)
    requires Inv(s) && Enabled(s, step) && step.Reap? && Watched(s, key, m) && i in m.running
      && i !in Observe(s, step, key, m).running
    ensures i < |Reaped(s.jobs, step.cutoff)| && Reaped(s.jobs, step.cutoff)[i].status != Running
      && UniqueQueued(s.jobs)
  {
    hide UniqueQueued, QueuedWith, RowInv, HolderInv, PlanInv;
    RowSteps(s, step, i);
  }

  lemma ClaimStaysCovered(s: System, step: Step, key: string, m: Watch)
    requires Inv(s) && Enabled(s, step) && Covered(s, key, m) && step.Claim? && s.jobs[step.id].dedupeKey == Some(key)
    ensures Covered(Apply(s, step), key, Observe(s, step, key, m))
  {
    hide UniqueQueued, QueuedWith, RowInv, HolderInv;
    WatchedStays(s, step, key, m);
    var s', i, w := Apply(s, step), step.id, step.worker;
    assert PlanInv(s, w);
    assert w !in s'.plans && s'.jobs[i].lockedBy == Some(w);
    assert !Doomed(s', i);
    assert Alive(s', Observe(s, step, key, m), i);
  }

  lemma StaysCovered(s: System, step: Step, key: string, m: Watch)
    requires Inv(s) && Enabled(s, step) && Covered(s, key, m)
    ensures Covered(Apply(s, step), key, Observe(s, step, key, m))
  {
    hide Inv, Apply, Doomed, Effect;
    var m' := Observe(s, step, key, m);
    if step.Finish? || step.Write? {
      OutcomeStaysCovered(s, step, key, m);
    } else if step.Reap? {
      ReapStaysCovered(s, step, key, m);
    } else if step.Read? {
      ReadStaysCovered(s, step, key, m);
    } else if step.Claim? && s.jobs[step.id].dedupeKey == Some(key) {
      ClaimStaysCovered(s, step, key, m);
    } else {
      WatchedStays(s, step, key, m);
      TableOf(s, step);
      if Pending(s.jobs, key) {
        if !m'.settled {
          PendingStays(s, step, key);
        }
      } else if !m'.settled {
        var i :| Alive(s, m, i);
        AliveStays(s, step, key, m, i);
      }
    }
  }

  /** No lost work: after an enqueue of a key, at every later point of every run either a row with that key is
      queued, or one claimed after the enqueue is running and not about to be dropped, or one claimed after the
      enqueue has ended for good (or a user cancelled it). Duplicates dropped on the way never break this, not
      even when the duplicate that was seen has been claimed in between. */
  lemma {:induction false} WorkIsNeverLost(s: System, steps: seq<Step>, s': System, key: string, m: Watch)
    requires Inv(s) && Run(s, steps, s') && Covered(s, key, m)
    ensures Covered(s', key, Observed(s, steps, key, m))
    decreases steps
  {
    hide Inv, Covered, Observe;
    if steps != [] {
      StaysCovered(s, steps[0], key, m);
      StepKeepsInv(s, steps[0]);
      WorkIsNeverLost(Apply(s, steps[0]), steps[1..], s', key, Observe(s, steps[0], key, m));
    }
  }

  lemma WorkEnqueuedIsNeverLost(s: System, kind: string, key: string, runAfter: int, priority: int, maxAttempts: int,
                                steps: seq<Step>, s': System)
    requires Inv(s) && Run(Apply(s, Enqueue(kind, Some(key), runAfter, priority, maxAttempts)), steps, s')
    ensures var s0 := Apply(s, Enqueue(kind, Some(key), runAfter, priority, maxAttempts));
            Covered(s', key, Observed(s0, steps, key, Watch({}, false)))
  {
    var step := Enqueue(kind, Some(key), runAfter, priority, maxAttempts);
    EnqueueMakesPending(s, kind, key, runAfter, priority, maxAttempts);
    StepKeepsInv(s, step);
    hide Inv, Run;
    TableOf(s, step);
    WorkIsNeverLost(Apply(s, step), steps, s', key, Watch({}, false));
  }
}
