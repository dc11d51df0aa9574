/** Every interleaving of workers, the reaper, the heartbeat thread and users over the job table. A worker
    that fails or defers a job reads in one statement and writes in another; anything may come between. */
module JobRuns {
  import opened Common
  import opened JobQueue

  /** What happened to a row since it was last enqueued or retried. */
  datatype Tally = Tally(claims: nat, defers: nat, reaps: nat)

  /** `holding` is the job each busy worker believes it runs; `plans` what a worker has read and decided but
      not yet written; `fenced` the busy workers whose claim somebody else has closed; `tally` the history of
      each row. Only `jobs` is stored by the program. */
  datatype System = System(
      jobs: Table, holding: map<string, nat>, plans: map<string, Plan>, fenced: set<string>, tally: seq<Tally>)

  datatype Step =
    | Enqueue(kind: string, key: Option<string>, runAfter: int, priority: int, maxAttempts: int)
    | Claim(worker: string, id: nat, now: int)
    | Finish(worker: string, outcome: Outcome, now: int)
    | Read(worker: string, outcome: Outcome, now: int, delay: int)
    | Write(worker: string)
    | Reap(cutoff: int)
    | CancelRequest(id: nat, now: int)
    | Retry(id: nat, now: int)
    | Heartbeat(worker: string, now: int)

  const EMPTY := System([], map[], map[], {}, [])

  /** A worker claims only when idle and finishes only what it holds: it runs one job at a time. Completing
      and acknowledging a cancellation are single statements; failing and deferring are a read and a write.
      Any queued row may be claimed, whichever of them the dequeue order picks. */
  ghost predicate Enabled(s: System, step: Step) {
    match step
    case Claim(w, i, _) => w !in s.holding && i < |s.jobs| && s.jobs[i].status == Queued
    case Finish(w, outcome, _) => w in s.holding && w !in s.plans && (outcome == Complete || outcome == AckCancel)
    case Read(w, outcome, _, _) => w in s.holding && w !in s.plans && s.holding[w] < |s.jobs|
      && (outcome.Fail? || outcome == Defer)
    case Write(w) => w in s.holding && w in s.plans
    case _ => true
  }

  /** What a worker decides from the table as it reads it. */
  function PlanFor(t: Table, i: nat, outcome: Outcome, now: int, delay: int): Plan
    requires i < |t|
  {
    if outcome.Fail? then FailPlan(t, i, outcome.retryable, now, delay) else DeferPlan(t, i, now, delay)
  }

  /** The table after a step. */
  ghost function Effect(s: System, step: Step): Table
    requires Enabled(s, step)
  {
    match step
    case Enqueue(kind, key, runAfter, priority, maxAttempts) => Enqueued(
      s.jobs, NewJob(kind, key, runAfter, priority, maxAttempts))
    case Claim(w, i, now) => Claimed(s.jobs, i, w, now)
    case Finish(w, outcome, now) => if outcome == Complete then Completed(s.jobs, s.holding[w], w, now)
      else MarkedCancelled(s.jobs, s.holding[w], w, now)
    case Read(_, _, _, _) => s.jobs
    case Write(w) => Written(s.jobs, s.holding[w], w, s.plans[w])
    case Reap(cutoff) => Reaped(s.jobs, cutoff)
    case CancelRequest(i, now) => CancelRequested(s.jobs, i, now)
    case Retry(i, now) => Retried(s.jobs, i, now)
    case Heartbeat(w, now) => Beaten(s.jobs, w, now)
  }

  /** How one row's history grows when the row changes from `before` to `after`. */
  ghost function Recount(s: System, step: Step, i: nat, before: Job, after: Job, t: Tally): Tally
    requires Enabled(s, step)
  {
    match step
    case Claim(_, c, _) => if c == i then t.(claims := t.claims + 1) else t
    case Write(w) =>
      if s.plans[w].GivesBack? && before.status == Running && after.status == Queued
      then t.(defers := t.defers + 1) else t
    case Reap(_) => if before.status == Running && after.status != Running then t.(reaps := t.reaps + 1) else t
    case Retry(_, _) => if before.status != Queued && after.status == Queued then Tally(0, 0, 0) else t
    case _ => t
  }

  /** A deferral that the index aborted: the worker still has the job and goes on to fail it. */
  ghost predicate DeferralAborted(s: System, w: string)
    requires Enabled(s, Write(w))
  {
    s.plans[w].GivesBack? && Owns(s.jobs, s.holding[w], w) && Owns(Effect(s, Write(w)), s.holding[w], w)
  }

  ghost function Holding(s: System, step: Step): map<string, nat>
    requires Enabled(s, step)
  {
    match step
    case Claim(w, i, _) => s.holding[w := i]
    case Finish(w, _, _) => s.holding - {w}
    case Write(w) => if DeferralAborted(s, w) then s.holding else s.holding - {w}
    case _ => s.holding
  }

  ghost function Plans(s: System, step: Step): map<string, Plan>
    requires Enabled(s, step)
  {
    match step
    case Read(w, outcome, now, delay) => s.plans[w := PlanFor(s.jobs, s.holding[w], outcome, now, delay)]
    case Write(w) => s.plans - {w}
    case _ => s.plans
  }

  ghost function Apply(s: System, step: Step): System
    requires Enabled(s, step) && |s.tally| == |s.jobs|
  {
    var jobs, holding := Effect(s, step), Holding(s, step);
    var fenced := set w | w in holding && (w in s.fenced || !Owns(jobs, holding[w], w));
    System(jobs, holding, Plans(s, step), fenced,
           seq(|jobs|, i requires 0 <= i < |jobs| =>
             if i < |s.jobs| then Recount(s, step, i, s.jobs[i], jobs[i], s.tally[i]) else Tally(0, 0, 0)))
  }

  /** `steps`, each enabled in turn, lead from `s` to `s'`. */
  ghost predicate Run(s: System, steps: seq<Step>, s': System)
    decreases steps
  {
    if steps == [] then s == s'
    else |s.tally| == |s.jobs| && Enabled(s, steps[0]) && Run(Apply(s, steps[0]), steps[1..], s')
  }

  /** The step is the worker's own, about the job it holds. */
  predicate IsOwnStep(step: Step, w: string) {
    (step.Finish? || step.Read? || step.Write?) && step.worker == w
  }

  // ----- the invariant ----------------------------------------------------------------------

  /** A row is locked iff it is running, and its attempts are its claims less its requeuing defers,
      never more than the limit (at least one) plus the number of times it was reaped. */
  ghost predicate RowInv(row: Job, t: Tally) {
    && (row.lockedBy.Some? <==> row.status == Running)
    && row.attempts == t.claims - t.defers
    && row.attempts >= (if row.status == Running then 1 else 0)
    && row.attempts + (if row.status == Queued then 1 else 0) <= Limit(row) + t.reaps
  }

  function Limit(row: Job): int {
    if row.maxAttempts > 1 then row.maxAttempts else 1
  }

  /** A busy worker owns the row it holds unless it is fenced; a fenced worker owns nothing it could finish. */
  ghost predicate HolderInv(s: System, w: string) {
    w in s.holding ==> s.holding[w] < |s.jobs| && (w in s.fenced <==> !Owns(s.jobs, s.holding[w], w))
  }

  /** What a worker read about its own row still holds when it writes, unless it was fenced: the attempts
      left for a requeue are still left. Whether a duplicate is queued may have changed. */
  ghost predicate PlanInv(s: System, w: string) {
    w in s.plans ==>
      && w in s.holding
      && (s.plans[w].Requeues? && Owns(s.jobs, s.holding[w], w) ==>
        s.jobs[s.holding[w]].attempts < s.jobs[s.holding[w]].maxAttempts)
  }

  ghost predicate Inv(s: System) {
    && |s.tally| == |s.jobs|
    && UniqueQueued(s.jobs)
    && (forall i :: 0 <= i < |s.jobs| ==> RowInv(s.jobs[i], s.tally[i]))
    && (forall w :: HolderInv(s, w))
    && (forall w :: PlanInv(s, w))
    && (forall w :: w in s.fenced ==> w in s.holding)
  }

  /** What one step may do to one row, whatever the other rows are. */
  ghost predicate RowStep(s: System, step: Step, i: nat)
    requires |s.tally| == |s.jobs| && Enabled(s, step) && i < |s.jobs|
  {
    var after := Effect(s, step);
    i < |after| &&
    var a, b := s.jobs[i], after[i];
    b.dedupeKey == a.dedupeKey && b.maxAttempts == a.maxAttempts &&
    match step
    case Enqueue(_, _, _, _, _) => b == a
    case Claim(w, c, _) => if c == i then b.status == Running && b.lockedBy == Some(w) && b.attempts == a.attempts + 1
      else b == a
    case Finish(w, outcome, _) =>
      b == a || (s.holding[w] == i && Owns(s.jobs, i, w)
        && b.status == (if outcome == Complete then Succeeded else Cancelled) && b.lockedBy == None
        && b.attempts == a.attempts)
    case Read(_, _, _, _) => b == a
    case Write(w) => b == a || (s.holding[w] == i && Owns(s.jobs, i, w) && b == PlannedRow(a, s.plans[w]))
    case Reap(cutoff) => b == a
      || (Stale(a, cutoff) && (b.status == Queued || b.status == Cancelled) && b.lockedBy == None
      && b.attempts == a.attempts)
    case CancelRequest(c, _) =>
      b == a || (c == i && a.status == Queued && b.status == Cancelled && b.lockedBy == a.lockedBy
        && b.attempts == a.attempts)
             || (c == i && a.status == Running && b == a.(cancelAsked := true))
    case Retry(c, now) => b == a || (c == i && (a.status == Failed || a.status == Dead) && b == RetriedRow(a, now))
    case Heartbeat(w, now) => b == a || b == a.(heartbeatAt := Some(now))
  }

  lemma RowSteps(s: System, step: Step, i: nat)
    requires |s.tally| == |s.jobs| && Enabled(s, step) && i < |s.jobs|
    ensures RowStep(s, step, i)
  {
    hide UniqueQueued, HasDuplicate, QueuedWith;
  }

  lemma PlannedRowEnds(row: Job, plan: Plan)
    ensures var b := PlannedRow(row, plan);
      && b.lockedBy == None && b.dedupeKey == row.dedupeKey && b.maxAttempts == row.maxAttempts
      && (b.status == Queued <==> plan.Requeues? || plan.GivesBack?) && (b.status == Cancelled <==> plan.Drops?)
        && b.status != Running && b.status != Succeeded
      && b.attempts == if plan.GivesBack? then (if row.attempts - 1 > 0 then row.attempts - 1 else 0) else row.attempts
  {
  }

  // ----- the index is never broken ------------------------------------------------------------

  lemma StaysUnique(s: System, step: Step)
    requires Enabled(s, step) && UniqueQueued(s.jobs)
    ensures UniqueQueued(Effect(s, step))
  {
    var t, t' := s.jobs, Effect(s, step);
    match step {
      case Enqueue(kind, key, runAfter, priority, maxAttempts) =>
        if key.Some? && !QueuedWith(t, key.value, -1) {
          forall i | 0 <= i < |t| && t[i].status == Queued ensures t[i].dedupeKey != key {
            assert !IsQueued(t, i, key.value);
          }
          assert t' == t + [NewJob(kind, key, runAfter, priority, maxAttempts)];
        }
      case Claim(w, i, now) => FewerQueued(t, t');
      case Finish(w, outcome, now) => FewerQueued(t, t');
      case CancelRequest(i, now) => FewerQueued(t, t');
      case Heartbeat(w, now) => FewerQueued(t, t');
      case _ =>
    }
  }

  // ----- attempts, locks and plans ------------------------------------------------------------

  lemma WriteKeepsRow(s: System, w: string, i: nat)
    requires Inv(s) && Enabled(s, Write(w)) && i < |s.jobs|
    ensures var b := Effect(s, Write(w))[i]; RowInv(b, Recount(s, Write(w), i, s.jobs[i], b, s.tally[i]))
  {
    hide UniqueQueued, QueuedWith, Guarded;
    assert HolderInv(s, w) && PlanInv(s, w) && RowInv(s.jobs[i], s.tally[i]);
    RowSteps(s, Write(w), i);
    PlannedRowEnds(s.jobs[i], s.plans[w]);
  }

  lemma StepKeepsRows(s: System, step: Step, i: nat)
    requires Inv(s) && Enabled(s, step) && i < |Effect(s, step)|
    ensures RowInv(Apply(s, step).jobs[i], Apply(s, step).tally[i])
  {
    hide UniqueQueued, QueuedWith, HasDuplicate, PlannedRow;
    if i < |s.jobs| {
      assert RowInv(s.jobs[i], s.tally[i]);
      match step {
        case Write(w) => WriteKeepsRow(s, w, i);
        case _ => RowSteps(s, step, i);
      }
    }
  }

  lemma StepKeepsHolder(s: System, step: Step, w: string)
    requires Inv(s) && Enabled(s, step)
    ensures HolderInv(Apply(s, step), w)
  {
    hide UniqueQueued, QueuedWith, HasDuplicate, RowInv, PlanInv, PlannedRow, FailPlan, DeferPlan;
    var s' := Apply(s, step);
    if w in s'.holding && !(step.Claim? && step.worker == w) {
      assert HolderInv(s, w);
      RowSteps(s, step, s.holding[w]);
      if step.Write? {
        PlannedRowEnds(s.jobs[s.holding[w]], s.plans[step.worker]);
      }
    }
  }

  /** While a worker owns its row, nobody else changes the row's attempts. */
  lemma OwnedRowKeepsAttempts(s: System, step: Step, w: string)
    requires Inv(s) && Enabled(s, step) && w in s.plans && w in s.holding && step != Write(w)
    ensures w in Holding(s, step) && Holding(s, step)[w] == s.holding[w]
    ensures Owns(Effect(s, step), s.holding[w], w) ==>
      && Owns(s.jobs, s.holding[w], w)
      && Effect(s, step)[s.holding[w]].attempts == s.jobs[s.holding[w]].attempts
      && Effect(s, step)[s.holding[w]].maxAttempts == s.jobs[s.holding[w]].maxAttempts
  {
    hide UniqueQueued, QueuedWith, HasDuplicate, RowInv;
    assert PlanInv(s, w) && HolderInv(s, w);
    RowSteps(s, step, s.holding[w]);
    if step.Write? {
      PlannedRowEnds(s.jobs[s.holding[w]], s.plans[step.worker]);
    }
  }

  lemma ReadKeepsPlan(s: System, step: Step)
    requires Inv(s) && Enabled(s, step) && step.Read?
    ensures PlanInv(Apply(s, step), step.worker)
  {
    hide UniqueQueued, QueuedWith, RowInv;
  }

  lemma StepKeepsPlan(s: System, step: Step, w: string)
    requires Inv(s) && Enabled(s, step)
    ensures PlanInv(Apply(s, step), w)
  {
    hide UniqueQueued, QueuedWith, HasDuplicate, RowInv, Effect, Holding, PlanFor;
    if step.Read? && step.worker == w {
      ReadKeepsPlan(s, step);
    } else if w in s.plans && step != Write(w) {
      assert PlanInv(s, w);
      OwnedRowKeepsAttempts(s, step, w);
    }
  }

  lemma StepKeepsInv(s: System, step: Step)
    requires Inv(s) && Enabled(s, step)
    ensures Inv(Apply(s, step))
  {
    hide UniqueQueued, RowInv, HolderInv, PlanInv, Effect, Holding, Plans;
    var s' := Apply(s, step);
    StaysUnique(s, step);
    forall i | 0 <= i < |s'.jobs| ensures RowInv(s'.jobs[i], s'.tally[i]) {
      StepKeepsRows(s, step, i);
    }
    forall w ensures HolderInv(s', w) && PlanInv(s', w) {
      StepKeepsHolder(s, step, w);
      StepKeepsPlan(s, step, w);
    }
  }

  /** The invariant holds in every state of every run. */
  lemma {:induction false} RunKeepsInv(s: System, steps: seq<Step>, s': System)
    requires Inv(s) && Run(s, steps, s')
    ensures Inv(s')
    decreases steps
  {
    if steps != [] {
      StepKeepsInv(s, steps[0]);
      hide Inv, Apply, Enabled;
      RunKeepsInv(Apply(s, steps[0]), steps[1..], s');
    }
  }

  lemma Reachable(steps: seq<Step>, s: System)
    requires Run(EMPTY, steps, s)
    ensures Inv(s)
  {
    assert Inv(EMPTY);
    RunKeepsInv(EMPTY, steps, s);
  }
}
