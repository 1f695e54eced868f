/** What the budget invariant amounts to: exact attempt counts, draining within
    a bound, bounded retry spans, and progress of every batch. */
module DispatchDraining {
  import opened Base
  import opened EventIds
  import opened Backoff
  import opened Polling
  import opened Dispatch
  import opened DispatchControl
  import opened DispatchBudget
  import Outbox

  // --- the ledger: stored attempts are recorded failures ------------------------------------

  ghost predicate Ledger(s: Sys) {
    && (forall id | id in s.store && s.store[id].Live? ::
          s.log.failures[id] == s.store[id].event.attempts && s.log.dispatches[id] == 0)
    && (forall id | id in s.log.failures || id in s.log.dispatches :: id in s.store || id in s.letters)
  }

  // What the budget says of a task about to record its outcome.
  lemma MarkingTask(c: Config, s: Sys, t: Task)
    requires Budget(c, s) && t in s.tasks && !t.phase.Finished?
    ensures t.event.id in s.store || t.event.id in s.letters
    ensures t.event.id in s.store ==> s.store[t.event.id].Live? && s.store[t.event.id].event.attempts < U32_MAX
  {
    hide Potential, SpanLimit, ExponentialDelay;
    assert Fresh(c.policy, s, t);
    if t.event.id in s.store {
      assert WithinBudget(c.policy, s.store[t.event.id]);
    }
  }

  lemma LedgerMarked(s: Sys, t: Task, diagnostic: Bytes)
    requires Ledger(s) && (t.phase.Succeeded? || t.phase.Failed?)
    requires t.event.id in s.store || t.event.id in s.letters
    requires t.event.id in s.store ==> s.store[t.event.id].Live? && s.store[t.event.id].event.attempts < U32_MAX
    ensures Ledger(Marked(s, t, diagnostic))
  {
    var id := t.event.id;
    var s' := Marked(s, t, diagnostic);
    forall x | x in s'.store && s'.store[x].Live?
      ensures s'.log.failures[x] == s'.store[x].event.attempts && s'.log.dispatches[x] == 0
    {
      assert x in s.store && s.store[x].Live?;
      assert x != id ==> s'.store[x] == s.store[x];
    }
  }

  lemma LedgerMark(c: Config, s: Sys, i: nat, diagnostic: Bytes)
    requires Budget(c, s) && Ledger(s) && Enabled(c, s, Mark(i, true, diagnostic))
    ensures Ledger(Do(c, s, Mark(i, true, diagnostic)))
  {
    hide Budget, Marked;
    MarkingTask(c, s, s.tasks[i]);
    LedgerMarked(s, s.tasks[i], diagnostic);
    SameLedger(Marked(s, s.tasks[i], diagnostic), Do(c, s, Mark(i, true, diagnostic)));
  }

  lemma SameLedger(a: Sys, b: Sys)
    requires Ledger(a) && a.store == b.store && a.letters == b.letters
    requires a.log.failures == b.log.failures && a.log.dispatches == b.log.dispatches
    ensures Ledger(b)
  {}

  lemma LedgerAppend(c: Config, s: Sys, step: Step)
    requires Ledger(s) && step.Append? && Unattended(c, s, step)
    ensures Ledger(Do(c, s, step))
  {}

  lemma LedgerDeadLetter(c: Config, s: Sys, step: Step)
    requires Ledger(s) && step.DeadLetter?
    ensures Ledger(Do(c, s, step))
  {}

  lemma LedgerElsewhere(c: Config, s: Sys, step: Step)
    requires Ledger(s) && Enabled(c, s, step) && Unattended(c, s, step)
    requires !step.Append? && !step.DeadLetter? && !(step.Mark? && step.recorded)
    ensures Ledger(Do(c, s, step))
  {
    hide Ledger, Awaiting, RetryAt, ExponentialDelay, Outbox.FetchDue, Polling.Tick, Spawn;
    SameLedger(s, Do(c, s, step));
  }

  lemma LedgerStep(c: Config, s: Sys, step: Step)
    requires Budget(c, s) && Ledger(s) && Enabled(c, s, step) && Unattended(c, s, step)
    ensures Ledger(Do(c, s, step))
  {
    hide Budget, Ledger, Do;
    match step
    case Append(_) => LedgerAppend(c, s, step);
    case DeadLetter(_, _) => LedgerDeadLetter(c, s, step);
    case Mark(i, true, diagnostic) => LedgerMark(c, s, i, diagnostic);
    case _ => LedgerElsewhere(c, s, step);
  }

  lemma {:induction false} LedgerRun(c: Config, steps: seq<Step>)
    requires ValidConfig(c) && c.policy.maxAttempts >= 1
    requires Legal(c, steps) && UnattendedRun(c, steps)
    ensures Ledger(Reached(c, steps))
    decreases |steps|
  {
    hide Do, Enabled, Budget, Unattended;
    if steps != [] {
      var before := steps[..|steps| - 1];
      BudgetRun(c, before);
      LedgerRun(c, before);
      LedgerStep(c, Reached(c, before), steps[|steps| - 1]);
    }
  }

  /** In an unattended run every live event's attempts are its recorded
      failures: fewer than the maximum while pending, exactly the maximum once
      parked; and its sends are those failures plus lost marks plus a send still
      awaiting its mark. Pauses appear nowhere in the account. */
  lemma BudgetIsExact(c: Config, steps: seq<Step>, id: EventId)
    requires ValidConfig(c) && c.policy.maxAttempts >= 1
    requires Legal(c, steps) && UnattendedRun(c, steps)
    requires var s := Reached(c, steps); id in s.store && s.store[id].Live?
    ensures var s := Reached(c, steps);
      && (Outbox.Pending(s.store, id) <==> s.store[id].event.attempts < c.policy.maxAttempts)
      && (Outbox.Parked(s.store, id) <==> s.store[id].event.attempts == c.policy.maxAttempts)
      && s.store[id].event.attempts == s.log.failures[id]
      && s.log.sends[id] == s.log.failures[id] + s.log.lost[id] + Awaiting(s.tasks)[id]
  {
    BudgetRun(c, steps);
    LedgerRun(c, steps);
    EveryRun(c, steps);
    var s := Reached(c, steps);
    assert WithinBudget(c.policy, s.store[id]);
    assert s.log.sends[id] == (Settled(s.log) + Awaiting(s.tasks))[id];
  }

  /** The snapshot a task was given still has the stored attempt count when its
      outcome is recorded. */
  lemma SnapshotIsCurrent(c: Config, steps: seq<Step>, i: nat)
    requires ValidConfig(c) && c.policy.maxAttempts >= 1
    requires Legal(c, steps) && UnattendedRun(c, steps)
    requires var s := Reached(c, steps);
      i < |s.tasks| && !s.tasks[i].phase.Finished? && s.tasks[i].event.id in s.store
    ensures var s := Reached(c, steps);
      var e := s.tasks[i].event;
      Outbox.Pending(s.store, e.id) && s.store[e.id].event.attempts == e.attempts
  {
    BudgetRun(c, steps);
    var s := Reached(c, steps);
    assert s.tasks[i] in s.tasks && Fresh(c.policy, s, s.tasks[i]);
  }

  // --- draining ------------------------------------------------------------------------------

  /** Every recorded outcome strictly lowers the attempts left to spend. */
  lemma OutcomeSpends(c: Config, s: Sys, i: nat, diagnostic: Bytes)
    requires Budget(c, s) && Enabled(c, s, Mark(i, true, diagnostic)) && s.tasks[i].event.id in s.store
    ensures Potential(Do(c, s, Mark(i, true, diagnostic)).store, c.policy.maxAttempts) <
            Potential(s.store, c.policy.maxAttempts)
  {
    hide Budget, Potential, Left, WithinBudget, SpanLimit;
    var t := s.tasks[i];
    assert t in s.tasks;
    MarkedEntry(c, s, t, diagnostic);
    PotentialPut(s.store, c.policy.maxAttempts, t.event.id, Marked(s, t, diagnostic).store[t.event.id]);
  }

  function PendingIds(s: Outbox.Store): set<EventId> {
    set id | id in s && Outbox.Pending(s, id)
  }

  lemma {:induction false} EachPendingHasLeft(s: Outbox.Store, max: nat, ids: set<EventId>)
    requires forall id | id in ids :: Left(s, max, id) >= 1
    ensures |ids| <= SumLeft(s, max, ids)
    decreases |ids|
  {
    hide Left;
    if ids != {} {
      var x :| x in ids;
      SumLeftRemove(s, max, ids, x);
      EachPendingHasLeft(s, max, ids - {x});
    }
  }

  lemma {:induction false} SumLeftSubset(s: Outbox.Store, max: nat, a: set<EventId>, b: set<EventId>)
    requires a <= b
    ensures SumLeft(s, max, a) <= SumLeft(s, max, b)
    decreases |b|
  {
    hide Left;
    if b != {} {
      var x :| x in b;
      SumLeftRemove(s, max, b, x);
      if x in a {
        SumLeftRemove(s, max, a, x);
        SumLeftSubset(s, max, a - {x}, b - {x});
      } else {
        SumLeftSubset(s, max, a, b - {x});
      }
    }
  }

  /** After N insertions the recorded outcomes and the events still pending
      together never exceed `N * max_attempts`: once that many outcomes are
      recorded, nothing is pending. */
  lemma DrainsWithinBudget(c: Config, steps: seq<Step>)
    requires ValidConfig(c) && c.policy.maxAttempts >= 1
    requires Legal(c, steps) && UnattendedRun(c, steps)
    ensures var s := Reached(c, steps);
      s.log.outcomes + |PendingIds(s.store)| <= s.log.insertions * c.policy.maxAttempts
  {
    BudgetRun(c, steps);
    var s, max := Reached(c, steps), c.policy.maxAttempts;
    var pending := PendingIds(s.store);
    forall id | id in pending ensures Left(s.store, max, id) >= 1 {
      assert WithinBudget(c.policy, s.store[id]);
    }
    EachPendingHasLeft(s.store, max, pending);
    SumLeftSubset(s.store, max, pending, s.store.Keys);
  }

  /** A fetch at or past every pending stamp finds work while any is pending. */
  lemma FetchFindsWork(c: Config, s: Sys, now: U64)
    requires ValidConfig(c) && Control(c, s) && CadenceHolds(c, s)
    requires s.mode == Idle && Fetches(c.batch, s.poller)
    requires PendingIds(s.store) != {} && forall id | id in PendingIds(s.store) :: s.store[id].at <= now
    ensures Do(c, s, Tick(now, false)).tasks != []
  {
    hide Outbox.FetchDue, Polling.Tick;
    Outbox.FetchIsComplete(s.store, s.poller.size, now);
    var id :| id in PendingIds(s.store);
    assert id in Outbox.DueIds(s.store, now);
    assert |Outbox.DueIds(s.store, now)| > 0;
  }

  // --- a batch always drains -------------------------------------------------------------------

  function Rank(t: Task): nat {
    match t.phase
    case Waiting => 5
    case Admitted => 4
    case Sending => 3
    case Succeeded => 2
    case Failed(_, _) => 2
    case Finished => 1
  }

  function Work(ts: seq<Task>): nat {
    if ts == [] then 0 else Rank(ts[0]) + Work(ts[1..])
  }

  lemma {:induction false} WorkUpdate(ts: seq<Task>, i: nat, t: Task)
    requires i < |ts|
    ensures Work(ts[i := t]) + Rank(ts[i]) == Work(ts) + Rank(t)
    ensures Work(ts[..i] + ts[i + 1..]) + Rank(ts[i]) == Work(ts)
  {
    var rest := ts[..i] + ts[i + 1..];
    if i == 0 {
      assert ts[0 := t][1..] == ts[1..] && rest == ts[1..];
    } else {
      WorkUpdate(ts[1..], i - 1, t);
      assert ts[i := t][1..] == ts[1..][i - 1 := t];
      assert rest[1..] == ts[1..][..i - 1] + ts[1..][i..];
    }
  }

  /** Each task step and each join lowers the work left in the batch. */
  lemma TaskStepsLowerWork(c: Config, s: Sys, step: Step)
    requires Enabled(c, s, step) && (TaskStep(step) || step.Join?)
    ensures Work(Do(c, s, step).tasks) < Work(s.tasks)
  {
    hide Outbox.MarkFailed, Outbox.MarkDispatched, RetryAt, ExponentialDelay, Work, Awaiting, Holders;
    var s' := Do(c, s, step);
    if TaskStep(step) {
      TaskStepMovesOne(c, s, step);
      WorkUpdate(s.tasks, Index(step), s'.tasks[Index(step)]);
    } else {
      WorkUpdate(s.tasks, step.i, s.tasks[step.i]);
    }
  }

  lemma {:induction false} SomeHolder(ts: seq<Task>) returns (i: nat)
    requires Holders(ts) > 0
    ensures i < |ts| && Weight(ts[i]) > 0
  {
    if Weight(ts[0]) > 0 {
      i := 0;
    } else {
      i := SomeHolder(ts[1..]);
      i := i + 1;
    }
  }

  /** The steps that carry a batch on without a pause, a refusal or a lost mark. */
  predicate Forward(step: Step) {
    step.Acquire? || step.Send? || step.Accept? || (step.Mark? && step.recorded) || step.Join?
  }

  /** While the batch is non-empty some task can move: permits are never all
      held by tasks that wait for one. */
  lemma DrainingNeverSticks(c: Config, s: Sys) returns (step: Step)
    requires ValidConfig(c) && Control(c, s) && s.tasks != []
    ensures Enabled(c, s, step) && Forward(step)
  {
    hide Holders, ExponentialDelay;
    var i: nat := 0;
    if s.tasks[0].phase.Waiting? {
      if s.permits > 0 {
        return Acquire(0);
      }
      i := SomeHolder(s.tasks);
    }
    match s.tasks[i].phase
    case Admitted => step := Send(i);
    case Sending => step := Accept(i);
    case Succeeded => step := Mark(i, true, []);
    case Failed(_, _) => step := Mark(i, true, []);
    case Finished => step := Join(i);
  }

  // --- the retry span ----------------------------------------------------------------------------

  /** Over a whole run the delays scheduled for one event sum to at most the
      schedule's bounds for the failures it has had, hence to at most
      `(max_attempts - 1) * cap`. */
  lemma RetrySpanBounded(c: Config, steps: seq<Step>, id: EventId)
    requires ValidConfig(c) && c.policy.maxAttempts >= 1
    requires Legal(c, steps) && UnattendedRun(c, steps) && id in Reached(c, steps).store
    ensures var s := Reached(c, steps);
      && (Outbox.Pending(s.store, id) ==> Waited(s.log, id) <= Span(c.policy, s.store[id].event.attempts))
      && Waited(s.log, id) <= Span(c.policy, c.policy.maxAttempts - 1) <= (c.policy.maxAttempts - 1) * c.policy.cap
  {
    hide ExponentialDelay, Reached, Legal, UnattendedRun, Fresh, Potential;
    BudgetRun(c, steps);
    var s, p := Reached(c, steps), c.policy;
    assert WithinBudget(p, s.store[id]) && Waited(s.log, id) <= SpanLimit(p, s.store[id]);
    SpanBounded(p, p.maxAttempts - 1);
    if Outbox.Pending(s.store, id) {
      SpanMonotone(p, s.store[id].event.attempts, p.maxAttempts - 1);
    }
  }
}
