/** The retry budget, draining and the retry span of runs no operator reschedules. */
module DispatchBudget {
  import opened Base
  import opened EventIds
  import opened Events
  import opened Backoff
  import opened Polling
  import opened Dispatch
  import opened DispatchControl
  import Outbox

  /** The steps of an unattended run: fresh events, no operator reschedule, no
      re-append of a dead-lettered id, and a clock far from the end of time. */
  predicate Unattended(c: Config, s: Sys, step: Step) {
    match step
    case Append(event) => event.attempts == 0 && event.createdAt != NEVER && event.id !in s.letters
    case Refuse(_, now, _) => now + Millis(c.policy.cap) < NEVER
    case Reschedule(_, _, _) => false
    case _ => true
  }

  ghost predicate UnattendedRun(c: Config, steps: seq<Step>)
    requires Legal(c, steps)
    decreases |steps|
  {
    steps == [] ||
    (UnattendedRun(c, steps[..|steps| - 1]) &&
     Unattended(c, Reached(c, steps[..|steps| - 1]), steps[|steps| - 1]))
  }

  // --- potential: attempts still to be spent --------------------------------------------------

  function Left(s: Outbox.Store, max: nat, id: EventId): nat {
    if Outbox.Pending(s, id) && s[id].event.attempts < max then max - s[id].event.attempts else 0
  }

  ghost function SumLeft(s: Outbox.Store, max: nat, ids: set<EventId>): nat {
    if ids == {} then 0
    else
      var id :| id in ids;
      Left(s, max, id) + SumLeft(s, max, ids - {id})
  }

  /** The sum over pending events of `max_attempts - attempts`. */
  ghost function Potential(s: Outbox.Store, max: nat): nat {
    SumLeft(s, max, s.Keys)
  }

  lemma {:induction false} SumLeftRemove(s: Outbox.Store, max: nat, ids: set<EventId>, id: EventId)
    requires id in ids
    ensures SumLeft(s, max, ids) == Left(s, max, id) + SumLeft(s, max, ids - {id})
    decreases |ids|
  {
    hide Left;
    var x :| x in ids && SumLeft(s, max, ids) == Left(s, max, x) + SumLeft(s, max, ids - {x});
    if x != id {
      SumLeftRemove(s, max, ids - {x}, id);
      SumLeftRemove(s, max, ids - {id}, x);
      assert ids - {x} - {id} == ids - {id} - {x};
    }
  }

  lemma {:induction false} SumLeftSame(a: Outbox.Store, b: Outbox.Store, max: nat, ids: set<EventId>)
    requires forall id | id in ids :: Left(a, max, id) == Left(b, max, id)
    ensures SumLeft(a, max, ids) == SumLeft(b, max, ids)
    decreases |ids|
  {
    hide Left;
    if ids != {} {
      var x :| x in ids;
      SumLeftRemove(a, max, ids, x);
      SumLeftRemove(b, max, ids, x);
      SumLeftSame(a, b, max, ids - {x});
    }
  }

  /** Replacing or adding one entry changes the potential by that entry's share. */
  lemma PotentialPut(s: Outbox.Store, max: nat, id: EventId, entry: Outbox.Entry)
    ensures Potential(s[id := entry], max) + Left(s, max, id) == Potential(s, max) + Left(s[id := entry], max, id)
  {
    var s' := s[id := entry];
    SumLeftRemove(s', max, s'.Keys, id);
    assert s'.Keys - {id} == s.Keys - {id};
    SumLeftSame(s, s', max, s.Keys - {id});
    if id in s {
      SumLeftRemove(s, max, s.Keys, id);
    } else {
      assert s.Keys - {id} == s.Keys;
    }
  }

  lemma PotentialDelete(s: Outbox.Store, max: nat, id: EventId)
    ensures Potential(s - {id}, max) + Left(s, max, id) == Potential(s, max)
  {
    var s' := s - {id};
    assert s'.Keys == s.Keys - {id};
    SumLeftSame(s, s', max, s'.Keys);
    if id in s {
      SumLeftRemove(s, max, s.Keys, id);
    } else {
      assert s' == s;
    }
  }

  // --- the invariant ------------------------------------------------------------------------------

  /** A live entry within its budget: below the maximum while pending, exactly
      at it once parked. */
  predicate WithinBudget(p: Policy, entry: Outbox.Entry) {
    entry.Live? ==> if entry.at == NEVER then entry.event.attempts == p.maxAttempts
                    else entry.event.attempts < p.maxAttempts
  }

  /** The delays scheduled so far stay within the schedule's sum. */
  function SpanLimit(p: Policy, entry: Outbox.Entry): nat
    requires p.maxAttempts >= 1
  {
    if entry.Dispatched? || entry.at == NEVER then Span(p, p.maxAttempts - 1) else Span(p, entry.event.attempts)
  }

  /** A task whose mark is still to come knows the stored attempts. */
  ghost predicate Fresh(p: Policy, s: Sys, t: Task) {
    && (t.event.id in s.store || t.event.id in s.letters)
    && (!t.phase.Finished? && t.event.id in s.store ==>
          Outbox.Pending(s.store, t.event.id) && s.store[t.event.id].event.attempts == t.event.attempts)
    && (t.phase.Failed? ==>
          var n := Outbox.SaturatingIncrement(t.event.attempts);
          if n >= p.maxAttempts then t.phase.retryAt == NEVER && t.phase.delay == 0
          else t.phase.retryAt != NEVER && t.phase.delay <= ExponentialDelay(p, n))
  }

  ghost predicate Budget(c: Config, s: Sys) {
    && c.policy.maxAttempts >= 1
    && (forall id | id in s.store :: WithinBudget(c.policy, s.store[id]))
    && (forall t | t in s.tasks :: Fresh(c.policy, s, t))
    && (forall id | id in s.log.waited :: id in s.store || id in s.letters)
    && (forall id | id in s.store :: Waited(s.log, id) <= SpanLimit(c.policy, s.store[id]))
    && s.log.outcomes + Potential(s.store, c.policy.maxAttempts) <= s.log.insertions * c.policy.maxAttempts
  }

  // The parts of the state the budget reads.
  ghost predicate SameAccounts(a: Sys, b: Sys) {
    a.store == b.store && a.letters == b.letters && a.log.waited == b.log.waited &&
    a.log.outcomes == b.log.outcomes && a.log.insertions == b.log.insertions
  }

  lemma BudgetSameAccounts(c: Config, a: Sys, b: Sys)
    requires Budget(c, a) && SameAccounts(a, b)
    requires forall t | t in b.tasks :: Fresh(c.policy, a, t)
    ensures Budget(c, b)
  {
    hide WithinBudget, SpanLimit, Potential;
    forall t | t in b.tasks ensures Fresh(c.policy, b, t) {
      assert Fresh(c.policy, a, t);
    }
    assert forall id :: Waited(a.log, id) == Waited(b.log, id);
  }

  // A task that moves on without a change to the store.
  lemma FreshMoved(c: Config, s: Sys, i: nat, phase: Phase)
    requires i < |s.tasks| && (forall t | t in s.tasks :: Fresh(c.policy, s, t))
    requires !s.tasks[i].phase.Finished? && !phase.Failed?
    ensures forall t | t in Moved(s, i, phase).tasks :: Fresh(c.policy, s, t)
  {
    hide ExponentialDelay;
    var ts := Moved(s, i, phase).tasks;
    forall t | t in ts ensures Fresh(c.policy, s, t) {
      var j :| 0 <= j < |ts| && ts[j] == t;
      assert s.tasks[j] in s.tasks && Fresh(c.policy, s, s.tasks[j]);
    }
  }

  lemma BudgetAppend(c: Config, s: Sys, event: OutboxEvent)
    requires Budget(c, s) && Unattended(c, s, Append(event))
    ensures Budget(c, Do(c, s, Append(event)))
  {
    hide Potential, Span, ExponentialDelay;
    if ValidTopic(event.topic) && event.id !in s.store {
      var s' := Do(c, s, Append(event));
      var max := c.policy.maxAttempts;
      PotentialPut(s.store, max, event.id, Outbox.Live(event.createdAt, event));
      assert Left(s'.store, max, event.id) == max;
      assert s'.log.insertions * max == s.log.insertions * max + max;
      assert event.id !in s.log.waited;
      forall t | t in s'.tasks ensures Fresh(c.policy, s', t) {
        assert Fresh(c.policy, s, t);
      }
    } else {
      BudgetSameAccounts(c, s, Do(c, s, Append(event)));
    }
  }

  lemma BudgetTick(c: Config, s: Sys, now: U64, hiccup: bool)
    requires Control(c, s) && Budget(c, s) && s.mode == Idle
    ensures Budget(c, Do(c, s, Tick(now, hiccup)))
  {
    hide Outbox.FetchDue, Polling.Tick, Fetches, Potential, ExponentialDelay, WithinBudget, SpanLimit;
    var s' := Do(c, s, Tick(now, hiccup));
    var due := Outbox.FetchDue(s.store, s.poller.size, now);
    Outbox.FetchReturnsDueInOrder(s.store, s.poller.size, now);
    forall t | t in Spawn(due) ensures Fresh(c.policy, s, t) {
      var i :| 0 <= i < |due| && Spawn(due)[i] == t;
      assert due[i] in due;
    }
    BudgetSameAccounts(c, s, s');
  }

  lemma RefusalStamped(p: Policy, attempts: U32, now: U64, delay: Duration)
    requires delay <= ExponentialDelay(p, attempts) && now + Millis(p.cap) < NEVER
    ensures IsExhausted(p, attempts) || RetryAt(p, attempts, now, delay) != NEVER
  {
    CapHolds(p, attempts, attempts);
    MillisMonotone(delay, p.cap);
  }

  lemma BudgetRefuse(c: Config, s: Sys, i: nat, now: U64, delay: Duration)
    requires Budget(c, s) && Enabled(c, s, Refuse(i, now, delay)) && Unattended(c, s, Refuse(i, now, delay))
    ensures Budget(c, Do(c, s, Refuse(i, now, delay)))
  {
    hide Potential, ExponentialDelay, WithinBudget, SpanLimit, RetryAt;
    var s' := Do(c, s, Refuse(i, now, delay));
    var attempts := Outbox.SaturatingIncrement(s.tasks[i].event.attempts);
    RefusalStamped(c.policy, attempts, now, delay);
    assert IsExhausted(c.policy, attempts) ==> RetryAt(c.policy, attempts, now, delay) == NEVER by {
      ParksExactlyWhen(c.policy, attempts, now, delay);
    }
    forall t | t in s'.tasks ensures Fresh(c.policy, s, t) {
      var j :| 0 <= j < |s'.tasks| && s'.tasks[j] == t;
      assert s.tasks[j] in s.tasks && Fresh(c.policy, s, s.tasks[j]);
    }
    BudgetSameAccounts(c, s, s');
  }

  lemma {:induction false} SpanMonotone(p: Policy, a: nat, b: nat)
    requires a <= b
    ensures Span(p, a) <= Span(p, b)
  {
    hide ExponentialDelay;
    if a < b {
      SpanMonotone(p, a, b - 1);
    }
  }

  // What a recorded mark does to the event's own entry.
  lemma MarkedEntry(c: Config, s: Sys, t: Task, diagnostic: Bytes)
    requires Budget(c, s) && t in s.tasks && (t.phase.Succeeded? || t.phase.Failed?) && t.event.id in s.store
    ensures var s', id, max := Marked(s, t, diagnostic), t.event.id, c.policy.maxAttempts;
      && id in s'.store && s'.store == s.store[id := s'.store[id]]
      && WithinBudget(c.policy, s'.store[id])
      && Waited(s'.log, id) <= SpanLimit(c.policy, s'.store[id])
      && Left(s'.store, max, id) < Left(s.store, max, id)
  {
    hide Potential, ExponentialDelay;
    var id, p := t.event.id, c.policy;
    assert Fresh(p, s, t) && WithinBudget(p, s.store[id]) && Waited(s.log, id) <= SpanLimit(p, s.store[id]);
    var a := s.store[id].event.attempts;
    SpanMonotone(p, a, p.maxAttempts - 1);
  }

  lemma BudgetMarked(c: Config, s: Sys, i: nat, diagnostic: Bytes)
    requires Control(c, s) && Budget(c, s)
    requires i < |s.tasks| && (s.tasks[i].phase.Succeeded? || s.tasks[i].phase.Failed?)
    ensures Budget(c, Moved(Marked(s, s.tasks[i], diagnostic), i, Finished))
  {
    hide Potential, Left, WithinBudget, SpanLimit, ExponentialDelay;
    var t := s.tasks[i];
    assert t in s.tasks && Fresh(c.policy, s, t);
    var id, max := t.event.id, c.policy.maxAttempts;
    var m := Marked(s, t, diagnostic);
    var s' := Moved(m, i, Finished);
    if id in s.store {
      MarkedEntry(c, s, t, diagnostic);
      PotentialPut(s.store, max, id, m.store[id]);
      MarkedTasksFresh(c, s, i, m);
      forall x | x in s'.store ensures WithinBudget(c.policy, s'.store[x]) && Waited(s'.log, x) <= SpanLimit(c.policy, s'.store[x]) {
        assert x != id ==> s'.store[x] == s.store[x] && Waited(m.log, x) == Waited(s.log, x);
      }
    } else {
      FreshMoved(c, s, i, Finished);
      BudgetSameAccounts(c, s, s');
    }
  }

  lemma MarkedTasksFresh(c: Config, s: Sys, i: nat, m: Sys)
    requires DistinctIds(s.tasks) && (forall t | t in s.tasks :: Fresh(c.policy, s, t)) && i < |s.tasks|
    requires s.tasks[i].event.id in s.store && s.tasks[i].event.id in m.store
    requires m.tasks == s.tasks && m.letters == s.letters
    requires m.store == s.store[s.tasks[i].event.id := m.store[s.tasks[i].event.id]]
    ensures forall t | t in Moved(m, i, Finished).tasks :: Fresh(c.policy, Moved(m, i, Finished), t)
  {
    hide ExponentialDelay;
    var s' := Moved(m, i, Finished);
    forall t | t in s'.tasks ensures Fresh(c.policy, s', t) {
      var j :| 0 <= j < |s'.tasks| && s'.tasks[j] == t;
      assert s.tasks[j] in s.tasks && Fresh(c.policy, s, s.tasks[j]);
      assert j < i ==> s.tasks[j].event.id != s.tasks[i].event.id;
      assert i < j ==> s.tasks[i].event.id != s.tasks[j].event.id;
    }
  }

  lemma BudgetMark(c: Config, s: Sys, i: nat, recorded: bool, diagnostic: Bytes)
    requires Control(c, s) && Budget(c, s) && Enabled(c, s, Mark(i, recorded, diagnostic))
    ensures Budget(c, Do(c, s, Mark(i, recorded, diagnostic)))
  {
    hide Budget, Fresh, Control;
    var s' := Do(c, s, Mark(i, recorded, diagnostic));
    if recorded {
      BudgetMarked(c, s, i, diagnostic);
      BudgetPermits(c, Moved(Marked(s, s.tasks[i], diagnostic), i, Finished), s');
    } else {
      BudgetLostMark(c, s, i, diagnostic);
    }
  }

  lemma BudgetPermits(c: Config, a: Sys, b: Sys)
    requires Budget(c, a) && SameAccounts(a, b) && a.tasks == b.tasks
    ensures Budget(c, b)
  {
    hide Fresh, WithinBudget, SpanLimit;
    BudgetSameAccounts(c, a, b);
  }

  lemma BudgetLostMark(c: Config, s: Sys, i: nat, diagnostic: Bytes)
    requires Budget(c, s) && Enabled(c, s, Mark(i, false, diagnostic))
    ensures Budget(c, Do(c, s, Mark(i, false, diagnostic)))
  {
    hide Fresh, WithinBudget, SpanLimit;
    FreshMoved(c, s, i, Finished);
    BudgetSameAccounts(c, s, Do(c, s, Mark(i, false, diagnostic)));
  }

  lemma BudgetDeadLetter(c: Config, s: Sys, event: OutboxEvent, completes: bool)
    requires Budget(c, s)
    ensures Budget(c, Do(c, s, DeadLetter(event, completes)))
  {
    hide Potential, Left, WithinBudget, SpanLimit, ExponentialDelay;
    var s' := Do(c, s, DeadLetter(event, completes));
    PotentialDelete(s.store, c.policy.maxAttempts, event.id);
    forall t | t in s'.tasks ensures Fresh(c.policy, s', t) {
      assert Fresh(c.policy, s, t);
    }
  }

  lemma BudgetElsewhere(c: Config, s: Sys, step: Step)
    requires Budget(c, s) && Enabled(c, s, step) && Unattended(c, s, step)
    requires !step.Append? && !step.Tick? && !step.Refuse? && !step.Mark? && !step.DeadLetter?
    ensures Budget(c, Do(c, s, step))
  {
    hide Fresh, WithinBudget, SpanLimit, Potential, RetryAt, ExponentialDelay, Awaiting;
    var s' := Do(c, s, step);
    match step
    case Acquire(i) => FreshMoved(c, s, i, Admitted); BudgetSameAccounts(c, s, s');
    case Pause(i) => FreshMoved(c, s, i, Finished); BudgetSameAccounts(c, s, s');
    case Send(i) => FreshMoved(c, s, i, Sending); BudgetSameAccounts(c, s, s');
    case Accept(i) => FreshMoved(c, s, i, Succeeded); BudgetSameAccounts(c, s, s');
    case _ => BudgetSameAccounts(c, s, s');
  }

  lemma BudgetStep(c: Config, s: Sys, step: Step)
    requires Control(c, s) && Budget(c, s) && Enabled(c, s, step) && Unattended(c, s, step)
    ensures Budget(c, Do(c, s, step))
  {
    hide Budget, Control, Do;
    match step
    case Append(event) => BudgetAppend(c, s, event);
    case Tick(now, hiccup) => BudgetTick(c, s, now, hiccup);
    case Refuse(i, now, delay) => BudgetRefuse(c, s, i, now, delay);
    case Mark(i, recorded, diagnostic) => BudgetMark(c, s, i, recorded, diagnostic);
    case DeadLetter(event, completes) => BudgetDeadLetter(c, s, event, completes);
    case _ => BudgetElsewhere(c, s, step);
  }

  lemma InitBudget(c: Config)
    requires c.policy.maxAttempts >= 1
    ensures Budget(c, Init(c))
  {
    assert Potential(map[], c.policy.maxAttempts) == 0;
  }

  lemma {:induction false} BudgetRun(c: Config, steps: seq<Step>)
    requires ValidConfig(c) && c.policy.maxAttempts >= 1
    requires Legal(c, steps) && UnattendedRun(c, steps)
    ensures Budget(c, Reached(c, steps))
    decreases |steps|
  {
    hide Do, Enabled, Control, Budget, Unattended;
    if steps == [] {
      InitBudget(c);
    } else {
      var before := steps[..|steps| - 1];
      EveryRun(c, before);
      BudgetRun(c, before);
      BudgetStep(c, Reached(c, before), steps[|steps| - 1]);
    }
  }
}
