/** What holds in every reachable state of the dispatch loop: the barrier, the
    permits, distinct in-flight ids, and conservation of sends. */
module DispatchControl {
  import opened Base
  import opened EventIds
  import opened Events
  import opened Backoff
  import opened Polling
  import opened Dispatch
  import Outbox

  // --- counting over the batch -----------------------------------------------------------

  lemma AddToBoth(x: multiset<EventId>, a: multiset<EventId>, p: multiset<EventId>, b: multiset<EventId>, q: multiset<EventId>)
    requires a + p == b + q
    ensures x + a + p == x + b + q
  {
    assert x + a + p == x + (a + p) == x + (b + q);
  }

  lemma AwaitingHead(ts: seq<Task>, i: nat, t: Task)
    requires 0 < i < |ts|
    ensures Awaiting(ts) == One(ts[0]) + Awaiting(ts[1..])
    ensures Awaiting(ts[i := t]) == One(ts[0]) + Awaiting(ts[1..][i - 1 := t])
  {
    hide One;
    assert ts[i := t][1..] == ts[1..][i - 1 := t];
  }

  lemma {:induction false} AwaitingUpdate(ts: seq<Task>, i: nat, t: Task)
    requires i < |ts|
    ensures Awaiting(ts[i := t]) + One(ts[i]) == Awaiting(ts) + One(t)
  {
    if i == 0 {
      hide One;
      assert ts[0 := t][1..] == ts[1..];
      assert One(t) + Awaiting(ts[1..]) + One(ts[0]) == One(ts[0]) + Awaiting(ts[1..]) + One(t);
    } else {
      hide Awaiting, One;
      AwaitingUpdate(ts[1..], i - 1, t);
      AwaitingHead(ts, i, t);
      AddToBoth(One(ts[0]), Awaiting(ts[1..][i - 1 := t]), One(ts[i]), Awaiting(ts[1..]), One(t));
    }
  }

  lemma {:induction false} AwaitingRemove(ts: seq<Task>, i: nat)
    requires i < |ts|
    ensures Awaiting(ts[..i] + ts[i + 1..]) + One(ts[i]) == Awaiting(ts)
  {
    var rest := ts[..i] + ts[i + 1..];
    if i == 0 {
      assert rest == ts[1..];
    } else {
      AwaitingRemove(ts[1..], i - 1);
      assert rest[1..] == ts[1..][..i - 1] + ts[1..][i..];
    }
  }

  lemma {:induction false} HoldersUpdate(ts: seq<Task>, i: nat, t: Task)
    requires i < |ts|
    ensures Holders(ts[i := t]) + Weight(ts[i]) == Holders(ts) + Weight(t)
  {
    if i == 0 {
      assert ts[0 := t][1..] == ts[1..];
    } else {
      HoldersUpdate(ts[1..], i - 1, t);
      assert ts[i := t][1..] == ts[1..][i - 1 := t];
    }
  }

  lemma {:induction false} HoldersRemove(ts: seq<Task>, i: nat)
    requires i < |ts|
    ensures Holders(ts[..i] + ts[i + 1..]) + Weight(ts[i]) == Holders(ts)
  {
    var rest := ts[..i] + ts[i + 1..];
    if i == 0 {
      assert rest == ts[1..];
    } else {
      HoldersRemove(ts[1..], i - 1);
      assert rest[1..] == ts[1..][..i - 1] + ts[1..][i..];
    }
  }

  lemma {:induction false} SpawnCounts(events: seq<OutboxEvent>)
    ensures Awaiting(Spawn(events)) == multiset{} && Holders(Spawn(events)) == 0
  {
    if events != [] {
      SpawnCounts(events[1..]);
      assert Spawn(events)[1..] == Spawn(events[1..]);
    }
  }

  // --- the invariant --------------------------------------------------------------------

  ghost predicate DistinctIds(ts: seq<Task>) {
    forall i, j | 0 <= i < j < |ts| :: ts[i].event.id != ts[j].event.id
  }

  ghost predicate Control(c: Config, s: Sys) {
    && (s.mode != Draining ==> s.tasks == [])
    && (s.mode == Down ==> s.permits == 0)
    && (s.mode != Down ==> s.permits + Holders(s.tasks) == c.concurrency)
    && DistinctIds(s.tasks)
    && Outbox.Coherent(s.store)
  }

  ghost predicate CadenceHolds(c: Config, s: Sys) {
    && c.batch.min <= s.poller.size <= c.batch.max
    && s.poller.idleTick < IDLE_POLL_DIVISOR
    && (s.poller.idleTick != 0 ==> IsIdleParked(c.batch, s.poller.streak))
  }

  function Settled(log: Log): multiset<EventId> {
    log.failures + log.dispatches + log.lost
  }

  ghost predicate Conserved(s: Sys) {
    s.log.sends == Settled(s.log) + Awaiting(s.tasks)
  }

  predicate TaskStep(step: Step) {
    step.Acquire? || step.Pause? || step.Send? || step.Accept? || step.Refuse? || step.Mark?
  }

  // Every task step moves one task and keeps its event.
  ghost predicate OneTaskMoved(s: Sys, s': Sys, i: nat) {
    i < |s.tasks| && |s'.tasks| == |s.tasks| && s'.tasks[i].event == s.tasks[i].event &&
    s'.tasks == s.tasks[i := s'.tasks[i]]
  }

  function Index(step: Step): nat
    requires TaskStep(step)
  {
    step.i
  }

  lemma TaskStepMovesOne(c: Config, s: Sys, step: Step)
    requires Enabled(c, s, step) && TaskStep(step)
    ensures OneTaskMoved(s, Do(c, s, step), Index(step))
    ensures Do(c, s, step).mode == s.mode && Do(c, s, step).poller == s.poller
    ensures Do(c, s, step).permits + Weight(Do(c, s, step).tasks[Index(step)]) == s.permits + Weight(s.tasks[Index(step)])
  {
    hide Outbox.MarkFailed, Outbox.MarkDispatched, RetryAt, ExponentialDelay;
  }

  lemma StoreStaysCoherent(c: Config, s: Sys, step: Step)
    requires Enabled(c, s, step) && Outbox.Coherent(s.store)
    ensures Outbox.Coherent(Do(c, s, step).store)
  {
    hide Spawn, Awaiting, RetryAt, Outbox.FetchDue, Polling.Tick, ExponentialDelay;
  }

  lemma FetchedTasksDistinct(s: Outbox.Store, limit: nat, now: U64)
    requires Outbox.Coherent(s)
    ensures DistinctIds(Spawn(Outbox.FetchDue(s, limit, now)))
  {
    hide Outbox.FetchDue;
    Outbox.FetchReturnsDueInOrder(s, limit, now);
  }

  lemma ControlStep(c: Config, s: Sys, step: Step)
    requires ValidConfig(c) && Control(c, s) && Enabled(c, s, step)
    ensures Control(c, Do(c, s, step))
  {
    StoreStaysCoherent(c, s, step);
    if TaskStep(step) {
      ControlTaskStep(c, s, step);
    } else {
      ControlLoopStep(c, s, step);
    }
  }

  lemma ControlTaskStep(c: Config, s: Sys, step: Step)
    requires Control(c, s) && Enabled(c, s, step) && TaskStep(step)
    requires Outbox.Coherent(Do(c, s, step).store)
    ensures Control(c, Do(c, s, step))
  {
    hide Do, Outbox.Coherent, Holders, Weight, Enabled;
    TaskStepMovesOne(c, s, step);
    var s' := Do(c, s, step);
    HoldersUpdate(s.tasks, Index(step), s'.tasks[Index(step)]);
    assert s.mode == Draining;
  }

  lemma ControlLoopStep(c: Config, s: Sys, step: Step)
    requires ValidConfig(c) && Control(c, s) && Enabled(c, s, step) && !TaskStep(step)
    requires Outbox.Coherent(Do(c, s, step).store)
    ensures Control(c, Do(c, s, step))
  {
    hide Outbox.Coherent;
    match step
    case Tick(now, hiccup) => ControlTick(c, s, now, hiccup);
    case Join(i) => ControlJoin(c, s, i);
    case _ => ControlElsewhere(c, s, step);
  }

  lemma ControlTick(c: Config, s: Sys, now: U64, hiccup: bool)
    requires Control(c, s) && s.mode == Idle
    ensures Control(c, Do(c, s, Tick(now, hiccup)))
  {
    hide Outbox.Coherent, Outbox.FetchDue, Polling.Tick, Fetches, Spawn;
    FetchedTasksDistinct(s.store, s.poller.size, now);
    SpawnCounts(Outbox.FetchDue(s.store, s.poller.size, now));
    assert Holders(s.tasks) == 0;
  }

  lemma ControlJoin(c: Config, s: Sys, i: nat)
    requires Control(c, s) && At(s, i, Finished)
    ensures Control(c, Do(c, s, Join(i)))
  {
    hide Outbox.Coherent, Holders;
    HoldersRemove(s.tasks, i);
    assert s.mode == Draining;
  }

  lemma ControlElsewhere(c: Config, s: Sys, step: Step)
    requires ValidConfig(c) && Control(c, s) && Enabled(c, s, step) && !TaskStep(step)
    requires !step.Tick? && !step.Join? && Outbox.Coherent(Do(c, s, step).store)
    ensures Control(c, Do(c, s, step))
  {
    hide Outbox.Coherent, Outbox.MarkFailed, Outbox.Append, Awaiting;
    assert Holders([]) == 0;
  }

  lemma CadenceStep(c: Config, s: Sys, step: Step)
    requires ValidConfig(c) && CadenceHolds(c, s) && Enabled(c, s, step)
    ensures CadenceHolds(c, Do(c, s, step))
  {
    hide Outbox.FetchDue, Outbox.MarkFailed, Outbox.MarkDispatched, Outbox.Append, RetryAt, Spawn;
  }

  lemma ConservedStep(c: Config, s: Sys, step: Step)
    requires Control(c, s) && Conserved(s) && Enabled(c, s, step)
    ensures Conserved(Do(c, s, step))
  {
    if TaskStep(step) {
      ConservedTaskStep(c, s, step);
    } else {
      ConservedLoopStep(c, s, step);
    }
  }

  // A task step settles, or starts, the send of its own event.
  ghost predicate CountsMove(s: Sys, s': Sys, i: nat) {
    i < |s.tasks| && i < |s'.tasks| &&
    Settled(s'.log) + One(s'.tasks[i]) + s.log.sends == Settled(s.log) + One(s.tasks[i]) + s'.log.sends
  }

  lemma TaskStepCounts(c: Config, s: Sys, step: Step)
    requires Enabled(c, s, step) && TaskStep(step)
    ensures CountsMove(s, Do(c, s, step), Index(step))
  {
    hide Do, Enabled, Settled, One;
    match step
    case Acquire(_) => AdmissionCounts(c, s, step);
    case Pause(_) => AdmissionCounts(c, s, step);
    case Send(i) => SendCounts(c, s, i);
    case Mark(i, recorded, diagnostic) => MarkCounts(c, s, i, recorded, diagnostic);
    case _ => AnswerCounts(c, s, step);
  }

  lemma AdmissionCounts(c: Config, s: Sys, step: Step)
    requires Enabled(c, s, step) && (step.Acquire? || step.Pause?)
    ensures CountsMove(s, Do(c, s, step), step.i)
  {
    hide Settled;
  }

  // Only these three fields settle a send.
  lemma SameSettled(a: Log, b: Log)
    requires a.failures == b.failures && a.dispatches == b.dispatches && a.lost == b.lost
    ensures Settled(a) == Settled(b)
  {}

  lemma SendCounts(c: Config, s: Sys, i: nat)
    requires Enabled(c, s, Send(i))
    ensures CountsMove(s, Do(c, s, Send(i)), i)
  {
    hide Settled;
    var done, id := Settled(s.log), multiset{s.tasks[i].event.id};
    SameSettled(s.log, Do(c, s, Send(i)).log);
    assert done + id + s.log.sends == done + multiset{} + (s.log.sends + id);
  }

  lemma AnswerCounts(c: Config, s: Sys, step: Step)
    requires Enabled(c, s, step) && (step.Accept? || step.Refuse?)
    ensures CountsMove(s, Do(c, s, step), step.i)
  {
    hide Settled, RetryAt, ExponentialDelay;
    SameSettled(s.log, Do(c, s, step).log);
  }

  lemma MarkCounts(c: Config, s: Sys, i: nat, recorded: bool, diagnostic: Bytes)
    requires Enabled(c, s, Mark(i, recorded, diagnostic))
    ensures CountsMove(s, Do(c, s, Mark(i, recorded, diagnostic)), i)
  {
    hide Settled, One, Do;
    var s', id := Do(c, s, Mark(i, recorded, diagnostic)), multiset{s.tasks[i].event.id};
    MarkSettles(c, s, i, recorded, diagnostic);
    assert Settled(s.log) + id + multiset{} + s.log.sends == Settled(s.log) + id + s.log.sends;
  }

  lemma MarkSettles(c: Config, s: Sys, i: nat, recorded: bool, diagnostic: Bytes)
    requires Enabled(c, s, Mark(i, recorded, diagnostic))
    ensures var s' := Do(c, s, Mark(i, recorded, diagnostic));
      s'.log.sends == s.log.sends && i < |s'.tasks| && One(s'.tasks[i]) == multiset{} &&
      One(s.tasks[i]) == multiset{s.tasks[i].event.id} &&
      Settled(s'.log) == Settled(s.log) + multiset{s.tasks[i].event.id}
  {
    hide Outbox.MarkFailed, Outbox.MarkDispatched, Waited;
    MarkedSettles(s, s.tasks[i], diagnostic);
    SettleOne(s.log.failures, s.log.dispatches, s.log.lost, multiset{s.tasks[i].event.id});
  }

  lemma MarkedSettles(s: Sys, t: Task, diagnostic: Bytes)
    requires t.phase.Succeeded? || t.phase.Failed?
    ensures Settled(Marked(s, t, diagnostic).log) == Settled(s.log) + multiset{t.event.id}
  {
    hide Outbox.MarkFailed, Outbox.MarkDispatched, Waited;
    SettleOne(s.log.failures, s.log.dispatches, s.log.lost, multiset{t.event.id});
  }

  lemma SettleOne(f: multiset<EventId>, d: multiset<EventId>, l: multiset<EventId>, x: multiset<EventId>)
    ensures (f + x) + d + l == f + d + l + x
    ensures f + (d + x) + l == f + d + l + x
    ensures f + d + (l + x) == f + d + l + x
  {}

  lemma Rebalance(f: multiset<EventId>, a: multiset<EventId>, o: multiset<EventId>, n: multiset<EventId>,
                  f': multiset<EventId>, a': multiset<EventId>, o': multiset<EventId>, n': multiset<EventId>)
    requires n == f + a && f' + o' + n == f + o + n' && a' + o == a + o'
    ensures n' == f' + a'
  {
    forall x: EventId ensures n'[x] == (f' + a')[x] {
      assert (f' + o' + n)[x] == (f + o + n')[x] && (a' + o)[x] == (a + o')[x];
    }
  }

  lemma ConservedTaskStep(c: Config, s: Sys, step: Step)
    requires Conserved(s) && Enabled(c, s, step) && TaskStep(step)
    ensures Conserved(Do(c, s, step))
  {
    hide Do, Awaiting, One, Enabled, Settled;
    var s', i := Do(c, s, step), Index(step);
    TaskStepMovesOne(c, s, step);
    TaskStepCounts(c, s, step);
    AwaitingUpdate(s.tasks, i, s'.tasks[i]);
    Rebalance(Settled(s.log), Awaiting(s.tasks), One(s.tasks[i]), s.log.sends,
              Settled(s'.log), Awaiting(s'.tasks), One(s'.tasks[i]), s'.log.sends);
  }

  lemma ConservedLoopStep(c: Config, s: Sys, step: Step)
    requires Control(c, s) && Conserved(s) && Enabled(c, s, step) && !TaskStep(step)
    ensures Conserved(Do(c, s, step))
  {
    match step
    case Tick(now, hiccup) => ConservedTick(c, s, now, hiccup);
    case Join(i) => ConservedJoin(c, s, i);
    case Crash => ConservedCrash(c, s);
    case _ => ConservedElsewhere(c, s, step);
  }

  lemma ConservedTick(c: Config, s: Sys, now: U64, hiccup: bool)
    requires s.mode == Idle && s.tasks == [] && Conserved(s)
    ensures Conserved(Do(c, s, Tick(now, hiccup)))
  {
    hide Outbox.FetchDue, Polling.Tick, Fetches, Spawn;
    SpawnCounts(Outbox.FetchDue(s.store, s.poller.size, now));
  }

  lemma ConservedJoin(c: Config, s: Sys, i: nat)
    requires At(s, i, Finished) && Conserved(s)
    ensures Conserved(Do(c, s, Join(i)))
  {
    hide Awaiting;
    AwaitingRemove(s.tasks, i);
    assert One(s.tasks[i]) == multiset{};
    assert Awaiting(Do(c, s, Join(i)).tasks) == Awaiting(s.tasks);
  }

  lemma ConservedCrash(c: Config, s: Sys)
    requires s.mode != Down && Conserved(s)
    ensures Conserved(Do(c, s, Crash))
  {
    assert Awaiting([]) == multiset{};
  }

  lemma ConservedElsewhere(c: Config, s: Sys, step: Step)
    requires Conserved(s) && Enabled(c, s, step) && !TaskStep(step)
    requires !step.Tick? && !step.Join? && !step.Crash?
    ensures Conserved(Do(c, s, step))
  {
    hide Outbox.MarkFailed, Outbox.Append, Awaiting;
  }

  // --- every reachable state ------------------------------------------------------------------

  lemma {:induction false} EveryRun(c: Config, steps: seq<Step>)
    requires ValidConfig(c) && Legal(c, steps)
    ensures Control(c, Reached(c, steps)) && CadenceHolds(c, Reached(c, steps)) && Conserved(Reached(c, steps))
    decreases |steps|
  {
    hide Do, Enabled, Control, CadenceHolds, Conserved;
    if steps == [] {
      InitHolds(c);
    } else {
      var before, step := steps[..|steps| - 1], steps[|steps| - 1];
      EveryRun(c, before);
      var s := Reached(c, before);
      ControlStep(c, s, step);
      CadenceStep(c, s, step);
      ConservedStep(c, s, step);
    }
  }

  lemma InitHolds(c: Config)
    requires ValidConfig(c)
    ensures Control(c, Init(c)) && CadenceHolds(c, Init(c)) && Conserved(Init(c))
  {}

  // --- shutdown ---------------------------------------------------------------------------

  /** A shutdown was asked for at step `k` and no restart came since. */
  ghost predicate AskedAt(steps: seq<Step>, k: nat) {
    k < |steps| && steps[k].Shutdown? && forall n | k < n < |steps| :: !steps[n].Restart?
  }

  lemma ShutdownStep(c: Config, s: Sys, step: Step)
    requires Enabled(c, s, step)
    ensures Do(c, s, step).shutdown <==> step.Shutdown? || (s.shutdown && !step.Restart?)
    ensures Do(c, s, step).mode == Stopped ==> step.Stop? || s.mode == Stopped
    ensures step.Stop? ==> s.shutdown && s.mode == Idle && Do(c, s, step).mode == Stopped
    ensures step.Restart? ==> Do(c, s, step).mode == Idle && Do(c, s, step).poller == Poller(c.batch.min, 0, 0)
  {
    hide RetryAt, ExponentialDelay, Outbox.FetchDue, Polling.Tick, Outbox.MarkFailed, Outbox.MarkDispatched, Awaiting, Spawn,
      Outbox.Append, ValidTopic;
  }

  /** The loop stops between polls only, with no task in flight, and only when a
      shutdown was asked for since it last started; a restart starts afresh. */
  lemma {:induction false} StopsOnlyWhenAsked(c: Config, steps: seq<Step>)
    requires ValidConfig(c) && Legal(c, steps)
    ensures Reached(c, steps).shutdown <==> exists k: nat :: AskedAt(steps, k)
    ensures Reached(c, steps).mode == Stopped ==> Reached(c, steps).shutdown && Reached(c, steps).tasks == []
    decreases |steps|
  {
    EveryRun(c, steps);
    if steps != [] {
      hide Do, Enabled;
      var n := |steps| - 1;
      var before, step := steps[..n], steps[n];
      StopsOnlyWhenAsked(c, before);
      ShutdownStep(c, Reached(c, before), step);
      if step.Shutdown? {
        assert AskedAt(steps, n);
      } else {
        forall k: nat ensures AskedAt(steps, k) <==> AskedAt(before, k) && !step.Restart? {
          AskedBefore(steps, k);
        }
        if Reached(c, before).shutdown && !step.Restart? {
          var k: nat :| AskedAt(before, k);
          assert AskedAt(steps, k);
        }
      }
    }
  }

  lemma AskedBefore(steps: seq<Step>, k: nat)
    requires steps != [] && !steps[|steps| - 1].Shutdown?
    ensures AskedAt(steps, k) <==> AskedAt(steps[..|steps| - 1], k) && !steps[|steps| - 1].Restart?
  {
    var before := steps[..|steps| - 1];
    assert forall n | 0 <= n < |before| :: before[n] == steps[n];
  }

  // --- what a step records -------------------------------------------------------------------

  /** A tick that fetches hands the poller the number of tasks it spawned; one that
      does not, or fails, spawns none. */
  lemma TickTellsPoller(c: Config, s: Sys, now: U64, hiccup: bool)
    requires ValidConfig(c) && Control(c, s) && CadenceHolds(c, s) && s.mode == Idle
    ensures var s' := Do(c, s, Tick(now, hiccup));
      var fetches, n := s.poller.streak < c.batch.parkAfter || s.poller.idleTick == 9, |s'.tasks|;
      && s'.store == s.store && s'.log == s.log && s'.permits == s.permits
      && (!fetches || hiccup ==>
            s'.mode == Idle && n == 0 && s'.poller.size == s.poller.size && s'.poller.streak == s.poller.streak)
      && (fetches && !hiccup ==>
            && s'.mode == Draining && n <= s.poller.size
            && s'.poller.size == (if n < s.poller.size then c.batch.min
                                  else if 2 * s.poller.size <= c.batch.max then 2 * s.poller.size else c.batch.max)
            && s'.poller.streak == (if n > 0 then 0 else if s.poller.streak < 0xFFFF_FFFF then s.poller.streak + 1 else s.poller.streak))
  {
    hide Outbox.FetchDue;
    Outbox.FetchReturnsDueInOrder(s.store, s.poller.size, now);
  }

  /** A refusal remembers the retry stamp, and the delay unless it parks. */
  lemma RefusalRemembers(c: Config, s: Sys, i: nat, now: U64, delay: Duration)
    requires Enabled(c, s, Refuse(i, now, delay))
    ensures var t, t' := s.tasks[i], Do(c, s, Refuse(i, now, delay)).tasks[i];
      && t'.event == t.event
      && t'.phase == if t.event.attempts + 1 >= c.policy.maxAttempts then Failed(0xFFFF_FFFF_FFFF_FFFF, 0)
                     else Failed(Min(now + delay / 1_000_000, 0xFFFF_FFFF_FFFF_FFFF), delay)
  {
    hide ExponentialDelay;
  }

  /** The counters the theorems speak of: insertions count the ids an append added,
      outcomes the marks that reached an event of the store, and the waits of an
      event add up the delays of its recorded failures. */
  lemma CountersMean(c: Config, s: Sys, step: Step)
    requires Enabled(c, s, step)
    ensures var a, b := s.log, Do(c, s, step).log;
      && b.insertions == a.insertions + (if step.Append? && step.event.id !in s.store && ValidTopic(step.event.topic) then 1 else 0)
      && (step.Mark? && step.recorded && s.tasks[step.i].event.id in s.store ==>
            var t := s.tasks[step.i];
            && b.outcomes == a.outcomes + 1
            && (t.phase.Failed? ==> Waited(b, t.event.id) == Waited(a, t.event.id) + t.phase.delay)
            && (forall id | id != t.event.id || t.phase.Succeeded? :: Waited(b, id) == Waited(a, id)))
      && (!(step.Mark? && step.recorded && s.tasks[step.i].event.id in s.store) ==>
            b.outcomes == a.outcomes && b.waited == a.waited)
      && b.sends == a.sends + (if step.Send? then multiset{s.tasks[step.i].event.id} else multiset{})
  {
    hide RetryAt, ExponentialDelay, Outbox.FetchDue, Polling.Tick, Outbox.MarkFailed, Outbox.MarkDispatched, Awaiting, Spawn,
      Outbox.Append, ValidTopic;
    assert s.log.sends + multiset{} == s.log.sends;
  }
}
