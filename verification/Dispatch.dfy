/** The dispatch loop as a step system over one outbox store. */
module Dispatch {
  import opened Base
  import opened Utf8
  import opened Truncation
  import opened EventIds
  import opened Events
  import opened Backoff
  import opened Polling
  import opened MemoryStores
  import Outbox

  // --- recording one outcome -----------------------------------------------------------

  /** What the breaker reports for one event. */
  datatype Outcome =
    | Delivered
    | CircuitOpen
    | Rejected
    | Failure(error: Str)
    | Other(error: Str)

  function SaturatingAdd(a: U64, b: nat): U64 {
    Min(a + b, U64_MAX)
  }

  /** The stamp recorded with the failure that brings the count to `attempts`. */
  function RetryAt(p: Policy, attempts: U32, now: U64, delay: Duration): U64 {
    if IsExhausted(p, attempts) then NEVER else SaturatingAdd(now, Millis(delay))
  }

  /** The store contract after one outcome. */
  function Recorded(s: Outbox.Store, p: Policy, event: OutboxEvent, outcome: Outcome, now: U64, delay: Duration): Outbox.Store {
    match outcome
    case Delivered => Outbox.MarkDispatched(s, event.id)
    case CircuitOpen => s
    case Rejected => s
    case Failure(error) => RecordedFailure(s, p, event, error, now, delay)
    case Other(error) => RecordedFailure(s, p, event, error, now, delay)
  }

  function RecordedFailure(s: Outbox.Store, p: Policy, event: OutboxEvent, error: Str, now: U64, delay: Duration): Outbox.Store {
    Outbox.MarkFailed(s, event.id, Truncated(error, MAX_ERROR_BYTES),
                      RetryAt(p, Outbox.SaturatingIncrement(event.attempts), now, delay))
  }

  /** The tail of `process`: record what the breaker reported. `jitter` is the
      drawn delay, used only when the budget is not exhausted. */
  method Process(store: MemoryStore, p: Policy, event: OutboxEvent, outcome: Outcome, now: U64, jitter: Duration)
    requires store.Valid()
    modifies store
    ensures store.Valid()
    ensures store.View() ==
      if outcome.Delivered? then old(store.View())[event.id := Outbox.Dispatched]
      else Recorded(old(store.View()), p, event, outcome, now, jitter)
    ensures event.id in old(store.View()) ==>
      store.View() == Recorded(old(store.View()), p, event, outcome, now, jitter)
    ensures outcome.CircuitOpen? || outcome.Rejected? ==> store.View() == old(store.View())
    ensures outcome.Failure? || outcome.Other? ==>
      FailureRecorded(old(store.View()), store.View(), p, event, outcome.error, now, jitter)
  {
    hide Truncated, MemoryStore.Valid, FailureRecorded;
    match outcome
    case Delivered => store.MarkDispatched(event.id);
    case CircuitOpen =>
    case Rejected =>
    case Failure(error) => RecordFailure(store, p, event, error, now, jitter);
    case Other(error) => RecordFailure(store, p, event, error, now, jitter);
  }

  // The two failure branches of `process` share this body.
  method RecordFailure(store: MemoryStore, p: Policy, event: OutboxEvent, error: Str, now: U64, jitter: Duration)
    requires store.Valid()
    modifies store
    ensures store.Valid()
    ensures store.View() == RecordedFailure(old(store.View()), p, event, error, now, jitter)
    ensures FailureRecorded(old(store.View()), store.View(), p, event, error, now, jitter)
  {
    hide Truncated, MemoryStore.Valid, MemoryStore.View, Outbox.FailedEvent;
    var retryAt := RetryStamp(p, event, now, jitter);
    store.MarkFailed(event.id, error, retryAt);
  }

  /** Only the event's own live entry changes: one attempt more, the error cut to
      1024 bytes, and parked if the failure spends the budget, otherwise due after
      the delay, at the latest when time ends. */
  ghost predicate FailureRecorded(before: Outbox.Store, after: Outbox.Store, p: Policy, event: OutboxEvent, error: Str,
                                  now: U64, jitter: Duration)
  {
    && after.Keys == before.Keys
    && (forall id | id in before && (id != event.id || before[id].Dispatched?) :: after[id] == before[id])
    && (event.id in before && before[event.id].Live? ==>
          var was := before[event.id].event;
          after[event.id] == Outbox.Live(
            if event.attempts + 1 >= p.maxAttempts then 0xFFFF_FFFF_FFFF_FFFF
            else Min(now + jitter / 1_000_000, 0xFFFF_FFFF_FFFF_FFFF),
            was.(attempts := if was.attempts == 0xFFFF_FFFF then was.attempts else was.attempts + 1,
                 lastError := Some(Truncated(error, 1024)))))
  }

  /** The stamp to record with a failure: it parks exactly when the budget is
      spent or the clock runs out, and otherwise lies the drawn delay after now,
      hence within the schedule's bound. */
  method RetryStamp(p: Policy, event: OutboxEvent, now: U64, jitter: Duration) returns (retryAt: U64)
    ensures retryAt == NEVER <==> event.attempts + 1 >= p.maxAttempts || now + Millis(jitter) >= NEVER
    ensures retryAt != NEVER ==> retryAt - now == Millis(jitter)
    ensures retryAt != NEVER && jitter <= ExponentialDelay(p, event.attempts + 1) ==>
      now <= retryAt <= now + Millis(ExponentialDelay(p, event.attempts + 1))
  {
    hide ExponentialDelay;
    var attempts := Outbox.SaturatingIncrement(event.attempts);
    if IsExhausted(p, attempts) {
      retryAt := NEVER;
    } else {
      retryAt := SaturatingAdd(now, Millis(jitter));
      ParksExactlyWhen(p, attempts, now, jitter);
    }
  }

  /** A failure parks its event if and only if the budget is exhausted or the
      clock plus the delay reaches the end of 64-bit time; otherwise the retry
      falls within the schedule's bound of now. */
  lemma ParksExactlyWhen(p: Policy, attempts: U32, now: U64, delay: Duration)
    ensures RetryAt(p, attempts, now, delay) ==
      if attempts >= p.maxAttempts then 0xFFFF_FFFF_FFFF_FFFF else Min(now + delay / 1_000_000, 0xFFFF_FFFF_FFFF_FFFF)
    ensures RetryAt(p, attempts, now, delay) == NEVER <==> IsExhausted(p, attempts) || now + Millis(delay) >= NEVER
    ensures RetryAt(p, attempts, now, delay) != NEVER && delay <= ExponentialDelay(p, attempts) ==>
      now <= RetryAt(p, attempts, now, delay) <= now + Millis(ExponentialDelay(p, attempts))
  {
    if delay <= ExponentialDelay(p, attempts) {
      MillisMonotone(delay, ExponentialDelay(p, attempts));
    }
  }

  lemma MillisMonotone(a: Duration, b: Duration)
    requires a <= b
    ensures Millis(a) <= Millis(b)
  {}

  // --- the system ---------------------------------------------------------------------

  datatype Phase =
    | Waiting                                       // spawned, no permit yet
    | Admitted                                      // holds a permit, breaker not asked
    | Sending                                       // the sender is running
    | Succeeded                                     // delivered, mark_dispatched to come
    | Failed(retryAt: U64, delay: Duration)         // refused, mark_failed to come
    | Finished                                      // returned, permit given back

  /** A spawned task and the envelope snapshot it was given. */
  datatype Task = Task(event: OutboxEvent, phase: Phase)

  datatype Config = Config(concurrency: nat, batch: FetchBatch, policy: Policy)

  datatype Mode = Idle | Draining | Stopped | Down

  /** What the producer handed over, without delivery history. */
  datatype Sent = Sent(id: EventId, topic: Bytes, payload: Bytes, headers: Headers, createdAt: U64)

  function Content(e: OutboxEvent): Sent {
    Sent(e.id, e.topic, e.payload, e.headers, e.createdAt)
  }

  /** What happened so far. Per-event counts are multisets of ids. */
  datatype Log = Log(
    appended: set<Sent>,
    insertions: nat,
    accepted: set<EventId>,
    sends: multiset<EventId>,
    failures: multiset<EventId>,
    dispatches: multiset<EventId>,
    lost: multiset<EventId>,
    outcomes: nat,
    waited: map<EventId, nat>)

  /** `outcomes` counts recorded marks that found their event; `waited` sums the
      delays scheduled for an event. */
  datatype Sys = Sys(
    store: Outbox.Store,
    letters: set<EventId>,
    mode: Mode,
    shutdown: bool,
    tasks: seq<Task>,
    permits: nat,
    poller: Poller,
    log: Log)

  datatype Step =
    | Append(event: OutboxEvent)
    | Tick(now: U64, hiccup: bool)
    | Acquire(i: nat)
    | Pause(i: nat)
    | Send(i: nat)
    | Accept(i: nat)
    | Refuse(i: nat, now: U64, delay: Duration)
    | Mark(i: nat, recorded: bool, diagnostic: Bytes)
    | Join(i: nat)
    | Drained
    | Shutdown
    | Stop
    | Crash
    | Restart
    | Reschedule(id: EventId, at: U64, diagnostic: Bytes)
    | DeadLetter(event: OutboxEvent, completes: bool)

  predicate ValidConfig(c: Config) {
    c.concurrency >= 1 && InRange(c.batch)
  }

  function Init(c: Config): Sys {
    Sys(map[], {}, Idle, false, [], c.concurrency, Start(c.batch),
        Log({}, 0, {}, multiset{}, multiset{}, multiset{}, multiset{}, 0, map[]))
  }

  predicate At(s: Sys, i: nat, phase: Phase) {
    i < |s.tasks| && s.tasks[i].phase == phase
  }

  predicate Enabled(c: Config, s: Sys, step: Step) {
    match step
    case Append(_) => true
    case Tick(_, _) => s.mode == Idle
    case Acquire(i) => At(s, i, Waiting) && s.permits > 0
    case Pause(i) => At(s, i, Admitted)
    case Send(i) => At(s, i, Admitted)
    case Accept(i) => At(s, i, Sending)
    case Refuse(i, _, delay) =>
      At(s, i, Sending) &&
      delay <= ExponentialDelay(c.policy, Outbox.SaturatingIncrement(s.tasks[i].event.attempts))
    case Mark(i, _, _) => i < |s.tasks| && (s.tasks[i].phase.Succeeded? || s.tasks[i].phase.Failed?)
    case Join(i) => At(s, i, Finished)
    case Drained => s.mode == Draining && s.tasks == []
    case Shutdown => true
    case Stop => s.mode == Idle && s.shutdown
    case Crash => s.mode != Down
    case Restart => s.mode == Down || s.mode == Stopped
    case Reschedule(_, _, _) => true
    case DeadLetter(_, _) => true
  }

  function Spawn(events: seq<OutboxEvent>): (ts: seq<Task>)
    ensures |ts| == |events|
    ensures forall i | 0 <= i < |ts| :: ts[i] == Task(events[i], Waiting)
  {
    if events == [] then [] else [Task(events[0], Waiting)] + Spawn(events[1..])
  }

  predicate AwaitsMark(t: Task) {
    t.phase.Sending? || t.phase.Succeeded? || t.phase.Failed?
  }

  function One(t: Task): multiset<EventId> {
    if AwaitsMark(t) then multiset{t.event.id} else multiset{}
  }

  /** The sends whose mark is still to come, one id per task. */
  function Awaiting(ts: seq<Task>): multiset<EventId> {
    if ts == [] then multiset{} else One(ts[0]) + Awaiting(ts[1..])
  }

  function Weight(t: Task): nat {
    if t.phase.Admitted? || AwaitsMark(t) then 1 else 0
  }

  /** How many tasks hold a permit. */
  function Holders(ts: seq<Task>): nat {
    if ts == [] then 0 else Weight(ts[0]) + Holders(ts[1..])
  }

  function Moved(s: Sys, i: nat, phase: Phase): Sys
    requires i < |s.tasks|
  {
    s.(tasks := s.tasks[i := s.tasks[i].(phase := phase)])
  }

  function Waited(log: Log, id: EventId): nat {
    if id in log.waited then log.waited[id] else 0
  }

  // The store and log after a mark reaches the store.
  function Marked(s: Sys, t: Task, diagnostic: Bytes): Sys
    requires t.phase.Succeeded? || t.phase.Failed?
  {
    var id := t.event.id;
    var log := if id in s.store then s.log.(outcomes := s.log.outcomes + 1) else s.log;
    match t.phase
    case Succeeded =>
      s.(store := Outbox.MarkDispatched(s.store, id), log := log.(dispatches := log.dispatches + multiset{id}))
    case Failed(retryAt, delay) =>
      var waited := if id in s.store then log.waited[id := Waited(log, id) + delay] else log.waited;
      s.(store := Outbox.MarkFailed(s.store, id, diagnostic, retryAt),
         log := log.(failures := log.failures + multiset{id}, waited := waited))
  }

  ghost function Do(c: Config, s: Sys, step: Step): Sys
    requires Enabled(c, s, step)
  {
    match step
    case Append(event) =>
      var log := if ValidTopic(event.topic) && event.id !in s.store
        then s.log.(appended := s.log.appended + {Content(event)}, insertions := s.log.insertions + 1) else s.log;
      s.(store := Outbox.Append(s.store, event), log := log)
    case Tick(now, hiccup) =>
      if hiccup || !Fetches(c.batch, s.poller) then s.(poller := Polling.Tick(c.batch, s.poller, Hiccup))
      else
        var due := Outbox.FetchDue(s.store, s.poller.size, now);
        s.(poller := Polling.Tick(c.batch, s.poller, Fetched(|due|)), tasks := Spawn(due), mode := Draining)
    case Acquire(i) => Moved(s, i, Admitted).(permits := s.permits - 1)
    case Pause(i) => Moved(s, i, Finished).(permits := s.permits + 1)
    case Send(i) =>
      Moved(s, i, Sending).(log := s.log.(sends := s.log.sends + multiset{s.tasks[i].event.id}))
    case Accept(i) =>
      Moved(s, i, Succeeded).(log := s.log.(accepted := s.log.accepted + {s.tasks[i].event.id}))
    case Refuse(i, now, delay) =>
      var attempts := Outbox.SaturatingIncrement(s.tasks[i].event.attempts);
      var wait := if IsExhausted(c.policy, attempts) then 0 else delay;
      Moved(s, i, Failed(RetryAt(c.policy, attempts, now, delay), wait))
    case Mark(i, recorded, diagnostic) =>
      var t := s.tasks[i];
      var marked := if recorded then Marked(s, t, diagnostic)
        else s.(log := s.log.(lost := s.log.lost + multiset{t.event.id}));
      Moved(marked, i, Finished).(permits := s.permits + 1)
    case Join(i) => s.(tasks := s.tasks[..i] + s.tasks[i + 1..])
    case Drained => s.(mode := Idle)
    case Shutdown => s.(shutdown := true)
    case Stop => s.(mode := Stopped)
    case Crash =>
      s.(mode := Down, tasks := [], permits := 0, log := s.log.(lost := s.log.lost + Awaiting(s.tasks)))
    case Restart =>
      s.(mode := Idle, shutdown := false, permits := c.concurrency, poller := Start(c.batch))
    case Reschedule(id, at, diagnostic) => s.(store := Outbox.MarkFailed(s.store, id, diagnostic, at))
    case DeadLetter(event, completes) =>
      if !ValidTopic(event.topic) then s
      else s.(letters := s.letters + {event.id}, store := if completes then s.store - {event.id} else s.store)
  }

  // --- runs ------------------------------------------------------------------------------

  ghost predicate Legal(c: Config, steps: seq<Step>)
    decreases |steps|, 0
  {
    steps == [] ||
    (Legal(c, steps[..|steps| - 1]) && Enabled(c, Reached(c, steps[..|steps| - 1]), steps[|steps| - 1]))
  }

  /** The state a legal run reaches. */
  ghost function Reached(c: Config, steps: seq<Step>): Sys
    requires Legal(c, steps)
    decreases |steps|, 1
  {
    if steps == [] then Init(c)
    else Do(c, Reached(c, steps[..|steps| - 1]), steps[|steps| - 1])
  }

  /** The steps that carry one admitted task through to a recorded outcome. */
  function OutcomeSteps(i: nat, outcome: Outcome, now: U64, delay: Duration): seq<Step> {
    match outcome
    case Delivered => [Send(i), Accept(i), Mark(i, true, [])]
    case CircuitOpen => [Pause(i)]
    case Rejected => [Pause(i)]
    case Failure(error) => [Send(i), Refuse(i, now, delay), Mark(i, true, Truncated(error, MAX_ERROR_BYTES))]
    case Other(error) => [Send(i), Refuse(i, now, delay), Mark(i, true, Truncated(error, MAX_ERROR_BYTES))]
  }

  ghost predicate AllEnabled(c: Config, s: Sys, steps: seq<Step>)
    decreases |steps|
  {
    steps == [] || (Enabled(c, s, steps[0]) && AllEnabled(c, Do(c, s, steps[0]), steps[1..]))
  }

  ghost function DoAll(c: Config, s: Sys, steps: seq<Step>): Sys
    requires AllEnabled(c, s, steps)
    decreases |steps|
  {
    if steps == [] then s else DoAll(c, Do(c, s, steps[0]), steps[1..])
  }

  lemma ThreeSteps(c: Config, s: Sys, a: Step, b: Step, d: Step)
    requires Enabled(c, s, a) && Enabled(c, Do(c, s, a), b) && Enabled(c, Do(c, Do(c, s, a), b), d)
    ensures AllEnabled(c, s, [a, b, d]) && DoAll(c, s, [a, b, d]) == Do(c, Do(c, Do(c, s, a), b), d)
  {
    hide Do, Enabled;
    assert [a, b, d][1..] == [b, d] && [b, d][1..] == [d] && [d][1..] == [];
    var s1 := Do(c, s, a);
    var s2 := Do(c, s1, b);
    assert AllEnabled(c, s2, [d]) && DoAll(c, s2, [d]) == Do(c, s2, d);
    assert AllEnabled(c, s1, [b, d]) && DoAll(c, s1, [b, d]) == DoAll(c, s2, [d]);
  }

  // What one task's outcome leaves: the store, the task finished, its permit free.
  ghost predicate Concluded(s: Sys, i: nat, store: Outbox.Store, s': Sys)
    requires i < |s.tasks|
  {
    && s'.store == store
    && s'.tasks == s.tasks[i := Task(s.tasks[i].event, Finished)]
    && s'.permits == s.permits + 1
  }

  lemma MarkConcludes(c: Config, s: Sys, s0: Sys, i: nat, diagnostic: Bytes)
    requires i < |s0.tasks| && i < |s.tasks| && s0.tasks == s.tasks[i := s0.tasks[i]]
    requires s0.tasks[i].event == s.tasks[i].event && s0.permits == s.permits
    requires s0.tasks[i].phase.Succeeded? || s0.tasks[i].phase.Failed?
    ensures Concluded(s, i, Marked(s0, s0.tasks[i], diagnostic).store, Do(c, s0, Mark(i, true, diagnostic)))
  {
    hide Outbox.MarkFailed, Outbox.MarkDispatched;
  }

  lemma DeliverySteps(c: Config, s: Sys, i: nat)
    requires At(s, i, Admitted)
    ensures AllEnabled(c, s, [Send(i), Accept(i), Mark(i, true, [])])
    ensures Concluded(s, i, Outbox.MarkDispatched(s.store, s.tasks[i].event.id),
                    DoAll(c, s, [Send(i), Accept(i), Mark(i, true, [])]))
  {
    hide Outbox.MarkDispatched;
    var s0 := Do(c, Do(c, s, Send(i)), Accept(i));
    MarkConcludes(c, s, s0, i, []);
    ThreeSteps(c, s, Send(i), Accept(i), Mark(i, true, []));
  }

  lemma RefusalSteps(c: Config, s: Sys, i: nat, diagnostic: Bytes, now: U64, delay: Duration)
    requires At(s, i, Admitted)
    requires delay <= ExponentialDelay(c.policy, Outbox.SaturatingIncrement(s.tasks[i].event.attempts))
    ensures var steps := [Send(i), Refuse(i, now, delay), Mark(i, true, diagnostic)];
      var retryAt := RetryAt(c.policy, Outbox.SaturatingIncrement(s.tasks[i].event.attempts), now, delay);
      AllEnabled(c, s, steps) &&
      Concluded(s, i, Outbox.MarkFailed(s.store, s.tasks[i].event.id, diagnostic, retryAt), DoAll(c, s, steps))
  {
    hide Outbox.MarkFailed, ExponentialDelay, RetryAt;
    var s0 := Do(c, Do(c, s, Send(i)), Refuse(i, now, delay));
    MarkConcludes(c, s, s0, i, diagnostic);
    ThreeSteps(c, s, Send(i), Refuse(i, now, delay), Mark(i, true, diagnostic));
  }

  /** The system's steps do to the store what the body of `process` does, and
      leave the task finished and its permit free. */
  lemma StepsAreProcess(c: Config, s: Sys, i: nat, outcome: Outcome, now: U64, delay: Duration)
    requires At(s, i, Admitted)
    requires delay <= ExponentialDelay(c.policy, Outbox.SaturatingIncrement(s.tasks[i].event.attempts))
    ensures var steps := OutcomeSteps(i, outcome, now, delay);
      && AllEnabled(c, s, steps)
      && Concluded(s, i, Recorded(s.store, c.policy, s.tasks[i].event, outcome, now, delay), DoAll(c, s, steps))
  {
    hide ExponentialDelay, Truncated, RetryAt, Outbox.MarkFailed, Outbox.MarkDispatched;
    match outcome
    case Delivered => DeliverySteps(c, s, i);
    case CircuitOpen => assert [Pause(i)][1..] == [];
    case Rejected => assert [Pause(i)][1..] == [];
    case Failure(error) => RefusalSteps(c, s, i, Truncated(error, MAX_ERROR_BYTES), now, delay);
    case Other(error) => RefusalSteps(c, s, i, Truncated(error, MAX_ERROR_BYTES), now, delay);
  }
}
