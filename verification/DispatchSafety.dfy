/** No event is lost and none is recorded dispatched unsent, over whole runs
    with crashes, restarts, lost marks, store errors and operator steps. */
module DispatchSafety {
  import opened Base
  import opened EventIds
  import opened Events
  import opened Backoff
  import opened Polling
  import opened Dispatch
  import opened DispatchControl
  import Outbox

  ghost predicate Safe(s: Sys) {
    && (forall e | e in s.log.appended :: e.id in s.store || e.id in s.letters)
    && (forall id | id in s.store && s.store[id].Live? :: Content(s.store[id].event) in s.log.appended)
    && (forall id | id in s.store && s.store[id].Dispatched? :: id in s.log.accepted)
    && (forall t | t in s.tasks :: Content(t.event) in s.log.appended)
    && (forall t | t in s.tasks && t.phase.Succeeded? :: t.event.id in s.log.accepted)
  }

  lemma SafeStep(c: Config, s: Sys, step: Step)
    requires Control(c, s) && Safe(s) && Enabled(c, s, step)
    ensures Safe(Do(c, s, step))
  {
    match step
    case Append(event) => SafeAppend(c, s, event);
    case Tick(now, hiccup) => SafeTick(c, s, now, hiccup);
    case Mark(i, recorded, diagnostic) => SafeMark(c, s, i, recorded, diagnostic);
    case Join(i) => SafeJoin(c, s, i);
    case Reschedule(id, at, diagnostic) => SafeFailed(s, id, diagnostic, at);
    case _ => SafeElsewhere(c, s, step);
  }

  lemma SafeAppend(c: Config, s: Sys, event: OutboxEvent)
    requires Safe(s)
    ensures Safe(Do(c, s, Append(event)))
  {}

  lemma SafeTick(c: Config, s: Sys, now: U64, hiccup: bool)
    requires Control(c, s) && Safe(s) && s.mode == Idle
    ensures Safe(Do(c, s, Tick(now, hiccup)))
  {
    hide Outbox.FetchDue, Polling.Tick, Fetches;
    Outbox.FetchReturnsDueInOrder(s.store, s.poller.size, now);
    var due := Outbox.FetchDue(s.store, s.poller.size, now);
    forall t | t in Spawn(due) ensures Content(t.event) in s.log.appended && t.phase == Waiting {
      var i :| 0 <= i < |Spawn(due)| && Spawn(due)[i] == t;
      assert due[i] in due;
    }
  }

  // A failure changes no content and no dispatched entry.
  lemma SafeFailed(s: Sys, id: EventId, diagnostic: Bytes, at: U64)
    requires Safe(s)
    ensures Safe(s.(store := Outbox.MarkFailed(s.store, id, diagnostic, at)))
  {
    if id in s.store && s.store[id].Live? {
      assert Content(Outbox.FailedEvent(s.store[id].event, diagnostic)) == Content(s.store[id].event);
    }
  }

  lemma SafeMark(c: Config, s: Sys, i: nat, recorded: bool, diagnostic: Bytes)
    requires Safe(s) && Enabled(c, s, Mark(i, recorded, diagnostic))
    ensures Safe(Do(c, s, Mark(i, recorded, diagnostic)))
  {
    var t := s.tasks[i];
    assert t in s.tasks;
    var marked := if recorded then Marked(s, t, diagnostic) else s;
    if recorded {
      SafeMarked(s, t, diagnostic);
    }
    SafeMoved(marked, i, Finished);
    SameSafety(Moved(marked, i, Finished), Do(c, s, Mark(i, recorded, diagnostic)));
  }

  lemma SafeMarked(s: Sys, t: Task, diagnostic: Bytes)
    requires Safe(s) && t in s.tasks && (t.phase.Succeeded? || t.phase.Failed?)
    ensures Safe(Marked(s, t, diagnostic))
  {
    match t.phase
    case Succeeded => SameSafety(s.(store := Outbox.MarkDispatched(s.store, t.event.id)), Marked(s, t, diagnostic));
    case Failed(at, _) =>
      SafeFailed(s, t.event.id, diagnostic, at);
      SameSafety(s.(store := Outbox.MarkFailed(s.store, t.event.id, diagnostic, at)), Marked(s, t, diagnostic));
  }

  lemma SafeMoved(s: Sys, i: nat, phase: Phase)
    requires Safe(s) && i < |s.tasks|
    requires phase.Succeeded? ==> s.tasks[i].event.id in s.log.accepted
    ensures Safe(Moved(s, i, phase))
  {
    var ts := Moved(s, i, phase).tasks;
    forall t | t in ts
      ensures Content(t.event) in s.log.appended && (t.phase.Succeeded? ==> t.event.id in s.log.accepted)
    {
      var j :| 0 <= j < |ts| && ts[j] == t;
      assert s.tasks[j] in s.tasks;
    }
  }

  // Safety reads only these parts of the state.
  lemma SameSafety(a: Sys, b: Sys)
    requires Safe(a)
    requires a.store == b.store && a.letters == b.letters && a.tasks == b.tasks
    requires a.log.appended == b.log.appended && a.log.accepted == b.log.accepted
    ensures Safe(b)
  {}

  lemma SafeJoin(c: Config, s: Sys, i: nat)
    requires Safe(s) && At(s, i, Finished)
    ensures Safe(Do(c, s, Join(i)))
  {
    assert forall t | t in s.tasks[..i] + s.tasks[i + 1..] :: t in s.tasks;
  }

  lemma SafeAccept(s: Sys, i: nat)
    requires Safe(s) && i < |s.tasks|
    ensures Safe(Moved(s.(log := s.log.(accepted := s.log.accepted + {s.tasks[i].event.id})), i, Succeeded))
  {
    SafeMoved(s.(log := s.log.(accepted := s.log.accepted + {s.tasks[i].event.id})), i, Succeeded);
  }

  lemma SafeTaskStep(c: Config, s: Sys, step: Step)
    requires Safe(s) && Enabled(c, s, step)
    requires step.Acquire? || step.Pause? || step.Send? || step.Accept? || step.Refuse?
    ensures Safe(Do(c, s, step))
  {
    hide Safe, RetryAt, ExponentialDelay;
    var i, s' := step.i, Do(c, s, step);
    if step.Accept? {
      SafeAccept(s, i);
    } else {
      SafeMoved(s, i, s'.tasks[i].phase);
      SameSafety(Moved(s, i, s'.tasks[i].phase), s');
    }
  }

  lemma SafeElsewhere(c: Config, s: Sys, step: Step)
    requires Safe(s) && Enabled(c, s, step)
    requires !step.Append? && !step.Tick? && !step.Mark? && !step.Join? && !step.Reschedule?
    ensures Safe(Do(c, s, step))
  {
    hide RetryAt, ExponentialDelay, Awaiting;
    if step.Acquire? || step.Pause? || step.Send? || step.Accept? || step.Refuse? {
      SafeTaskStep(c, s, step);
    }
  }

  lemma {:induction false} SafeRun(c: Config, steps: seq<Step>)
    requires ValidConfig(c) && Legal(c, steps)
    ensures Safe(Reached(c, steps))
    decreases |steps|
  {
    hide Do, Enabled, Control;
    if steps != [] {
      var before, step := steps[..|steps| - 1], steps[|steps| - 1];
      EveryRun(c, before);
      SafeRun(c, before);
      SafeStep(c, Reached(c, before), step);
    }
  }

  // --- the guarantee ------------------------------------------------------------------------

  /** The step is an operator's dead letter of this id that runs to its end. */
  predicate Letters(step: Step, id: EventId) {
    step.DeadLetter? && step.completes && ValidTopic(step.event.topic) && step.event.id == id
  }

  /** An id leaves the store in a completed dead-letter step of it and in no other;
      a step that stops between the two statements keeps it. */
  lemma LeavesOnlyAsLetter(c: Config, s: Sys, step: Step, id: EventId)
    requires Enabled(c, s, step) && id in s.store
    ensures id !in Do(c, s, step).store <==> Letters(step, id)
    ensures id !in Do(c, s, step).store ==> id in Do(c, s, step).letters
  {
    hide RetryAt, ExponentialDelay, Outbox.FetchDue, Polling.Tick, Awaiting, ValidTopic, Spawn;
  }

  /** The state before step `n` of a run. */
  ghost function StateAt(c: Config, steps: seq<Step>, n: nat): Sys
    requires Legal(c, steps) && n <= |steps|
    decreases |steps|
  {
    if n == |steps| then Reached(c, steps) else StateAt(c, steps[..|steps| - 1], n)
  }

  /** Step `k` of the run takes the id out of the store, and it has been out
      since. */
  ghost predicate LeftAt(c: Config, steps: seq<Step>, k: nat, id: EventId)
    requires Legal(c, steps)
  {
    k < |steps| && id in StateAt(c, steps, k).store && Letters(steps[k], id) &&
    forall n | k < n <= |steps| :: id !in StateAt(c, steps, n).store
  }

  lemma StillLeft(c: Config, steps: seq<Step>, k: nat, id: EventId)
    requires Legal(c, steps) && steps != [] && id !in Reached(c, steps).store
    requires LeftAt(c, steps[..|steps| - 1], k, id)
    ensures LeftAt(c, steps, k, id)
  {
    hide Do, Enabled, Letters;
    var before := steps[..|steps| - 1];
    forall n | k <= n < |steps| ensures StateAt(c, steps, n) == StateAt(c, before, n) {}
  }

  lemma LeftInLastStep(c: Config, steps: seq<Step>, id: EventId)
    requires Legal(c, steps) && steps != []
    requires id in Reached(c, steps[..|steps| - 1]).store && id !in Reached(c, steps).store
    requires Letters(steps[|steps| - 1], id)
    ensures LeftAt(c, steps, |steps| - 1, id)
  {
    hide Do, Enabled, Letters;
    assert StateAt(c, steps, |steps| - 1) == StateAt(c, steps[..|steps| - 1], |steps| - 1);
  }

  lemma AppendedIsStored(c: Config, s: Sys, step: Step, sent: Sent)
    requires Enabled(c, s, step) && sent in Do(c, s, step).log.appended && sent !in s.log.appended
    ensures sent.id in Do(c, s, step).store
  {
    hide RetryAt, ExponentialDelay, Outbox.FetchDue, Polling.Tick, Awaiting, Spawn, Outbox.MarkFailed, Outbox.MarkDispatched;
  }

  lemma LettersStay(c: Config, s: Sys, step: Step, id: EventId)
    requires Enabled(c, s, step) && id in s.letters
    ensures id in Do(c, s, step).letters
  {
    hide RetryAt, ExponentialDelay, Outbox.FetchDue, Polling.Tick, Awaiting, Spawn, Outbox.MarkFailed, Outbox.MarkDispatched;
  }

  lemma {:induction false} MissingLeft(c: Config, steps: seq<Step>, sent: Sent)
    requires Legal(c, steps) && sent in Reached(c, steps).log.appended && sent.id !in Reached(c, steps).store
    ensures sent.id in Reached(c, steps).letters
    ensures exists k :: LeftAt(c, steps, k, sent.id)
    decreases |steps|
  {
    hide Do, Enabled, Letters, LeftAt;
    var n := |steps| - 1;
    var before, step := steps[..n], steps[n];
    var s := Reached(c, before);
    if sent.id in s.store {
      LeavesOnlyAsLetter(c, s, step, sent.id);
      LeftInLastStep(c, steps, sent.id);
    } else {
      if sent !in s.log.appended {
        AppendedIsStored(c, s, step, sent);
      }
      MissingLeft(c, before, sent);
      LettersStay(c, s, step, sent.id);
      var k: nat :| LeftAt(c, before, k, sent.id);
      StillLeft(c, steps, k, sent.id);
    }
  }

  /** In every reachable state each appended event is pending, parked or
      dispatched, unless a completed dead-letter step of the run took it out, after
      which nothing put its id back. A dead letter that stopped half-way leaves
      the event where it was. */
  lemma NothingIsLost(c: Config, steps: seq<Step>, sent: Sent)
    requires ValidConfig(c) && Legal(c, steps) && sent in Reached(c, steps).log.appended
    ensures var s := Reached(c, steps);
      if sent.id in s.store then
        Outbox.Pending(s.store, sent.id) || Outbox.Parked(s.store, sent.id) || s.store[sent.id].Dispatched?
      else
        sent.id in s.letters && exists k :: LeftAt(c, steps, k, sent.id)
  {
    hide LeftAt, Reached, Legal;
    if sent.id !in Reached(c, steps).store {
      MissingLeft(c, steps, sent);
    }
  }

  /** An event recorded dispatched was accepted by the sender before; what is
      live or in flight is, content and all, something a producer appended. */
  lemma DispatchedOnlyIfAccepted(c: Config, steps: seq<Step>, id: EventId)
    requires ValidConfig(c) && Legal(c, steps) && id in Reached(c, steps).store
    ensures var s := Reached(c, steps);
      match s.store[id]
      case Dispatched => exists k :: 0 <= k < |steps| && AcceptsAt(c, steps, k, id)
      case Live(_, event) => event.id == id && Content(event) in s.log.appended
  {
    SafeRun(c, steps);
    EveryRun(c, steps);
    if Reached(c, steps).store[id].Dispatched? {
      AcceptedEarlier(c, steps, id);
    }
  }

  /** Step `k` of the run is the sender's Ok answer for `id`, in a send that is
      under way. */
  ghost predicate AcceptsAt(c: Config, steps: seq<Step>, k: nat, id: EventId)
    requires Legal(c, steps)
  {
    k < |steps| && steps[k].Accept? && Legal(c, steps[..k]) &&
    At(Reached(c, steps[..k]), steps[k].i, Sending) &&
    Reached(c, steps[..k]).tasks[steps[k].i].event.id == id
  }

  lemma {:induction false} AcceptedEarlier(c: Config, steps: seq<Step>, id: EventId)
    requires Legal(c, steps) && id in Reached(c, steps).log.accepted
    ensures exists k :: 0 <= k < |steps| && AcceptsAt(c, steps, k, id)
    decreases |steps|
  {
    hide RetryAt, ExponentialDelay, Outbox.MarkFailed, Outbox.MarkDispatched, Outbox.FetchDue, Polling.Tick;
    var n := |steps| - 1;
    var before, step := steps[..n], steps[n];
    if id in Reached(c, before).log.accepted {
      AcceptedEarlier(c, before, id);
      var k :| 0 <= k < |before| && AcceptsAt(c, before, k, id);
      assert before[..k] == steps[..k];
      assert AcceptsAt(c, steps, k, id);
    } else {
      AcceptAdds(c, Reached(c, before), step, id);
      assert AcceptsAt(c, steps, n, id);
    }
  }

  lemma AcceptAdds(c: Config, s: Sys, step: Step, id: EventId)
    requires Enabled(c, s, step) && id !in s.log.accepted && id in Do(c, s, step).log.accepted
    ensures step.Accept? && At(s, step.i, Sending) && s.tasks[step.i].event.id == id
  {
    hide RetryAt, ExponentialDelay, Outbox.MarkFailed, Outbox.MarkDispatched, Outbox.FetchDue, Polling.Tick, Awaiting;
  }
}
