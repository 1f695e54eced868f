/** The order in which a batch's tasks record their outcomes does not matter. */
module Confluence {
  import opened Base
  import opened Truncation
  import opened EventIds
  import opened Backoff
  import opened MemoryStores
  import opened Dispatch
  import opened DispatchControl
  import Events
  import Utf8
  import Outbox

  /** One outcome on its way to the store, its retry time already fixed. */
  datatype Record = Dispatch(id: EventId) | Fail(id: EventId, diagnostic: Bytes, retryAt: U64)

  /** What a record does to a store. One that `remembers` keeps the id of a
      delivery it knows nothing about, as the memory store does. */
  function Apply(s: Outbox.Store, r: Record, remembers: bool): Outbox.Store {
    match r
    case Dispatch(id) => if remembers then s[id := Outbox.Dispatched] else Outbox.MarkDispatched(s, id)
    case Fail(id, diagnostic, at) => Outbox.MarkFailed(s, id, diagnostic, at)
  }

  function ApplyAll(s: Outbox.Store, rs: seq<Record>, remembers: bool): Outbox.Store
    decreases |rs|
  {
    if rs == [] then s else ApplyAll(Apply(s, rs[0], remembers), rs[1..], remembers)
  }

  ghost predicate OnePerId(rs: seq<Record>) {
    forall i, j | 0 <= i < j < |rs| :: rs[i].id != rs[j].id
  }

  function Lookup(s: Outbox.Store, id: EventId): Option<Outbox.Entry> {
    if id in s then Some(s[id]) else None
  }

  /** What one record makes of its own entry. */
  function Effect(entry: Option<Outbox.Entry>, r: Record, remembers: bool): Option<Outbox.Entry> {
    match r
    case Dispatch(_) => if entry.Some? || remembers then Some(Outbox.Dispatched) else None
    case Fail(_, diagnostic, at) =>
      match entry
      case Some(Live(_, event)) => Some(Outbox.Live(at, Outbox.FailedEvent(event, diagnostic)))
      case _ => entry
  }

  lemma ApplyPointwise(s: Outbox.Store, r: Record, remembers: bool)
    ensures forall id :: Lookup(Apply(s, r, remembers), id) ==
                         if id == r.id then Effect(Lookup(s, id), r, remembers) else Lookup(s, id)
  {}

  /** A whole batch acts on each entry through that entry's own record only. */
  lemma {:induction false} ApplyAllPointwise(s: Outbox.Store, rs: seq<Record>, remembers: bool)
    requires OnePerId(rs)
    ensures forall r | r in rs :: Lookup(ApplyAll(s, rs, remembers), r.id) == Effect(Lookup(s, r.id), r, remembers)
    ensures forall id: EventId | (forall r | r in rs :: r.id != id) :: Lookup(ApplyAll(s, rs, remembers), id) == Lookup(s, id)
    decreases |rs|
  {
    hide Effect, Apply, Lookup;
    if rs != [] {
      var s1, rest := Apply(s, rs[0], remembers), rs[1..];
      ApplyPointwise(s, rs[0], remembers);
      ApplyAllPointwise(s1, rest, remembers);
      forall r | r in rest ensures r.id != rs[0].id && r in rs {
        var i :| 0 <= i < |rest| && rest[i] == r;
        assert rs[i + 1] == r;
      }
      forall r | r in rs ensures Lookup(ApplyAll(s, rs, remembers), r.id) == Effect(Lookup(s, r.id), r, remembers) {
        if r != rs[0] {
          assert r in rest;
        }
      }
    }
  }

  lemma SameLookups(x: Outbox.Store, y: Outbox.Store)
    requires forall id: EventId :: Lookup(x, id) == Lookup(y, id)
    ensures x == y
  {
    forall id: EventId ensures (id in x <==> id in y) && (id in x ==> x[id] == y[id]) {
      assert Lookup(x, id) == Lookup(y, id);
    }
  }

  /** With one record per id, the store reached depends only on which records
      are made, not on their order. */
  lemma BatchConfluence(s: Outbox.Store, a: seq<Record>, b: seq<Record>, remembers: bool)
    requires OnePerId(a) && OnePerId(b) && (forall r :: r in a <==> r in b)
    ensures ApplyAll(s, a, remembers) == ApplyAll(s, b, remembers)
  {
    hide Effect, Lookup;
    ApplyAllPointwise(s, a, remembers);
    ApplyAllPointwise(s, b, remembers);
    var x, y := ApplyAll(s, a, remembers), ApplyAll(s, b, remembers);
    forall id: EventId ensures Lookup(x, id) == Lookup(y, id) {
      if r :| r in a && r.id == id {
        assert r in b;
      }
    }
    SameLookups(x, y);
  }

  // --- the records of an interleaved run ---------------------------------------------------

  ghost predicate BatchSteps(steps: seq<Step>) {
    forall step | step in steps :: TaskStep(step) || step.Join?
  }

  /** What a task with a mark to come will record. */
  function RecordOf(t: Task, diagnostic: Bytes): Record
    requires t.phase.Succeeded? || t.phase.Failed?
  {
    match t.phase
    case Succeeded => Dispatch(t.event.id)
    case Failed(at, _) => Fail(t.event.id, diagnostic, at)
  }

  /** The record a step makes, if its mark reaches the store. */
  function MadeBy(c: Config, s: Sys, step: Step): Option<Record>
    requires Enabled(c, s, step)
  {
    if step.Mark? && step.recorded then Some(RecordOf(s.tasks[step.i], step.diagnostic)) else None
  }

  /** The records a run makes, in the order it makes them. */
  ghost function Made(c: Config, s: Sys, steps: seq<Step>): seq<Record>
    requires AllEnabled(c, s, steps)
    decreases |steps|
  {
    if steps == [] then []
    else
      var rest := Made(c, Do(c, s, steps[0]), steps[1..]);
      match MadeBy(c, s, steps[0])
      case Some(r) => [r] + rest
      case None => rest
  }

  lemma StepStore(c: Config, s: Sys, step: Step)
    requires Enabled(c, s, step) && (TaskStep(step) || step.Join?)
    ensures Do(c, s, step).store ==
      match MadeBy(c, s, step) case Some(r) => Apply(s.store, r, false) case None => s.store
  {
    hide Outbox.MarkFailed, Outbox.MarkDispatched, Waited, RetryAt, ExponentialDelay;
  }

  /** Whatever the interleaving, the store is the fold of the records made. */
  lemma {:induction false} StoreIsFold(c: Config, s: Sys, steps: seq<Step>)
    requires AllEnabled(c, s, steps) && BatchSteps(steps)
    ensures DoAll(c, s, steps).store == ApplyAll(s.store, Made(c, s, steps), false)
    decreases |steps|
  {
    hide Do, Enabled, Apply, MadeBy;
    if steps != [] {
      var s1, rest := Do(c, s, steps[0]), steps[1..];
      assert steps[0] in steps;
      StepStore(c, s, steps[0]);
      StoreIsFold(c, s1, rest);
      match MadeBy(c, s, steps[0])
      case Some(r) => assert ([r] + Made(c, s1, rest))[1..] == Made(c, s1, rest);
      case None =>
    }
  }

  // --- each task records at most once ---------------------------------------------------------

  /** Task `i` of the batch has this id and may still record. */
  predicate OpenAt(s: Sys, i: nat, id: EventId) {
    i < |s.tasks| && s.tasks[i].event.id == id && !s.tasks[i].phase.Finished?
  }

  ghost predicate Unfinished(s: Sys, id: EventId) {
    exists i :: OpenAt(s, i, id)
  }

  // A step opens no task, and the task that records is closed by it.
  lemma StepCloses(c: Config, s: Sys, step: Step)
    requires Enabled(c, s, step) && (TaskStep(step) || step.Join?) && DistinctIds(s.tasks)
    ensures DistinctIds(Do(c, s, step).tasks)
    ensures forall id :: Unfinished(Do(c, s, step), id) ==> Unfinished(s, id)
    ensures MadeBy(c, s, step).Some? ==>
      Unfinished(s, MadeBy(c, s, step).value.id) && !Unfinished(Do(c, s, step), MadeBy(c, s, step).value.id)
  {
    hide Outbox.MarkFailed, Outbox.MarkDispatched, RetryAt, ExponentialDelay, Waited, Awaiting, Outbox.Append;
    var s' := Do(c, s, step);
    if TaskStep(step) {
      TaskStepCloses(c, s, step);
    } else {
      forall id | Unfinished(s', id) ensures Unfinished(s, id) {
        var j: nat :| OpenAt(s', j, id);
        assert OpenAt(s, if j < step.i then j else j + 1, id);
      }
    }
  }

  lemma TaskStepCloses(c: Config, s: Sys, step: Step)
    requires Enabled(c, s, step) && TaskStep(step) && DistinctIds(s.tasks)
    ensures DistinctIds(Do(c, s, step).tasks)
    ensures forall id :: Unfinished(Do(c, s, step), id) ==> Unfinished(s, id)
    ensures MadeBy(c, s, step).Some? ==>
      Unfinished(s, MadeBy(c, s, step).value.id) && !Unfinished(Do(c, s, step), MadeBy(c, s, step).value.id)
  {
    hide Do;
    var s', i := Do(c, s, step), step.i;
    TaskStepMovesOne(c, s, step);
    OpenBefore(c, s, step);
    forall id | Unfinished(s', id) ensures Unfinished(s, id) {
      var j: nat :| OpenAt(s', j, id);
      assert OpenAt(s, j, id);
    }
    if MadeBy(c, s, step).Some? {
      MarkFinishes(c, s, step);
      var id := s.tasks[i].event.id;
      assert OpenAt(s, i, id);
      forall j: nat ensures !OpenAt(s', j, id) {
        assert j < i ==> s.tasks[j].event.id != s.tasks[i].event.id;
        assert i < j < |s.tasks| ==> s.tasks[i].event.id != s.tasks[j].event.id;
      }
    }
  }

  lemma OpenBefore(c: Config, s: Sys, step: Step)
    requires Enabled(c, s, step) && TaskStep(step)
    ensures step.i < |s.tasks| && !s.tasks[step.i].phase.Finished?
  {
    hide ExponentialDelay;
  }

  lemma MarkFinishes(c: Config, s: Sys, step: Step)
    requires Enabled(c, s, step) && step.Mark?
    ensures |Do(c, s, step).tasks| == |s.tasks| && Do(c, s, step).tasks[step.i].phase == Finished
    ensures step.recorded ==> RecordOf(s.tasks[step.i], step.diagnostic).id == s.tasks[step.i].event.id
  {
    hide Outbox.MarkFailed, Outbox.MarkDispatched, Waited;
  }

  /** A run records each id at most once, and only ids it found unfinished. */
  lemma {:induction false} MadeOnce(c: Config, s: Sys, steps: seq<Step>)
    requires AllEnabled(c, s, steps) && BatchSteps(steps) && DistinctIds(s.tasks)
    ensures OnePerId(Made(c, s, steps))
    ensures forall r | r in Made(c, s, steps) :: Unfinished(s, r.id)
    decreases |steps|
  {
    hide Do, Enabled, MadeBy, Unfinished, DistinctIds;
    if steps != [] {
      var s1, rest := Do(c, s, steps[0]), steps[1..];
      assert steps[0] in steps;
      StepCloses(c, s, steps[0]);
      MadeOnce(c, s1, rest);
      if MadeBy(c, s, steps[0]).Some? {
        var r, tail := MadeBy(c, s, steps[0]).value, Made(c, s1, rest);
        ConsOnePerId(r, tail);
      }
    }
  }

  /** Any two interleavings of a batch's steps, permits, pauses, lost marks and
      joins included, that make the same records end in the same store. */
  lemma InterleavingsAgree(c: Config, s: Sys, a: seq<Step>, b: seq<Step>)
    requires DistinctIds(s.tasks)
    requires AllEnabled(c, s, a) && BatchSteps(a) && AllEnabled(c, s, b) && BatchSteps(b)
    requires forall r :: r in Made(c, s, a) <==> r in Made(c, s, b)
    ensures DoAll(c, s, a).store == DoAll(c, s, b).store
  {
    hide Made, ApplyAll, DoAll, AllEnabled, DistinctIds, OnePerId;
    StoreIsFold(c, s, a);
    StoreIsFold(c, s, b);
    MadeOnce(c, s, a);
    MadeOnce(c, s, b);
    BatchConfluence(s.store, Made(c, s, a), Made(c, s, b), false);
  }

  // --- outcomes fixed per event -----------------------------------------------------------------

  /** What the breaker is going to report for an event. */
  datatype Fate = Pauses | Delivers | Refuses(now: U64, delay: Duration)

  /** The fate of one event's send and of its mark. */
  datatype Plan = Plan(fate: Fate, recorded: bool, diagnostic: Bytes)

  predicate Follows(c: Config, s: Sys, step: Step, plan: EventId -> Plan)
    requires Enabled(c, s, step)
  {
    match step
    case Pause(i) => plan(s.tasks[i].event.id).fate.Pauses?
    case Send(i) => !plan(s.tasks[i].event.id).fate.Pauses?
    case Accept(i) => plan(s.tasks[i].event.id).fate.Delivers?
    case Refuse(i, now, delay) => plan(s.tasks[i].event.id).fate == Refuses(now, delay)
    case Mark(i, recorded, diagnostic) =>
      var p := plan(s.tasks[i].event.id);
      recorded == p.recorded && (recorded ==> diagnostic == p.diagnostic)
    case _ => true
  }

  ghost predicate AllFollow(c: Config, s: Sys, steps: seq<Step>, plan: EventId -> Plan)
    requires AllEnabled(c, s, steps)
    decreases |steps|
  {
    steps == [] || (Follows(c, s, steps[0], plan) && AllFollow(c, Do(c, s, steps[0]), steps[1..], plan))
  }

  /** The record a task is still going to make under the plan. */
  function Due(p: Policy, t: Task, plan: Plan): Option<Record> {
    if !plan.recorded then None
    else
      match t.phase
      case Finished => None
      case Succeeded => Some(Dispatch(t.event.id))
      case Failed(at, _) => Some(Fail(t.event.id, plan.diagnostic, at))
      case _ =>
        match plan.fate
        case Pauses => None
        case Delivers => Some(Dispatch(t.event.id))
        case Refuses(now, delay) =>
          Some(Fail(t.event.id, plan.diagnostic,
                    RetryAt(p, Outbox.SaturatingIncrement(t.event.attempts), now, delay)))
  }

  predicate OwedAt(c: Config, s: Sys, plan: EventId -> Plan, i: nat, r: Record) {
    i < |s.tasks| && Due(c.policy, s.tasks[i], plan(s.tasks[i].event.id)) == Some(r)
  }

  ghost predicate Owed(c: Config, s: Sys, plan: EventId -> Plan, r: Record) {
    exists i :: OwedAt(c, s, plan, i, r)
  }

  // A step that follows the plan makes its task's record or leaves it due.
  lemma StepDue(c: Config, s: Sys, step: Step, plan: EventId -> Plan)
    requires Enabled(c, s, step) && TaskStep(step) && Follows(c, s, step, plan)
    ensures OneTaskMoved(s, Do(c, s, step), step.i)
    ensures var t, t' := s.tasks[step.i], Do(c, s, step).tasks[step.i];
      match MadeBy(c, s, step)
      case Some(r) => Due(c.policy, t, plan(t.event.id)) == Some(r) && Due(c.policy, t', plan(t.event.id)) == None
      case None => Due(c.policy, t, plan(t.event.id)) == Due(c.policy, t', plan(t.event.id))
  {
    hide Outbox.MarkFailed, Outbox.MarkDispatched, RetryAt, ExponentialDelay, Waited;
  }

  lemma StepOwed(c: Config, s: Sys, step: Step, plan: EventId -> Plan)
    requires Enabled(c, s, step) && (TaskStep(step) || step.Join?) && Follows(c, s, step, plan)
    ensures forall r :: Owed(c, s, plan, r) <==> MadeBy(c, s, step) == Some(r) || Owed(c, Do(c, s, step), plan, r)
  {
    if TaskStep(step) {
      TaskStepOwed(c, s, step, plan);
    } else {
      JoinOwed(c, s, step.i, plan);
    }
  }

  lemma TaskStepOwed(c: Config, s: Sys, step: Step, plan: EventId -> Plan)
    requires Enabled(c, s, step) && TaskStep(step) && Follows(c, s, step, plan)
    ensures forall r :: Owed(c, s, plan, r) <==> MadeBy(c, s, step) == Some(r) || Owed(c, Do(c, s, step), plan, r)
  {
    StepDue(c, s, step, plan);
    hide Do, MadeBy, Due, Follows, Enabled;
    var s', i := Do(c, s, step), step.i;
    forall r ensures Owed(c, s, plan, r) <==> MadeBy(c, s, step) == Some(r) || Owed(c, s', plan, r) {
      if j: nat :| OwedAt(c, s, plan, j, r) {
        assert j != i || MadeBy(c, s, step).None? ==> OwedAt(c, s', plan, j, r);
      }
      if MadeBy(c, s, step) == Some(r) {
        assert OwedAt(c, s, plan, i, r);
      }
      if j: nat :| OwedAt(c, s', plan, j, r) {
        assert OwedAt(c, s, plan, j, r);
      }
    }
  }

  lemma JoinOwed(c: Config, s: Sys, k: nat, plan: EventId -> Plan)
    requires Enabled(c, s, Join(k))
    ensures forall r :: Owed(c, s, plan, r) <==> Owed(c, Do(c, s, Join(k)), plan, r)
  {
    var s' := Do(c, s, Join(k));
    assert Due(c.policy, s.tasks[k], plan(s.tasks[k].event.id)) == None;
    hide Due;
    forall r ensures Owed(c, s, plan, r) <==> Owed(c, s', plan, r) {
      if j: nat :| OwedAt(c, s, plan, j, r) {
        assert OwedAt(c, s', plan, if j < k then j else j - 1, r);
      }
      if j: nat :| OwedAt(c, s', plan, j, r) {
        assert OwedAt(c, s, plan, if j < k then j else j + 1, r);
      }
    }
  }

  /** Under a plan, a run makes exactly the records that were owed and no longer
      are. */
  lemma {:induction false} MadeIsOwed(c: Config, s: Sys, steps: seq<Step>, plan: EventId -> Plan)
    requires AllEnabled(c, s, steps) && BatchSteps(steps) && AllFollow(c, s, steps, plan)
    ensures forall r :: Owed(c, s, plan, r) <==> r in Made(c, s, steps) || Owed(c, DoAll(c, s, steps), plan, r)
    decreases |steps|
  {
    hide Do, Enabled, MadeBy, Owed, Follows;
    if steps != [] {
      assert steps[0] in steps;
      StepOwed(c, s, steps[0], plan);
      MadeIsOwed(c, Do(c, s, steps[0]), steps[1..], plan);
    }
  }

  lemma NothingOwed(c: Config, s: Sys, plan: EventId -> Plan)
    requires forall t | t in s.tasks :: t.phase.Finished?
    ensures forall r :: !Owed(c, s, plan, r)
  {
    forall i: nat, r ensures !OwedAt(c, s, plan, i, r) {
      assert i < |s.tasks| ==> s.tasks[i] in s.tasks;
    }
  }

  /** With each in-flight event's outcome, retry time and mark fixed, every
      interleaving of the batch under any number of permits that brings all its
      tasks to an end leaves the same store, in any state with distinct in-flight
      ids and hence in every reachable one. */
  lemma MarkOrderIrrelevant(c: Config, s: Sys, a: seq<Step>, b: seq<Step>, plan: EventId -> Plan)
    requires DistinctIds(s.tasks)
    requires AllEnabled(c, s, a) && BatchSteps(a) && AllFollow(c, s, a, plan)
    requires AllEnabled(c, s, b) && BatchSteps(b) && AllFollow(c, s, b, plan)
    requires forall t | t in DoAll(c, s, a).tasks :: t.phase.Finished?
    requires forall t | t in DoAll(c, s, b).tasks :: t.phase.Finished?
    ensures DoAll(c, s, a).store == DoAll(c, s, b).store
  {
    hide Made, DoAll, AllEnabled, AllFollow, Owed, DistinctIds, BatchSteps;
    MadeIsOwed(c, s, a, plan);
    MadeIsOwed(c, s, b, plan);
    NothingOwed(c, DoAll(c, s, a), plan);
    NothingOwed(c, DoAll(c, s, b), plan);
    InterleavingsAgree(c, s, a, b);
  }

  // --- the memory store -----------------------------------------------------------------------

  /** One call of `process` with all it depends on. */
  datatype Job = Job(event: Events.OutboxEvent, outcome: Outcome, now: U64, jitter: Duration)

  function JobRecord(p: Policy, job: Job): Option<Record> {
    match job.outcome
    case Delivered => Some(Dispatch(job.event.id))
    case CircuitOpen => None
    case Rejected => None
    case Failure(error) => Some(JobFailure(p, job, error))
    case Other(error) => Some(JobFailure(p, job, error))
  }

  function JobFailure(p: Policy, job: Job, error: Utf8.Str): Record {
    Fail(job.event.id, Truncated(error, MAX_ERROR_BYTES),
         RetryAt(p, Outbox.SaturatingIncrement(job.event.attempts), job.now, job.jitter))
  }

  function JobRecords(p: Policy, jobs: seq<Job>): seq<Record> {
    if jobs == [] then []
    else
      match JobRecord(p, jobs[0])
      case Some(r) => [r] + JobRecords(p, jobs[1..])
      case None => JobRecords(p, jobs[1..])
  }

  /** The tasks of a batch finish in the order of `jobs`. */
  method ProcessBatch(store: MemoryStore, p: Policy, jobs: seq<Job>)
    requires store.Valid()
    modifies store
    ensures store.Valid()
    ensures store.View() == ApplyAll(old(store.View()), JobRecords(p, jobs), true)
  {
    hide Truncated, RetryAt, Outbox.MarkFailed, MemoryStore.Valid, MemoryStore.View;
    assert jobs[0..] == jobs;
    for i := 0 to |jobs|
      invariant store.Valid()
      invariant ApplyAll(old(store.View()), JobRecords(p, jobs), true) ==
                ApplyAll(store.View(), JobRecords(p, jobs[i..]), true)
    {
      var job := jobs[i];
      assert jobs[i..][0] == job && jobs[i..][1..] == jobs[i + 1..];
      FirstJob(store.View(), p, jobs[i..]);
      Process(store, p, job.event, job.outcome, job.now, job.jitter);
    }
    assert jobs[|jobs|..] == [];
  }

  lemma FirstJob(s: Outbox.Store, p: Policy, jobs: seq<Job>)
    requires jobs != []
    ensures ApplyAll(s, JobRecords(p, jobs), true) == ApplyAll(
      if jobs[0].outcome.Delivered? then s[jobs[0].event.id := Outbox.Dispatched]
      else Recorded(s, p, jobs[0].event, jobs[0].outcome, jobs[0].now, jobs[0].jitter),
      JobRecords(p, jobs[1..]), true)
  {
    hide Truncated, RetryAt, Outbox.MarkFailed;
    var rest := JobRecords(p, jobs[1..]);
    match JobRecord(p, jobs[0])
    case Some(r) => assert ([r] + rest)[1..] == rest;
    case None =>
  }

  ghost predicate OneJobPerId(jobs: seq<Job>) {
    forall i, j | 0 <= i < j < |jobs| :: jobs[i].event.id != jobs[j].event.id
  }

  lemma {:induction false} JobRecordsMembers(p: Policy, jobs: seq<Job>)
    ensures forall r :: r in JobRecords(p, jobs) <==> exists job :: job in jobs && JobRecord(p, job) == Some(r)
    ensures OneJobPerId(jobs) ==> OnePerId(JobRecords(p, jobs))
    decreases |jobs|
  {
    hide Truncated, RetryAt;
    if jobs != [] {
      var rest := jobs[1..];
      JobRecordsMembers(p, rest);
      assert jobs == [jobs[0]] + rest;
      forall r ensures r in JobRecords(p, jobs) <==> exists job :: job in jobs && JobRecord(p, job) == Some(r) {
        if job :| job in jobs && JobRecord(p, job) == Some(r) {
          assert job == jobs[0] || job in rest;
        }
      }
      if OneJobPerId(jobs) {
        FirstJobAlone(p, jobs);
      }
    }
  }

  lemma JobRecordId(p: Policy, job: Job)
    requires JobRecord(p, job).Some?
    ensures JobRecord(p, job).value.id == job.event.id
  {
    hide Truncated, RetryAt;
  }

  lemma FirstJobAlone(p: Policy, jobs: seq<Job>)
    requires jobs != [] && OneJobPerId(jobs) && OnePerId(JobRecords(p, jobs[1..]))
    requires forall r | r in JobRecords(p, jobs[1..]) :: exists job :: job in jobs[1..] && JobRecord(p, job) == Some(r)
    ensures OnePerId(JobRecords(p, jobs))
  {
    hide JobRecord;
    var tail, all := JobRecords(p, jobs[1..]), JobRecords(p, jobs);
    if JobRecord(p, jobs[0]).Some? {
      var r := JobRecord(p, jobs[0]).value;
      JobRecordId(p, jobs[0]);
      forall x | x in tail ensures r.id != x.id {
        var job :| job in jobs[1..] && JobRecord(p, job) == Some(x);
        JobRecordId(p, job);
        var k :| 0 <= k < |jobs[1..]| && jobs[1..][k] == job;
        assert jobs[k + 1] == job;
      }
      ConsOnePerId(r, tail);
    }
  }

  lemma ConsOnePerId(r: Record, tail: seq<Record>)
    requires OnePerId(tail) && forall x | x in tail :: r.id != x.id
    ensures OnePerId([r] + tail)
  {
    var all := [r] + tail;
    forall i, j | 0 <= i < j < |all| ensures all[i].id != all[j].id {
      assert all[j] == tail[j - 1] && tail[j - 1] in tail;
      assert i > 0 ==> all[i] == tail[i - 1];
    }
  }

  /** Two memory stores that start alike and process one batch whose tasks finish
      in different orders end with the same map, the same index and the same
      dispatched set, whether or not the store knows the ids. */
  method FinishInEitherOrder(m: MemoryStore, n: MemoryStore, p: Policy, a: seq<Job>, b: seq<Job>)
    requires m != n && m.Valid() && n.Valid() && m.View() == n.View()
    requires OneJobPerId(a) && OneJobPerId(b) && forall job :: job in a <==> job in b
    modifies m, n
    ensures m.Valid() && n.Valid()
    ensures m.events == n.events && m.queue == n.queue && m.dispatched == n.dispatched
  {
    ghost var s := m.View();
    ProcessBatch(m, p, a);
    ProcessBatch(n, p, b);
    SameJobsSameStore(s, p, a, b);
    SameViewSameFields(m, n);
  }

  /** The memory store after a batch depends on its jobs, not on their order. */
  lemma SameJobsSameStore(s: Outbox.Store, p: Policy, a: seq<Job>, b: seq<Job>)
    requires OneJobPerId(a) && OneJobPerId(b) && forall job :: job in a <==> job in b
    ensures ApplyAll(s, JobRecords(p, a), true) == ApplyAll(s, JobRecords(p, b), true)
  {
    hide JobRecord, JobRecords, ApplyAll;
    JobRecordsMembers(p, a);
    JobRecordsMembers(p, b);
    BatchConfluence(s, JobRecords(p, a), JobRecords(p, b), true);
  }
}
