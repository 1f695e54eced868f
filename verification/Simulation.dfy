/** The durable store answers every sequence of calls as the memory store does,
    exactly as far as the conditions of `Comparable` hold. */
module Simulation {
  import opened Base
  import opened Ordering
  import opened Utf8
  import opened Truncation
  import opened EventIds
  import opened Events
  import opened Codec
  import opened Rows
  import opened SqliteTables
  import Outbox

  datatype Op =
    | AppendOp(event: OutboxEvent)
    | FetchOp(limit: nat, now: U64)
    | DispatchOp(id: EventId, at: U64)
    | FailOp(id: EventId, error: Str, retryAt: U64)
    | PendingOp
    | ParkedOp

  datatype Reply = Done(r: Result<Unit>) | Batch(events: Result<seq<OutboxEvent>>) | Count(n: nat)

  // --- one call --------------------------------------------------------------------

  /** What each `MemoryStore` method does to its view, and what it returns. */
  ghost function MemoryStep(s: Outbox.Store, op: Op): (Outbox.Store, Reply) {
    match op
    case AppendOp(event) => (Outbox.Append(s, event), Done(Outbox.AppendReply(event)))
    case FetchOp(limit, now) => (s, Batch(Ok(Outbox.FetchDue(s, limit, now))))
    case DispatchOp(id, _) => (s[id := Outbox.Dispatched], Done(Ok(Unit)))
    case FailOp(id, error, at) => (Outbox.MarkFailed(s, id, Truncated(error, MAX_ERROR_BYTES), at), Done(Ok(Unit)))
    case PendingOp => (s, Count(Outbox.PendingCount(s)))
    case ParkedOp => (s, Count(Outbox.ParkedCount(s)))
  }

  /** What the SQLite statements do to the table, and what is returned. */
  ghost function SqliteStep(t: Table, op: Op): (Table, Reply) {
    match op
    case AppendOp(event) =>
      if !ValidTopic(event.topic) then (t, Done(Err(InvalidTopic(event.topic))))
      else (match Encode(event.headers)
            case Err(e) => (t, Done(Err(e)))
            case Ok(headers) => (InsertOrIgnore(t, Hyphenated(event.id), AppendedRow(event, headers)), Done(Ok(Unit))))
    case FetchOp(limit, now) => (t, Batch(DecodeRows(RowsAt(t, SelectDue(t, limit, now)))))
    case DispatchOp(id, at) => (SetDispatched(t, Hyphenated(id), ClampI64(at)), Done(Ok(Unit)))
    case FailOp(id, error, at) =>
      (SetFailed(t, Hyphenated(id), Truncated(error, MAX_ERROR_BYTES), ClampI64(at)), Done(Ok(Unit)))
    case PendingOp => (t, Count(|PendingRows(t)|))
    case ParkedOp => (t, Count(|ParkedRows(t)|))
  }

  /** What each `SqliteStore` method does to its view, and what it returns. */
  ghost function DurableStep(s: Outbox.Store, op: Op): (Outbox.Store, Reply) {
    match op
    case AppendOp(event) => (DurableAppend(s, event), Done(DurableAppendReply(event)))
    case FetchOp(limit, now) => (s, Batch(Ok(Outbox.FetchDue(s, Min(limit, I64_MAX), now))))
    case DispatchOp(id, _) => (Outbox.MarkDispatched(s, id), Done(Ok(Unit)))
    case FailOp(id, error, at) =>
      (Outbox.MarkFailed(s, id, Truncated(error, MAX_ERROR_BYTES), DurableStamp(at)), Done(Ok(Unit)))
    case PendingOp => (s, Count(Outbox.PendingCount(s)))
    case ParkedOp => (s, Count(Outbox.ParkedCount(s)))
  }

  lemma SqliteStepRefines(t: Table, s: Outbox.Store, op: Op)
    requires Represents(t, s)
    ensures Represents(SqliteStep(t, op).0, DurableStep(s, op).0)
    ensures SqliteStep(t, op).1 == DurableStep(s, op).1
  {
    hide Represents, Hyphenated, Encode, DecodeRows, Truncated;
    match op
    case AppendOp(event) =>
      if ValidTopic(event.topic) && Encode(event.headers).Ok? {
        AppendRefines(t, s, event);
      }
    case FetchOp(limit, now) => SelectedRowsDecode(t, s, limit, now);
    case DispatchOp(id, at) => MarkDispatchedRefines(t, s, id, ClampI64(at));
    case FailOp(id, error, at) => MarkFailedRefines(t, s, id, Truncated(error, MAX_ERROR_BYTES), at);
    case PendingOp => CountsRefine(t, s);
    case ParkedOp => CountsRefine(t, s);
  }

  // --- exactly when the two stores agree on a call -------------------------------------

  /** The call is one on which 64-bit columns, the headers codec and the
      treatment of unknown ids make no difference. */
  predicate Comparable(s: Outbox.Store, op: Op) {
    match op
    case AppendOp(event) =>
      ValidTopic(event.topic) ==> Encode(event.headers).Ok? && (event.id in s || event.createdAt < I64_MAX)
    case FetchOp(limit, now) => limit <= I64_MAX || |Outbox.DueIds(s, now)| <= I64_MAX
    case DispatchOp(id, _) => id in s
    case FailOp(id, _, at) => id in s && s[id].Live? ==> at < I64_MAX || at == NEVER
    case PendingOp => true
    case ParkedOp => true
  }

  lemma RepresentedIsCoherent(t: Table, s: Outbox.Store)
    requires Represents(t, s)
    ensures Outbox.Coherent(s)
  {
    hide Hyphenated, Holds;
  }

  lemma FetchLimitMatters(s: Outbox.Store, limit: nat, now: U64)
    requires Outbox.Coherent(s)
    ensures Outbox.FetchDue(s, Min(limit, I64_MAX), now) == Outbox.FetchDue(s, limit, now) <==>
            limit <= I64_MAX || |Outbox.DueIds(s, now)| <= I64_MAX
  {
    Outbox.FetchIsComplete(s, limit, now);
    Outbox.FetchIsComplete(s, Min(limit, I64_MAX), now);
    Outbox.DueCount(s, now);
    ArrangeCount(Outbox.DueKeys(s, now));
  }

  lemma DurableStepAgrees(s: Outbox.Store, op: Op)
    requires Outbox.Coherent(s)
    ensures DurableStep(s, op) == MemoryStep(s, op) <==> Comparable(s, op)
  {
    hide Truncated, Encode, Outbox.FetchDue;
    match op
    case AppendOp(event) =>
      if ValidTopic(event.topic) && event.id !in s {
        var a, b := DurableStep(s, op).0, MemoryStep(s, op).0;
        assert b[event.id] == Outbox.Live(event.createdAt, event);
      }
    case FetchOp(limit, now) => FetchLimitMatters(s, limit, now);
    case DispatchOp(id, _) => assert id in MemoryStep(s, op).0;
    case FailOp(id, _, at) =>
      if id in s && s[id].Live? {
        assert DurableStep(s, op).0[id].at == DurableStamp(at) && MemoryStep(s, op).0[id].at == at;
      }
    case PendingOp =>
    case ParkedOp =>
  }

  /** On one call the SQLite table keeps standing for the memory store's state
      and gives its answer if and only if the call is comparable. */
  lemma StepAgrees(t: Table, s: Outbox.Store, op: Op)
    requires Represents(t, s)
    ensures Represents(SqliteStep(t, op).0, MemoryStep(s, op).0) && SqliteStep(t, op).1 == MemoryStep(s, op).1
            <==> Comparable(s, op)
  {
    hide Represents, SqliteStep, MemoryStep, DurableStep, Comparable;
    RepresentedIsCoherent(t, s);
    SqliteStepRefines(t, s, op);
    DurableStepAgrees(s, op);
    if Represents(SqliteStep(t, op).0, MemoryStep(s, op).0) {
      RepresentsUnique(SqliteStep(t, op).0, DurableStep(s, op).0, MemoryStep(s, op).0);
    }
  }

  // --- whole runs --------------------------------------------------------------------------

  ghost function MemoryRun(s: Outbox.Store, ops: seq<Op>): (Outbox.Store, seq<Reply>)
    decreases |ops|
  {
    if ops == [] then (s, [])
    else
      var (s1, reply) := MemoryStep(s, ops[0]);
      var (s2, replies) := MemoryRun(s1, ops[1..]);
      (s2, [reply] + replies)
  }

  ghost function SqliteRun(t: Table, ops: seq<Op>): (Table, seq<Reply>)
    decreases |ops|
  {
    if ops == [] then (t, [])
    else
      var (t1, reply) := SqliteStep(t, ops[0]);
      var (t2, replies) := SqliteRun(t1, ops[1..]);
      (t2, [reply] + replies)
  }

  ghost predicate AllComparable(s: Outbox.Store, ops: seq<Op>)
    decreases |ops|
  {
    ops == [] || (Comparable(s, ops[0]) && AllComparable(MemoryStep(s, ops[0]).0, ops[1..]))
  }

  /** Every run of comparable calls gets the same replies from both stores:
      the same batches in the same order, the same counts, the same errors. */
  lemma {:induction false} SqliteSimulatesMemory(t: Table, s: Outbox.Store, ops: seq<Op>)
    requires Represents(t, s) && AllComparable(s, ops)
    ensures SqliteRun(t, ops).1 == MemoryRun(s, ops).1
    ensures Represents(SqliteRun(t, ops).0, MemoryRun(s, ops).0)
    decreases |ops|
  {
    hide Represents, SqliteStep, MemoryStep, Comparable;
    if ops != [] {
      StepAgrees(t, s, ops[0]);
      SqliteSimulatesMemory(SqliteStep(t, ops[0]).0, MemoryStep(s, ops[0]).0, ops[1..]);
    }
  }

  /** Where the two stores part: marking an id nobody appended is remembered by
      the memory store, which then swallows that id's append; SQLite, as the
      contract asks, ignores the mark and keeps the event. */
  lemma UnknownMarkSwallowsAppend(event: OutboxEvent, at: U64)
    requires ValidTopic(event.topic) && Encode(event.headers).Ok? && event.createdAt < I64_MAX
    ensures var ops := [DispatchOp(event.id, at), AppendOp(event)];
      Outbox.PendingCount(MemoryRun(map[], ops).0) == 0 && |PendingRows(SqliteRun(map[], ops).0)| == 1
  {
    hide Hyphenated, Encode;
    var ops := [DispatchOp(event.id, at), AppendOp(event)];
    assert ops[1..] == [AppendOp(event)] && ops[1..][1..] == [];
    var m, t := MemoryRun(map[], ops).0, SqliteRun(map[], ops).0;
    var m1, t1 := MemoryStep(map[], ops[0]).0, SqliteStep(map[], ops[0]).0;
    assert m == MemoryRun(m1, ops[1..]).0 == MemoryStep(m1, ops[1]).0;
    assert t == SqliteRun(t1, ops[1..]).0 == SqliteStep(t1, ops[1]).0;
    assert m == map[event.id := Outbox.Dispatched];
    assert (set id | id in m && Outbox.Pending(m, id)) == {};
    assert t == map[Hyphenated(event.id) := AppendedRow(event, Encode(event.headers).value)];
    assert PendingRows(t) == {Hyphenated(event.id)};
  }
}
