/** One Postgres client with no rival answers as the memory store does, exactly
    as far as the conditions of `Comparable` hold. */
module PostgresSimulation {
  import opened Base
  import opened Truncation
  import opened EventIds
  import opened Events
  import opened Codec
  import opened Rows
  import opened PostgresTables
  import opened Simulation
  import Outbox

  /** What the statements do to the table, and what is returned. */
  ghost function PostgresStep(t: Table, op: Op): (Table, Reply) {
    match op
    case AppendOp(event) =>
      if !ValidTopic(event.topic) then (t, Done(Err(InvalidTopic(event.topic))))
      else (match Encode(event.headers)
            case Err(e) => (t, Done(Err(e)))
            case Ok(headers) =>
              (InsertIfAbsent(t, Hyphenated(event.id), PostgresTables.AppendedRow(event, headers)), Done(Ok(Unit))))
    case FetchOp(limit, now) =>
      (t, Batch(DecodeRows(PostgresTables.RowsAt(t, SelectForUpdate(t, {}, limit, now)))))
    case DispatchOp(id, at) => (PostgresTables.SetDispatched(t, Hyphenated(id), ClampI64(at)), Done(Ok(Unit)))
    case FailOp(id, error, at) =>
      (match PostgresTables.SetFailed(t, Hyphenated(id), Truncated(error, MAX_ERROR_BYTES), ClampI64(at))
       case Err(e) => (t, Done(Err(e)))
       case Ok(t') => (t', Done(Ok(Unit))))
    case PendingOp => (t, Count(|RowsWith(t, Pending)|))
    case ParkedOp => (t, Count(|RowsWith(t, Parked)|))
  }

  /** The call is one on which the column widths, the status column and the
      treatment of unknown ids make no difference. */
  predicate Comparable(s: Outbox.Store, op: Op) {
    match op
    case AppendOp(event) =>
      ValidTopic(event.topic) ==>
        Encode(event.headers).Ok? && (event.id in s || (event.createdAt <= I64_MAX && event.attempts <= I32_MAX))
    case FetchOp(limit, now) => limit <= I64_MAX || |Outbox.DueIds(s, now)| <= I64_MAX
    case DispatchOp(id, _) => id in s
    case FailOp(id, _, at) =>
      id in s ==> s[id].Live? && s[id].event.attempts < I32_MAX && (at < I64_MAX || at == NEVER)
    case PendingOp => true
    case ParkedOp => true
  }

  /** What remains to hold after a call that agrees. */
  ghost predicate Agrees(t: Table, s: Outbox.Store, op: Op) {
    Represents(PostgresStep(t, op).0, MemoryStep(s, op).0) && PostgresStep(t, op).1 == MemoryStep(s, op).1
  }

  lemma AppendAgrees(t: Table, s: Outbox.Store, event: OutboxEvent)
    requires Represents(t, s)
    ensures Agrees(t, s, AppendOp(event)) <==> Comparable(s, AppendOp(event))
  {
    hide Represents, Hyphenated, Encode, PostgresTables.AppendedRow;
    if ValidTopic(event.topic) && Encode(event.headers).Ok? {
      AppendRefines(t, s, event);
      var m, d := MemoryStep(s, AppendOp(event)).0, StoredAppend(s, event);
      if Agrees(t, s, AppendOp(event)) {
        RepresentsUnique(PostgresStep(t, AppendOp(event)).0, m, d);
      }
      if event.id !in s {
        assert m[event.id] == Outbox.Live(event.createdAt, event);
        assert d[event.id] == Outbox.Live(ClampI64(event.createdAt), Stored(event));
      }
    }
  }

  lemma FetchAgrees(t: Table, s: Outbox.Store, limit: nat, now: U64)
    requires Represents(t, s)
    ensures Agrees(t, s, FetchOp(limit, now)) <==> Comparable(s, FetchOp(limit, now))
  {
    hide Hyphenated, DecodeRows, Outbox.FetchDue, Holds, SelectForUpdate;
    SelectedRowsDecode(t, s, limit, now);
    FetchLimitMatters(s, limit, now);
  }

  lemma DispatchAgrees(t: Table, s: Outbox.Store, id: EventId, at: U64)
    requires Represents(t, s)
    ensures Agrees(t, s, DispatchOp(id, at)) <==> Comparable(s, DispatchOp(id, at))
  {
    hide Represents, Hyphenated, PostgresTables.SetDispatched;
    MarkDispatchedRefines(t, s, id, ClampI64(at));
    var m := MemoryStep(s, DispatchOp(id, at)).0;
    if Agrees(t, s, DispatchOp(id, at)) {
      RepresentsUnique(PostgresStep(t, DispatchOp(id, at)).0, m, Outbox.MarkDispatched(s, id));
      assert id in m;
    }
  }

  lemma FailAgrees(t: Table, s: Outbox.Store, op: Op)
    requires Represents(t, s) && op.FailOp?
    ensures Agrees(t, s, op) <==> Comparable(s, op)
  {
    hide Represents, Hyphenated, Truncated, PostgresTables.SetFailed, Outbox.FailedEvent;
    var id, at := op.id, op.retryAt;
    var diagnostic := Truncated(op.error, MAX_ERROR_BYTES);
    var m := MemoryStep(s, op).0;
    if id in s && s[id].Dispatched? {
      MarkFailedRevives(t, s, id, diagnostic, at);
    } else {
      MarkFailedRefines(t, s, id, diagnostic, at);
      if id in s {
        FullIsNotBeyond(t, s, id);
        var d := Outbox.MarkFailed(s, id, diagnostic, StoredStamp(at));
        if Agrees(t, s, op) {
          RepresentsUnique(PostgresStep(t, op).0, m, d);
        }
        assert m[id].at == at && d[id].at == StoredStamp(at);
      }
    }
  }

  lemma FullIsNotBeyond(t: Table, s: Outbox.Store, id: EventId)
    requires Represents(t, s) && id in s && s[id].Live?
    ensures s[id].event.attempts <= I32_MAX
  {
    hide Hyphenated, Decode, CanonicalText;
    assert RowHolds(t[Hyphenated(id)], id, s[id]);
  }

  /** On one call the table keeps standing for the memory store's state and
      gives its answer if and only if the call is comparable. */
  lemma StepAgrees(t: Table, s: Outbox.Store, op: Op)
    requires Represents(t, s)
    ensures Agrees(t, s, op) <==> Comparable(s, op)
  {
    hide Represents;
    match op
    case AppendOp(event) => AppendAgrees(t, s, event);
    case FetchOp(limit, now) => FetchAgrees(t, s, limit, now);
    case DispatchOp(id, at) => DispatchAgrees(t, s, id, at);
    case FailOp(_, _, _) => FailAgrees(t, s, op);
    case PendingOp => CountsRefine(t, s);
    case ParkedOp => CountsRefine(t, s);
  }

  // --- whole runs ------------------------------------------------------------------

  ghost function PostgresRun(t: Table, ops: seq<Op>): (Table, seq<Reply>)
    decreases |ops|
  {
    if ops == [] then (t, [])
    else
      var (t1, reply) := PostgresStep(t, ops[0]);
      var (t2, replies) := PostgresRun(t1, ops[1..]);
      (t2, [reply] + replies)
  }

  ghost predicate AllComparable(s: Outbox.Store, ops: seq<Op>)
    decreases |ops|
  {
    ops == [] || (Comparable(s, ops[0]) && AllComparable(MemoryStep(s, ops[0]).0, ops[1..]))
  }

  /** Every run of comparable calls gets the memory store's replies. */
  lemma {:induction false} PostgresSimulatesMemory(t: Table, s: Outbox.Store, ops: seq<Op>)
    requires Represents(t, s) && AllComparable(s, ops)
    ensures PostgresRun(t, ops).1 == MemoryRun(s, ops).1
    ensures Represents(PostgresRun(t, ops).0, MemoryRun(s, ops).0)
    decreases |ops|
  {
    hide Represents, PostgresStep, MemoryStep, Comparable;
    if ops != [] {
      StepAgrees(t, s, ops[0]);
      PostgresSimulatesMemory(PostgresStep(t, ops[0]).0, MemoryStep(s, ops[0]).0, ops[1..]);
    }
  }
}
