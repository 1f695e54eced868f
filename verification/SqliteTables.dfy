/** The SQLite store's statements as operations on a table keyed by id text,
    and the proof that each refines the store contract. */
module SqliteTables {
  import opened Base
  import opened Ordering
  import opened EventIds
  import opened Events
  import opened Codec
  import opened Rows
  import Outbox

  /** One row of `outbox_events`. */
  datatype Row = Row(envelope: Envelope, nextAttemptAt: int, dispatchedAt: Option<int>)

  type Table = map<Bytes, Row>

  const PARKED_AS_I64 := I64_MAX

  // --- statements ---------------------------------------------------------------

  function InsertOrIgnore(t: Table, text: Bytes, row: Row): Table {
    if text in t then t else t[text := row]
  }

  /** `.. SET dispatched_at = at WHERE id = text AND dispatched_at IS NULL` */
  function SetDispatched(t: Table, text: Bytes, at: int): Table {
    if text in t && t[text].dispatchedAt.None? then t[text := t[text].(dispatchedAt := Some(at))] else t
  }

  /** `.. SET attempts = attempts + 1, last_error, next_attempt_at WHERE id = text` */
  function SetFailed(t: Table, text: Bytes, diagnostic: Bytes, at: int): Table {
    if text in t then t[text := FailedRow(t[text], diagnostic, at)] else t
  }

  function AppendedRow(event: OutboxEvent, headers: Bytes): Row {
    Row(EnvelopeOf(event, headers, ClampI64(event.attempts)), ClampI64(event.createdAt), None)
  }

  /** The row keys the WHERE clause of the due query accepts. */
  function SelectableKeys(t: Table, now: int): set<Key> {
    set text | text in t && t[text].dispatchedAt.None? &&
               t[text].nextAttemptAt <= now && t[text].nextAttemptAt < PARKED_AS_I64 ::
      Key(t[text].nextAttemptAt, text)
  }

  /** The due query: WHERE, ORDER BY and LIMIT. */
  ghost function SelectDue(t: Table, limit: nat, now: U64): (ks: seq<Key>)
    ensures forall k | k in ks :: k.id in t
  {
    FirstKeys(SelectableKeys(t, ClampI64(now)), Min(limit, I64_MAX));
    Take(Arrange(SelectableKeys(t, ClampI64(now))), Min(limit, I64_MAX))
  }

  function PendingRows(t: Table): set<Bytes> {
    set text | text in t && t[text].dispatchedAt.None? && t[text].nextAttemptAt < PARKED_AS_I64
  }

  function ParkedRows(t: Table): set<Bytes> {
    set text | text in t && t[text].dispatchedAt.None? && t[text].nextAttemptAt >= PARKED_AS_I64
  }

  // --- the refinement relation ------------------------------------------------------

  /** A stored stamp stands for `at`: only `NEVER` is stored at the ceiling. */
  predicate StampHolds(stored: int, at: U64) {
    0 <= stored <= I64_MAX && at == if stored == I64_MAX then NEVER else stored
  }

  ghost predicate RowHolds(row: Row, id: EventId, entry: Outbox.Entry) {
    match entry
    case Dispatched => row.dispatchedAt.Some?
    case Live(at, event) =>
      row.dispatchedAt.None? && StampHolds(row.nextAttemptAt, at) && event.id == id && Holds(row.envelope, event)
  }

  ghost predicate Represents(t: Table, s: Outbox.Store) {
    && (forall id: EventId :: id in s <==> Hyphenated(id) in t)
    && (forall text | text in t :: CanonicalText(text))
    && (forall id | id in s :: RowHolds(t[Hyphenated(id)], id, s[id]))
  }

  lemma RowHoldsUnique(row: Row, id: EventId, a: Outbox.Entry, b: Outbox.Entry)
    requires RowHolds(row, id, a) && RowHolds(row, id, b)
    ensures a == b
  {}

  /** A table stands for one store state only. */
  lemma RepresentsUnique(t: Table, a: Outbox.Store, b: Outbox.Store)
    requires Represents(t, a) && Represents(t, b)
    ensures a == b
  {
    hide Hyphenated, RowHolds, CanonicalText;
    forall id: EventId ensures id in a <==> id in b {
      assert id in a <==> Hyphenated(id) in t;
      assert id in b <==> Hyphenated(id) in t;
    }
    forall id | id in a ensures a[id] == b[id] {
      RowHoldsUnique(t[Hyphenated(id)], id, a[id], b[id]);
    }
  }

  lemma EmptyRepresents()
    ensures Represents(map[], map[])
  {}

  lemma PutRepresents(t: Table, s: Outbox.Store, id: EventId, row: Row, entry: Outbox.Entry)
    requires Represents(t, s) && RowHolds(row, id, entry)
    ensures Represents(t[Hyphenated(id) := row], s[id := entry])
  {
    hide Hyphenated, Holds, Parse;
    ParseHyphenated(id);
    forall x: EventId | x != id ensures Hyphenated(x) != Hyphenated(id) {
      HyphenatedOrder(x, id);
    }
  }

  lemma DeleteRepresents(t: Table, s: Outbox.Store, id: EventId)
    requires Represents(t, s)
    ensures Represents(t - {Hyphenated(id)}, s - {id})
  {
    hide Hyphenated, RowHolds, CanonicalText;
    forall x: EventId | x != id ensures Hyphenated(x) != Hyphenated(id) {
      HyphenatedOrder(x, id);
    }
  }

  // --- each write refines its contract ---------------------------------------------------

  /** A stamp as the clamped column reads back. */
  function DurableStamp(at: U64): U64 {
    if at >= I64_MAX then NEVER else at
  }

  /** `append` as the durable store performs it. */
  function DurableAppend(s: Outbox.Store, event: OutboxEvent): Outbox.Store {
    if !ValidTopic(event.topic) || event.id in s || Encode(event.headers).Err? then s
    else s[event.id := Outbox.Live(DurableStamp(event.createdAt), Durable(event))]
  }

  function DurableAppendReply(event: OutboxEvent): Result<Unit> {
    if !ValidTopic(event.topic) then Err(InvalidTopic(event.topic))
    else match Encode(event.headers)
      case Ok(_) => Ok(Unit)
      case Err(e) => Err(e)
  }

  lemma AppendRefines(t: Table, s: Outbox.Store, event: OutboxEvent)
    requires Represents(t, s) && ValidTopic(event.topic) && Encode(event.headers).Ok?
    ensures Represents(InsertOrIgnore(t, Hyphenated(event.id), AppendedRow(event, Encode(event.headers).value)),
                       DurableAppend(s, event))
  {
    hide Hyphenated, Encode, Decode;
    if event.id !in s {
      WrittenRowHolds(event, event.attempts);
      var row := AppendedRow(event, Encode(event.headers).value);
      PutRepresents(t, s, event.id, row, Outbox.Live(DurableStamp(event.createdAt), Durable(event)));
    }
  }

  lemma MarkDispatchedRefines(t: Table, s: Outbox.Store, id: EventId, at: int)
    requires Represents(t, s)
    ensures Represents(SetDispatched(t, Hyphenated(id), at), Outbox.MarkDispatched(s, id))
  {
    hide Hyphenated, Holds, CanonicalText;
    if id in s {
      var row := t[Hyphenated(id)];
      var row' := if row.dispatchedAt.None? then row.(dispatchedAt := Some(at)) else row;
      PutRepresents(t, s, id, row', Outbox.Dispatched);
      assert t[Hyphenated(id) := row'] == SetDispatched(t, Hyphenated(id), at);
    }
  }

  function FailedRow(row: Row, diagnostic: Bytes, at: int): Row {
    var e := row.envelope.(attempts := row.envelope.attempts + 1, lastError := Some(diagnostic));
    row.(envelope := e, nextAttemptAt := at)
  }

  lemma FailedRowHolds(row: Row, id: EventId, entry: Outbox.Entry, diagnostic: Bytes, retryAt: U64)
    requires RowHolds(row, id, entry)
    ensures RowHolds(FailedRow(row, diagnostic, ClampI64(retryAt)), id,
      if entry.Live? then Outbox.Live(DurableStamp(retryAt), Outbox.FailedEvent(entry.event, diagnostic)) else entry)
  {
    hide Decode;
  }

  lemma MarkFailedRefines(t: Table, s: Outbox.Store, id: EventId, diagnostic: Bytes, retryAt: U64)
    requires Represents(t, s)
    ensures Represents(SetFailed(t, Hyphenated(id), diagnostic, ClampI64(retryAt)),
                       Outbox.MarkFailed(s, id, diagnostic, DurableStamp(retryAt)))
  {
    hide Hyphenated, Holds, CanonicalText, FailedRow, Outbox.FailedEvent, DurableStamp;
    if id in s {
      var row := t[Hyphenated(id)];
      FailedRowHolds(row, id, s[id], diagnostic, retryAt);
      var entry := if s[id].Live?
        then Outbox.Live(DurableStamp(retryAt), Outbox.FailedEvent(s[id].event, diagnostic)) else s[id];
      PutRepresents(t, s, id, FailedRow(row, diagnostic, ClampI64(retryAt)), entry);
      assert s[id := entry] == Outbox.MarkFailed(s, id, diagnostic, DurableStamp(retryAt));
    }
  }

  // --- each query refines its contract --------------------------------------------------

  lemma SelectableTexts(t: Table, s: Outbox.Store, now: U64)
    requires Represents(t, s)
    ensures TextsOf(Outbox.DueKeys(s, now), SelectableKeys(t, ClampI64(now)))
  {
    hide Hyphenated, Holds, Parse;
    var keys := SelectableKeys(t, ClampI64(now));
    forall k | k in Outbox.DueKeys(s, now) ensures |k.id| == 16 && TextKey(k) in keys {
      var id :| id in s && Outbox.Due(s, id, now) && k == Key(s[id].at, id);
      assert RowHolds(t[Hyphenated(id)], id, s[id]);
    }
    forall k | k in keys ensures exists x :: x in Outbox.DueKeys(s, now) && TextKey(x) == k {
      assert CanonicalText(k.id);
      var id := Parse(k.id).value;
      assert id in s && RowHolds(t[Hyphenated(id)], id, s[id]);
      assert Outbox.Due(s, id, now);
      assert Key(s[id].at, id) in Outbox.DueKeys(s, now);
    }
  }

  /** The due query selects, in order, the rows of the contract's fetch. */
  lemma SelectDueRefines(t: Table, s: Outbox.Store, limit: nat, now: U64)
    requires Represents(t, s)
    ensures Outbox.KeysLive(s, Outbox.FetchKeys(s, Min(limit, I64_MAX), now))
    ensures SelectDue(t, limit, now) == TextKeys(Outbox.FetchKeys(s, Min(limit, I64_MAX), now))
  {
    hide Hyphenated, Holds, Parse;
    SelectableTexts(t, s, now);
    var due := Outbox.DueKeys(s, now);
    ArrangeByText(due, SelectableKeys(t, ClampI64(now)));
    TakeTextKeys(Arrange(due), Min(limit, I64_MAX));
  }

  /** The columns of the selected rows. */
  function RowsAt(t: Table, ks: seq<Key>): (r: seq<(Bytes, Envelope)>)
    requires forall k | k in ks :: k.id in t
  {
    seq(|ks|, i requires 0 <= i < |ks| => assert ks[i] in ks; (ks[i].id, t[ks[i].id].envelope))
  }

  /** In a table that stands for a store every selected row decodes, and the
      decoded batch is the batch the contract returns. */
  lemma SelectedRowsDecode(t: Table, s: Outbox.Store, limit: nat, now: U64)
    requires Represents(t, s)
    ensures DecodeRows(RowsAt(t, SelectDue(t, limit, now))) == Ok(Outbox.FetchDue(s, Min(limit, I64_MAX), now))
  {
    hide Hyphenated, DecodeRow, Holds, Represents, SelectDue;
    SelectDueRefines(t, s, limit, now);
    var ks := Outbox.FetchKeys(s, Min(limit, I64_MAX), now);
    var texts, due := SelectDue(t, limit, now), Outbox.FetchDue(s, Min(limit, I64_MAX), now);
    forall i | 0 <= i < |ks| ensures DecodeRow(texts[i].id, t[texts[i].id].envelope) == Ok(due[i]) {
      assert ks[i] in ks;
      LiveRowDecodes(t, s, ks[i].id);
    }
    DecodeRowsIsRowwise(RowsAt(t, texts));
    assert DecodeRows(RowsAt(t, texts)).value == due;
  }

  lemma LiveRowDecodes(t: Table, s: Outbox.Store, id: EventId)
    requires Represents(t, s) && id in s && s[id].Live?
    ensures Hyphenated(id) in t && DecodeRow(Hyphenated(id), t[Hyphenated(id)].envelope) == Ok(s[id].event)
  {
    hide Hyphenated, DecodeRow, Holds;
    assert RowHolds(t[Hyphenated(id)], id, s[id]);
    HeldRowDecodes(id, t[Hyphenated(id)].envelope, s[id].event);
  }

  lemma CountsRefine(t: Table, s: Outbox.Store)
    requires Represents(t, s)
    ensures |PendingRows(t)| == Outbox.PendingCount(s)
    ensures |ParkedRows(t)| == Outbox.ParkedCount(s)
  {
    hide Hyphenated, Holds, Parse;
    var pending := set id | id in s && Outbox.Pending(s, id);
    var parked := set id | id in s && Outbox.Parked(s, id);
    TextCount(pending);
    TextCount(parked);
    forall text | text in t ensures Hyphenated(Parse(text).value) == text && Parse(text).value in s {
      assert CanonicalText(text);
    }
    assert forall id | id in s :: RowHolds(t[Hyphenated(id)], id, s[id]);
    assert PendingRows(t) == set id | id in pending :: Hyphenated(id);
    assert ParkedRows(t) == set id | id in parked :: Hyphenated(id);
  }
}
