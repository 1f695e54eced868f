/** The Postgres store's statements as operations on a table keyed by id text,
    with the status column, and what each does to the store they stand for. */
module PostgresTables {
  import opened Base
  import opened Ordering
  import opened EventIds
  import opened Events
  import opened Codec
  import opened Rows
  import Outbox

  datatype Status = Pending | Parked | Dispatched

  /** One row of `outbox_events`. */
  datatype Row = Row(envelope: Envelope, status: Status, nextAttemptAt: int, dispatchedAt: Option<int>)

  type Table = map<Bytes, Row>

  const PARKED_AS_I64 := I64_MAX

  function ClampI32(value: U32): int {
    Min(value, I32_MAX)
  }

  // --- statements ---------------------------------------------------------------

  function AppendedRow(event: OutboxEvent, headers: Bytes): Row {
    Row(EnvelopeOf(event, headers, ClampI32(event.attempts)), Pending, ClampI64(event.createdAt), None)
  }

  /** `INSERT .. ON CONFLICT (id) DO NOTHING` */
  function InsertIfAbsent(t: Table, text: Bytes, row: Row): Table {
    if text in t then t else t[text := row]
  }

  /** `.. SET status = 'dispatched', dispatched_at = at WHERE id = text AND status <> 'dispatched'` */
  function SetDispatched(t: Table, text: Bytes, at: int): Table {
    if text in t && t[text].status != Dispatched
    then t[text := t[text].(status := Dispatched, dispatchedAt := Some(at))]
    else t
  }

  function FailedRow(row: Row, diagnostic: Bytes, at: int): Row {
    Row(row.envelope.(attempts := row.envelope.attempts + 1, lastError := Some(diagnostic)),
        if at >= PARKED_AS_I64 then Parked else Pending, at, row.dispatchedAt)
  }

  const OUT_OF_RANGE := "integer out of range"

  /** `.. SET attempts = attempts + 1, .. status = CASE .. WHERE id = text`, with
      no guard on the status. The INTEGER column overflows with an error. */
  function SetFailed(t: Table, text: Bytes, diagnostic: Bytes, at: int): Result<Table> {
    if text !in t then Ok(t)
    else if t[text].envelope.attempts >= I32_MAX then Err(Backend(OUT_OF_RANGE))
    else Ok(t[text := FailedRow(t[text], diagnostic, at)])
  }

  /** The rows the claim query may lock: due, pending, and locked by nobody. */
  function ClaimableKeys(t: Table, locked: set<Bytes>, now: int): set<Key> {
    set text | text in t && text !in locked && t[text].status == Pending && t[text].nextAttemptAt <= now ::
      Key(t[text].nextAttemptAt, text)
  }

  /** `ORDER BY next_attempt_at, id LIMIT limit FOR UPDATE SKIP LOCKED` */
  ghost function SelectForUpdate(t: Table, locked: set<Bytes>, limit: nat, now: U64): (ks: seq<Key>)
    ensures forall k | k in ks :: k.id in t
  {
    FirstKeys(ClaimableKeys(t, locked, ClampI64(now)), Min(limit, I64_MAX));
    Take(Arrange(ClaimableKeys(t, locked, ClampI64(now))), Min(limit, I64_MAX))
  }

  function RowsWith(t: Table, status: Status): set<Bytes> {
    set text | text in t && t[text].status == status
  }

  /** The columns of the selected rows. */
  function RowsAt(t: Table, ks: seq<Key>): (r: seq<(Bytes, Envelope)>)
    requires forall k | k in ks :: k.id in t
  {
    seq(|ks|, i requires 0 <= i < |ks| => assert ks[i] in ks; (ks[i].id, t[ks[i].id].envelope))
  }

  // --- the store a table stands for ----------------------------------------------

  ghost predicate RowHolds(row: Row, id: EventId, entry: Outbox.Entry) {
    && row.envelope.attempts <= I32_MAX
    && match entry
       case Dispatched => row.status == Dispatched
       case Live(at, event) =>
         && event.id == id && Holds(row.envelope, event)
         && match row.status
            case Pending => at == row.nextAttemptAt && at <= I64_MAX
            case Parked => at == NEVER
            case Dispatched => false
  }

  ghost predicate Represents(t: Table, s: Outbox.Store) {
    && (forall id: EventId :: id in s <==> Hyphenated(id) in t)
    && (forall text | text in t :: CanonicalText(text))
    && (forall id | id in s :: RowHolds(t[Hyphenated(id)], id, s[id]))
  }

  lemma RepresentsUnique(t: Table, a: Outbox.Store, b: Outbox.Store)
    requires Represents(t, a) && Represents(t, b)
    ensures a == b
  {
    hide Hyphenated, Decode, CanonicalText;
    forall id: EventId ensures id in a <==> id in b {
      assert id in a <==> Hyphenated(id) in t;
      assert id in b <==> Hyphenated(id) in t;
    }
    forall id | id in a ensures a[id] == b[id] {
      assert RowHolds(t[Hyphenated(id)], id, a[id]) && RowHolds(t[Hyphenated(id)], id, b[id]);
    }
  }

  lemma PutRepresents(t: Table, s: Outbox.Store, id: EventId, row: Row, entry: Outbox.Entry)
    requires Represents(t, s) && RowHolds(row, id, entry)
    ensures Represents(t[Hyphenated(id) := row], s[id := entry])
  {
    hide Hyphenated, RowHolds, Parse;
    ParseHyphenated(id);
    forall x: EventId | x != id ensures Hyphenated(x) != Hyphenated(id) {
      HyphenatedOrder(x, id);
    }
  }

  // --- writes -------------------------------------------------------------------------

  /** The event as the columns can keep it. */
  function Stored(event: OutboxEvent): OutboxEvent {
    event.(createdAt := ClampI64(event.createdAt), attempts := ClampI32(event.attempts))
  }

  /** `append` as Postgres performs it: the row starts pending whatever its stamp. */
  function StoredAppend(s: Outbox.Store, event: OutboxEvent): Outbox.Store {
    if !ValidTopic(event.topic) || event.id in s || Encode(event.headers).Err? then s
    else s[event.id := Outbox.Live(ClampI64(event.createdAt), Stored(event))]
  }

  lemma StoredRowHolds(event: OutboxEvent)
    requires Encode(event.headers).Ok?
    ensures Holds(AppendedRow(event, Encode(event.headers).value).envelope, Stored(event))
  {
    var clamped := event.(attempts := ClampI32(event.attempts));
    WrittenRowHolds(clamped, clamped.attempts);
  }

  lemma AppendRefines(t: Table, s: Outbox.Store, event: OutboxEvent)
    requires Represents(t, s) && ValidTopic(event.topic) && Encode(event.headers).Ok?
    ensures Represents(InsertIfAbsent(t, Hyphenated(event.id), AppendedRow(event, Encode(event.headers).value)),
                       StoredAppend(s, event))
  {
    hide Hyphenated, Encode, Holds;
    if event.id !in s {
      StoredRowHolds(event);
      var row := AppendedRow(event, Encode(event.headers).value);
      PutRepresents(t, s, event.id, row, Outbox.Live(ClampI64(event.createdAt), Stored(event)));
    }
  }

  lemma MarkDispatchedRefines(t: Table, s: Outbox.Store, id: EventId, at: int)
    requires Represents(t, s)
    ensures Represents(SetDispatched(t, Hyphenated(id), at), Outbox.MarkDispatched(s, id))
  {
    hide Hyphenated, Holds, CanonicalText;
    if id in s {
      var row := t[Hyphenated(id)];
      var row' := if row.status != Dispatched then row.(status := Dispatched, dispatchedAt := Some(at)) else row;
      PutRepresents(t, s, id, row', Outbox.Dispatched);
      assert t[Hyphenated(id) := row'] == SetDispatched(t, Hyphenated(id), at);
    }
  }

  /** A retry stamp at the column's ceiling parks. */
  function StoredStamp(at: U64): U64 {
    if at >= I64_MAX then NEVER else at
  }

  predicate AttemptsFull(s: Outbox.Store, id: EventId) {
    id in s && s[id].Live? && s[id].event.attempts == I32_MAX
  }

  lemma FailedRowHolds(row: Row, id: EventId, entry: Outbox.Entry, diagnostic: Bytes, retryAt: U64)
    requires RowHolds(row, id, entry) && entry.Live? && entry.event.attempts < I32_MAX
    ensures RowHolds(FailedRow(row, diagnostic, ClampI64(retryAt)), id,
      Outbox.Live(StoredStamp(retryAt), Outbox.FailedEvent(entry.event, diagnostic)))
  {
    hide Decode;
  }

  /** On an id that is not dispatched, `mark_failed` refines the contract unless
      the attempts column is full. */
  lemma MarkFailedRefines(t: Table, s: Outbox.Store, id: EventId, diagnostic: Bytes, retryAt: U64)
    requires Represents(t, s) && !(id in s && s[id].Dispatched?)
    ensures SetFailed(t, Hyphenated(id), diagnostic, ClampI64(retryAt)).Err? <==> AttemptsFull(s, id)
    ensures !AttemptsFull(s, id) ==>
      Represents(SetFailed(t, Hyphenated(id), diagnostic, ClampI64(retryAt)).value,
                 Outbox.MarkFailed(s, id, diagnostic, StoredStamp(retryAt)))
  {
    hide Hyphenated, Decode, CanonicalText, FailedRow, Outbox.FailedEvent, StoredStamp;
    if id in s {
      var row := t[Hyphenated(id)];
      assert RowHolds(row, id, s[id]);
      if !AttemptsFull(s, id) {
        FailedRowHolds(row, id, s[id], diagnostic, retryAt);
        PutRepresents(t, s, id, FailedRow(row, diagnostic, ClampI64(retryAt)),
          Outbox.Live(StoredStamp(retryAt), Outbox.FailedEvent(s[id].event, diagnostic)));
      }
    }
  }

  /** On a dispatched id it never does: the statement fails or revives the row. */
  lemma MarkFailedRevives(t: Table, s: Outbox.Store, id: EventId, diagnostic: Bytes, retryAt: U64)
    requires Represents(t, s) && id in s && s[id].Dispatched?
    ensures var r := SetFailed(t, Hyphenated(id), diagnostic, ClampI64(retryAt));
      r.Ok? ==> r.value[Hyphenated(id)].status != Dispatched && !Represents(r.value, s)
  {
    hide Hyphenated, Decode, CanonicalText;
    assert RowHolds(t[Hyphenated(id)], id, s[id]);
  }

  /** `mark_failed` keeps the contract if and only if the id is not dispatched and
      its attempts column is not full. */
  lemma MarkFailedRefinesExactlyWhen(t: Table, s: Outbox.Store, id: EventId, diagnostic: Bytes, retryAt: U64)
    requires Represents(t, s)
    ensures var r := SetFailed(t, Hyphenated(id), diagnostic, ClampI64(retryAt));
      r.Ok? && Represents(r.value, Outbox.MarkFailed(s, id, diagnostic, StoredStamp(retryAt))) <==>
      !(id in s && s[id].Dispatched?) && !AttemptsFull(s, id)
  {
    hide Hyphenated, Represents, SetFailed, StoredStamp;
    if id in s && s[id].Dispatched? {
      MarkFailedRevives(t, s, id, diagnostic, retryAt);
    } else {
      MarkFailedRefines(t, s, id, diagnostic, retryAt);
    }
  }

  // --- queries ---------------------------------------------------------------------------

  lemma ClaimableTexts(t: Table, s: Outbox.Store, now: U64)
    requires Represents(t, s)
    ensures TextsOf(Outbox.DueKeys(s, now), ClaimableKeys(t, {}, ClampI64(now)))
  {
    hide Hyphenated, Holds, Parse;
    var keys := ClaimableKeys(t, {}, ClampI64(now));
    forall k | k in Outbox.DueKeys(s, now) ensures |k.id| == 16 && TextKey(k) in keys {
      var id :| id in s && Outbox.Due(s, id, now) && k == Key(s[id].at, id);
      assert RowHolds(t[Hyphenated(id)], id, s[id]);
    }
    forall k | k in keys ensures exists x :: x in Outbox.DueKeys(s, now) && TextKey(x) == k {
      assert CanonicalText(k.id);
      var id := Parse(k.id).value;
      assert id in s && RowHolds(t[Hyphenated(id)], id, s[id]);
      assert Outbox.Due(s, id, now);
      assert Key(s[id].at, id) in Outbox.DueKeys(s, now);
    }
  }

  /** With no row locked, the claim selects the rows of the contract's fetch. */
  lemma SelectRefines(t: Table, s: Outbox.Store, limit: nat, now: U64)
    requires Represents(t, s)
    ensures Outbox.KeysLive(s, Outbox.FetchKeys(s, Min(limit, I64_MAX), now))
    ensures SelectForUpdate(t, {}, limit, now) == TextKeys(Outbox.FetchKeys(s, Min(limit, I64_MAX), now))
  {
    hide Hyphenated, Holds, Parse;
    ClaimableTexts(t, s, now);
    var due := Outbox.DueKeys(s, now);
    ArrangeByText(due, ClaimableKeys(t, {}, ClampI64(now)));
    TakeTextKeys(Arrange(due), Min(limit, I64_MAX));
  }

  lemma LiveRowDecodes(t: Table, s: Outbox.Store, id: EventId)
    requires Represents(t, s) && id in s && s[id].Live?
    ensures Hyphenated(id) in t && DecodeRow(Hyphenated(id), t[Hyphenated(id)].envelope) == Ok(s[id].event)
  {
    hide Hyphenated, DecodeRow, Holds;
    assert RowHolds(t[Hyphenated(id)], id, s[id]);
    HeldRowDecodes(id, t[Hyphenated(id)].envelope, s[id].event);
  }

  lemma SelectedRowsDecode(t: Table, s: Outbox.Store, limit: nat, now: U64)
    requires Represents(t, s)
    ensures DecodeRows(RowsAt(t, SelectForUpdate(t, {}, limit, now))) == Ok(Outbox.FetchDue(s, Min(limit, I64_MAX), now))
  {
    hide Hyphenated, DecodeRow, Holds, Represents, SelectForUpdate;
    SelectRefines(t, s, limit, now);
    var ks := Outbox.FetchKeys(s, Min(limit, I64_MAX), now);
    var texts, due := SelectForUpdate(t, {}, limit, now), Outbox.FetchDue(s, Min(limit, I64_MAX), now);
    forall i | 0 <= i < |ks| ensures DecodeRow(texts[i].id, t[texts[i].id].envelope) == Ok(due[i]) {
      assert ks[i] in ks;
      LiveRowDecodes(t, s, ks[i].id);
    }
    DecodeRowsIsRowwise(RowsAt(t, texts));
    assert DecodeRows(RowsAt(t, texts)).value == due;
  }

  lemma CountsRefine(t: Table, s: Outbox.Store)
    requires Represents(t, s)
    ensures |RowsWith(t, Pending)| == Outbox.PendingCount(s)
    ensures |RowsWith(t, Parked)| == Outbox.ParkedCount(s)
  {
    hide Hyphenated, Holds, Parse;
    var pending := set id | id in s && Outbox.Pending(s, id);
    var parked := set id | id in s && Outbox.Parked(s, id);
    TextCount(pending);
    TextCount(parked);
    forall text | text in t ensures Hyphenated(Parse(text).value) == text && Parse(text).value in s {
      assert CanonicalText(text);
    }
    assert forall id | id in s :: RowHolds(t[Hyphenated(id)], id, s[id]);
    assert RowsWith(t, Pending) == set id | id in pending :: Hyphenated(id);
    assert RowsWith(t, Parked) == set id | id in parked :: Hyphenated(id);
  }
}
