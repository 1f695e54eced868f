/** What the two SQL stores share: 64-bit clamping, the envelope columns, and
    ordering by the text form of an id. */
module Rows {
  import opened Base
  import opened Ordering
  import opened EventIds
  import opened Events
  import opened Codec

  function ClampI64(value: U64): int {
    Min(value, I64_MAX)
  }

  function UnclampU64(value: int): U64 {
    if 0 <= value <= U64_MAX then value else U64_MAX
  }

  const CORRUPT_ID := "corrupt event id in store"

  /** The columns both the live table and the dead-letter table hold. */
  datatype Envelope = Envelope(
    topic: Bytes,
    payload: Bytes,
    headers: Bytes,
    createdAt: int,
    attempts: int,
    lastError: Option<Bytes>)

  /** One row of `outbox_dead_letters`. */
  datatype LetterRow = LetterRow(envelope: Envelope, reason: Bytes, deadLetteredAt: int)

  /** The columns written for an event whose headers encode to `headers`. */
  function EnvelopeOf(event: OutboxEvent, headers: Bytes, attempts: int): Envelope {
    Envelope(event.topic, event.payload, headers, ClampI64(event.createdAt), attempts, event.lastError)
  }

  predicate ColumnsInRange(e: Envelope) {
    0 <= e.createdAt <= I64_MAX && 0 <= e.attempts
  }

  /** An event read back from its text id and columns. */
  function DecodeRow(text: Bytes, e: Envelope): Result<OutboxEvent> {
    match Parse(text)
    case None => Err(Backend(CORRUPT_ID))
    case Some(id) =>
      var headers :- Decode(e.headers);
      var attempts := if 0 <= e.attempts <= U32_MAX then e.attempts else U32_MAX;
      Ok(OutboxEvent(id, e.topic, e.payload, headers, UnclampU64(e.createdAt), attempts, e.lastError))
  }

  /** What each column becomes: a bad id or bad headers fail the row, the id first; a
      number outside the field's range becomes the field's maximum. */
  lemma DecodedColumns(text: Bytes, e: Envelope)
    ensures Parse(text).None? ==> DecodeRow(text, e) == Err(Backend("corrupt event id in store"))
    ensures Parse(text).Some? && Decode(e.headers).Err? ==> DecodeRow(text, e) == Err(Decode(e.headers).error)
    ensures Parse(text).Some? && Decode(e.headers).Ok? ==>
      match DecodeRow(text, e)
      case Err(_) => false
      case Ok(event) =>
        && event.id == Parse(text).value && event.headers == Decode(e.headers).value
        && event.topic == e.topic && event.payload == e.payload && event.lastError == e.lastError
        && event.createdAt == (if 0 <= e.createdAt < 0x1_0000_0000_0000_0000 then e.createdAt else 0xFFFF_FFFF_FFFF_FFFF)
        && event.attempts == (if 0 <= e.attempts < 0x1_0000_0000 then e.attempts else 0xFFFF_FFFF)
  {
    hide Parse, Decode;
  }

  /** The rows of a query result, up to the first that fails to decode. */
  function DecodeRows(rows: seq<(Bytes, Envelope)>): (r: Result<seq<OutboxEvent>>)
    ensures r.Ok? ==> |r.value| == |rows|
  {
    if rows == [] then Ok([])
    else
      var event :- DecodeRow(rows[0].0, rows[0].1);
      var rest :- DecodeRows(rows[1..]);
      Ok([event] + rest)
  }

  lemma {:induction false} DecodeRowsIsRowwise(rows: seq<(Bytes, Envelope)>)
    ensures DecodeRows(rows).Ok? <==> forall i | 0 <= i < |rows| :: DecodeRow(rows[i].0, rows[i].1).Ok?
    ensures DecodeRows(rows).Ok? ==>
      forall i | 0 <= i < |rows| :: DecodeRow(rows[i].0, rows[i].1) == Ok(DecodeRows(rows).value[i])
  {
    hide DecodeRow;
    if rows != [] {
      DecodeRowsIsRowwise(rows[1..]);
      var tail := DecodeRows(rows[1..]);
      assert forall i | 1 <= i < |rows| :: rows[i] == rows[1..][i - 1];
      if DecodeRow(rows[0].0, rows[0].1).Ok? && tail.Ok? {
        assert DecodeRows(rows).value == [DecodeRow(rows[0].0, rows[0].1).value] + tail.value;
      }
    }
  }

  method DecodeEach(rows: seq<(Bytes, Envelope)>) returns (r: Result<seq<OutboxEvent>>)
    ensures r == DecodeRows(rows)
  {
    hide DecodeRow;
    var events: seq<OutboxEvent> := [];
    assert rows[0..] == rows;
    assert DecodeRows(rows).Ok? ==> [] + DecodeRows(rows).value == DecodeRows(rows).value;
    for i := 0 to |rows|
      invariant DecodeRows(rows) == match DecodeRows(rows[i..])
        case Ok(rest) => Ok(events + rest)
        case Err(e) => Err(e)
    {
      assert rows[i..][1..] == rows[i + 1..] && rows[i..][0] == rows[i];
      var event :- DecodeRow(rows[i].0, rows[i].1);
      if DecodeRows(rows[i + 1..]).Ok? {
        var rest := DecodeRows(rows[i + 1..]).value;
        assert events + ([event] + rest) == events + [event] + rest;
      }
      events := events + [event];
    }
    assert rows[|rows|..] == [];
    assert events + [] == events;
    r := Ok(events);
  }

  /** The columns hold this event: attempts agree up to the u32 ceiling. */
  ghost predicate Holds(e: Envelope, event: OutboxEvent) {
    && ColumnsInRange(e)
    && e.topic == event.topic && e.payload == event.payload && e.lastError == event.lastError
    && Decode(e.headers) == Ok(event.headers)
    && event.createdAt == e.createdAt
    && event.attempts == Min(e.attempts, U32_MAX)
  }

  /** The event as a 64-bit signed column can keep it. */
  function Durable(event: OutboxEvent): OutboxEvent {
    event.(createdAt := ClampI64(event.createdAt))
  }

  lemma WrittenRowHolds(event: OutboxEvent, attempts: int)
    requires Encode(event.headers).Ok?
    requires attempts >= 0 && Min(attempts, U32_MAX) == event.attempts
    ensures Holds(EnvelopeOf(event, Encode(event.headers).value, attempts), Durable(event))
  {
    RoundTrip(event.headers, []);
    assert Encode(event.headers).value + [] == Encode(event.headers).value;
  }

  lemma HeldRowDecodes(id: EventId, e: Envelope, event: OutboxEvent)
    requires Holds(e, event) && event.id == id
    ensures DecodeRow(Hyphenated(id), e) == Ok(event)
  {
    ParseHyphenated(id);
  }

  /** A primary key column holds only texts of ids. */
  ghost predicate CanonicalText(text: Bytes) {
    Parse(text).Some? && Hyphenated(Parse(text).value) == text
  }

  // --- ordering by text -----------------------------------------------------------

  function TextKey(k: Key): Key
    requires |k.id| == 16
  {
    Key(k.at, Hyphenated(k.id))
  }

  function TextKeys(ks: seq<Key>): (r: seq<Key>)
    requires forall k | k in ks :: |k.id| == 16
    ensures |r| == |ks|
    ensures forall i | 0 <= i < |ks| :: r[i] == TextKey(ks[i])
  {
    if ks == [] then [] else [TextKey(ks[0])] + TextKeys(ks[1..])
  }

  lemma TextKeysSorted(ks: seq<Key>)
    requires Sorted(ks) && forall k | k in ks :: |k.id| == 16
    ensures Sorted(TextKeys(ks))
  {
    hide Hyphenated;
    var r := TextKeys(ks);
    forall i, j | 0 <= i < j < |r| ensures KeyLess(r[i], r[j]) {
      assert ks[i] in ks && ks[j] in ks;
      HyphenatedOrder(ks[i].id, ks[j].id);
    }
  }

  /** `texts` are the keys `ids` with each id in text form. */
  ghost predicate TextsOf(ids: set<Key>, texts: set<Key>) {
    && (forall k | k in ids :: |k.id| == 16 && TextKey(k) in texts)
    && (forall t | t in texts :: exists k :: k in ids && TextKey(k) == t)
  }

  lemma TextKeysElements(ks: seq<Key>, ids: set<Key>, texts: set<Key>)
    requires TextsOf(ids, texts) && Elements(ks) == ids
    ensures forall k | k in ks :: |k.id| == 16
    ensures Elements(TextKeys(ks)) == texts
  {
    hide Hyphenated;
    forall k | k in ks ensures |k.id| == 16 {
      assert k in Elements(ks);
    }
    var r := TextKeys(ks);
    forall t | t in texts ensures t in Elements(r) {
      var k :| k in ids && TextKey(k) == t;
      assert k in Elements(ks);
      var i :| 0 <= i < |ks| && ks[i] == k;
      assert r[i] == t;
    }
    forall t | t in Elements(r) ensures t in texts {
      var i :| 0 <= i < |r| && r[i] == t;
      assert ks[i] in Elements(ks);
    }
  }

  /** Sorting rows by `(stamp, id text)` lists them as sorting by
      `(stamp, id bytes)` does. */
  lemma ArrangeByText(ids: set<Key>, texts: set<Key>)
    requires TextsOf(ids, texts)
    ensures forall k | k in Arrange(ids) :: |k.id| == 16
    ensures Arrange(texts) == TextKeys(Arrange(ids))
  {
    hide Hyphenated;
    TextKeysElements(Arrange(ids), ids, texts);
    TextKeysSorted(Arrange(ids));
    SortedUnique(Arrange(texts), TextKeys(Arrange(ids)));
  }

  lemma TakeTextKeys(ks: seq<Key>, n: nat)
    requires forall k | k in ks :: |k.id| == 16
    ensures forall k | k in Take(ks, n) :: |k.id| == 16
    ensures Take(TextKeys(ks), n) == TextKeys(Take(ks, n))
  {
    hide Hyphenated;
  }

  lemma {:induction false} TextCount(ids: set<EventId>)
    ensures |set id | id in ids :: Hyphenated(id)| == |ids|
  {
    hide Hyphenated;
    var texts := set id | id in ids :: Hyphenated(id);
    if ids == {} {
      assert texts == {};
    } else {
      var x :| x in ids;
      var rest := ids - {x};
      TextCount(rest);
      forall y | y in rest ensures Hyphenated(y) != Hyphenated(x) {
        HyphenatedOrder(x, y);
      }
      assert texts == (set id | id in rest :: Hyphenated(id)) + {Hyphenated(x)};
    }
  }
}
