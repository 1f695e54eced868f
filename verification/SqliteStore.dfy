/** The durable single-file store: rows and dead letters under one mutex. */
module SqliteStores {
  import opened Base
  import opened Ordering
  import opened Utf8
  import opened Truncation
  import opened EventIds
  import opened Events
  import opened Codec
  import opened Rows
  import opened SqliteTables
  import opened Simulation
  import Outbox

  /** A dead letter as its reader sees it. */
  datatype Letter = Letter(event: OutboxEvent, reason: Bytes, at: int)

  type Letters = map<EventId, Letter>

  ghost predicate LettersHold(t: map<Bytes, LetterRow>, s: Letters) {
    && (forall id: EventId :: id in s <==> Hyphenated(id) in t)
    && (forall text | text in t :: CanonicalText(text))
    && (forall id | id in s ::
          var row := t[Hyphenated(id)];
          s[id].event.id == id && Holds(row.envelope, s[id].event) &&
          row.reason == s[id].reason && row.deadLetteredAt == s[id].at)
  }

  class SqliteStore {
    var rows: Table
    var letterRows: map<Bytes, LetterRow>
    /** The store state and the letters the two tables stand for. */
    ghost var view: Outbox.Store
    ghost var letters: Letters

    ghost predicate Valid()
      reads this
    {
      Represents(rows, view) && LettersHold(letterRows, letters)
    }

    constructor ()
      ensures Valid() && view == map[] && letters == map[]
    {
      rows, letterRows := map[], map[];
      view, letters := map[], map[];
      new;
      EmptyRepresents();
    }

    method Append(event: OutboxEvent) returns (r: Result<Unit>)
      requires Valid()
      modifies this
      ensures Valid()
      ensures r == DurableAppendReply(event)
      ensures view == DurableAppend(old(view), event)
      ensures (rows, Done(r)) == SqliteStep(old(rows), AppendOp(event))
      ensures rows ==
        if r.Ok? && Hyphenated(event.id) !in old(rows)
        then old(rows)[Hyphenated(event.id) := Row(
               Envelope(event.topic, event.payload, Encode(event.headers).value,
                        Min(event.createdAt, 0x7FFF_FFFF_FFFF_FFFF), event.attempts, event.lastError),
               Min(event.createdAt, 0x7FFF_FFFF_FFFF_FFFF), None)]
        else old(rows)
      ensures letterRows == old(letterRows) && letters == old(letters)
    {
      hide Hyphenated, Represents, LettersHold, Encode;
      if !ValidTopic(event.topic) {
        return Err(InvalidTopic(event.topic));
      }
      var headers :- EncodeHeaders(event.headers);
      AppendRefines(rows, view, event);
      rows := InsertOrIgnore(rows, Hyphenated(event.id), AppendedRow(event, headers));
      view := DurableAppend(view, event);
      r := Ok(Unit);
    }

    /** In a valid store every selected row decodes, so no call fails. */
    method FetchDue(limit: nat, now: U64) returns (r: Result<seq<OutboxEvent>>)
      requires Valid()
      ensures r == Ok(Outbox.FetchDue(view, Min(limit, I64_MAX), now))
      ensures (rows, Batch(r)) == SqliteStep(rows, FetchOp(limit, now))
    {
      var selected := OrderBy(SelectableKeys(rows, ClampI64(now)));
      selected := Take(selected, Min(limit, I64_MAX));
      SelectedRowsDecode(rows, view, limit, now);
      r := DecodeEach(RowsAt(rows, selected));
    }

    /** `at` is the clock's reading. */
    method MarkDispatched(id: EventId, at: U64)
      requires Valid()
      modifies this
      ensures Valid()
      ensures view == Outbox.MarkDispatched(old(view), id)
      ensures rows == SqliteStep(old(rows), DispatchOp(id, at)).0
      ensures rows.Keys == old(rows).Keys
      ensures forall text | text in rows && (text != Hyphenated(id) || old(rows)[text].dispatchedAt != None) ::
        rows[text] == old(rows)[text]
      ensures Hyphenated(id) in rows && old(rows)[Hyphenated(id)].dispatchedAt == None ==>
        var was := old(rows)[Hyphenated(id)];
        rows[Hyphenated(id)] == Row(was.envelope, was.nextAttemptAt, Some(Min(at, 0x7FFF_FFFF_FFFF_FFFF)))
      ensures letterRows == old(letterRows) && letters == old(letters)
    {
      hide Hyphenated, Holds, Represents;
      MarkDispatchedRefines(rows, view, id, ClampI64(at));
      rows := SetDispatched(rows, Hyphenated(id), ClampI64(at));
      view := Outbox.MarkDispatched(view, id);
    }

    method MarkFailed(id: EventId, error: Str, retryAt: U64)
      requires Valid()
      modifies this
      ensures Valid()
      ensures view == Outbox.MarkFailed(old(view), id, Truncated(error, MAX_ERROR_BYTES), DurableStamp(retryAt))
      ensures rows == SqliteStep(old(rows), FailOp(id, error, retryAt)).0
      ensures rows.Keys == old(rows).Keys
      ensures forall text | text in rows && text != Hyphenated(id) :: rows[text] == old(rows)[text]
      ensures Hyphenated(id) in rows ==>
        var was := old(rows)[Hyphenated(id)];
        var e := was.envelope;
        rows[Hyphenated(id)] == Row(
          Envelope(e.topic, e.payload, e.headers, e.createdAt, e.attempts + 1, Some(Truncated(error, 1024))),
          Min(retryAt, 0x7FFF_FFFF_FFFF_FFFF), was.dispatchedAt)
      ensures letterRows == old(letterRows) && letters == old(letters)
    {
      hide Hyphenated, Holds, Represents;
      var diagnostic := TruncateError(error);
      MarkFailedRefines(rows, view, id, diagnostic, retryAt);
      rows := SetFailed(rows, Hyphenated(id), diagnostic, ClampI64(retryAt));
      view := Outbox.MarkFailed(view, id, diagnostic, DurableStamp(retryAt));
    }

    method PendingCount() returns (n: nat)
      requires Valid()
      ensures n == Outbox.PendingCount(view) && Count(n) == SqliteStep(rows, PendingOp).1
      ensures n == |set text | text in rows && rows[text].dispatchedAt == None && rows[text].nextAttemptAt < 0x7FFF_FFFF_FFFF_FFFF|
    {
      hide Represents, LettersHold;
      CountsRefine(rows, view);
      n := |PendingRows(rows)|;
      assert PendingRows(rows) ==
        set text | text in rows && rows[text].dispatchedAt == None && rows[text].nextAttemptAt < 0x7FFF_FFFF_FFFF_FFFF;
    }

    method ParkedCount() returns (n: nat)
      requires Valid()
      ensures n == Outbox.ParkedCount(view) && Count(n) == SqliteStep(rows, ParkedOp).1
      ensures n == |set text | text in rows && rows[text].dispatchedAt == None && rows[text].nextAttemptAt >= 0x7FFF_FFFF_FFFF_FFFF|
    {
      hide Represents, LettersHold;
      CountsRefine(rows, view);
      n := |ParkedRows(rows)|;
      assert ParkedRows(rows) ==
        set text | text in rows && rows[text].dispatchedAt == None && rows[text].nextAttemptAt >= 0x7FFF_FFFF_FFFF_FFFF;
    }

    /** Two statements: record the letter, then delete the live row. `completes`
        is false when the process stops or the backend fails between them. */
    method DeadLetter(event: OutboxEvent, reason: Str, at: U64, completes: bool) returns (r: Result<Unit>)
      requires Valid()
      modifies this
      ensures Valid()
      ensures r.Err? <==> DurableAppendReply(event).Err? || !completes
      ensures DurableAppendReply(event).Err? ==>
        r == DurableAppendReply(event) && view == old(view) && letters == old(letters) &&
        rows == old(rows) && letterRows == old(letterRows)
      ensures DurableAppendReply(event).Ok? ==>
        && letters == old(letters)[event.id := Letter(Durable(event), Truncated(reason, MAX_REASON_BYTES), ClampI64(at))]
        && view == (if completes then old(view) - {event.id} else old(view))
        && rows == (if completes then old(rows) - {Hyphenated(event.id)} else old(rows))
        && letterRows == old(letterRows)[Hyphenated(event.id) :=
             LetterRow(Envelope(event.topic, event.payload, Encode(event.headers).value,
                                Min(event.createdAt, 0x7FFF_FFFF_FFFF_FFFF), event.attempts, event.lastError),
                       Truncated(reason, 1024), Min(at, 0x7FFF_FFFF_FFFF_FFFF))]
    {
      hide Hyphenated, Holds, Represents, Decode, Encode;
      if !ValidTopic(event.topic) {
        return Err(InvalidTopic(event.topic));
      }
      var headers :- EncodeHeaders(event.headers);
      var text := TruncateReason(reason);
      var row := LetterRow(EnvelopeOf(event, headers, ClampI64(event.attempts)), text, ClampI64(at));
      var letter := Letter(Durable(event), text, ClampI64(at));
      WrittenRowHolds(event, event.attempts);
      LetterRecorded(letterRows, letters, event.id, row, letter);
      letterRows := letterRows[Hyphenated(event.id) := row];
      letters := letters[event.id := letter];
      if !completes {
        return Err(Backend("stopped between the two statements"));
      }
      DeleteRepresents(rows, view, event.id);
      rows := rows - {Hyphenated(event.id)};
      view := view - {event.id};
      r := Ok(Unit);
    }

    /** The letters, oldest first by `(dead_lettered_at, id)`. */
    method DeadLetters(limit: nat) returns (r: Result<seq<(OutboxEvent, Bytes)>>)
      requires Valid()
      ensures r == Ok(OldestLetters(letters, Min(limit, I64_MAX)))
      ensures r.Ok? && |r.value| == Min(Min(limit, 0x7FFF_FFFF_FFFF_FFFF), |letters|)
      ensures OldestFirst(letters, r.value) && LeavesOnlyLater(letters, r.value)
    {
      hide LettersHold, Represents, OldestLetters, OldestFirst, LeavesOnlyLater;
      LettersKeyed(letterRows, letters);
      var selected := OrderBy(LetterRowKeys(letterRows));
      selected := Take(selected, Min(limit, I64_MAX));
      LetterRowsDecode(letterRows, letters, Min(limit, I64_MAX));
      var events := DecodeEach(LetterRowsAt(letterRows, selected));
      r := WithReasons(events, ReasonsAt(letterRows, selected));
      OldestInOrder(letters, Min(limit, I64_MAX));
    }
  }

  // --- dead letters ----------------------------------------------------------------

  lemma LetterRecorded(t: map<Bytes, LetterRow>, s: Letters, id: EventId, row: LetterRow, letter: Letter)
    requires LettersHold(t, s) && letter.event.id == id && Holds(row.envelope, letter.event)
    requires row.reason == letter.reason && row.deadLetteredAt == letter.at
    ensures LettersHold(t[Hyphenated(id) := row], s[id := letter])
  {
    hide Hyphenated, Holds, Parse;
    ParseHyphenated(id);
    forall x: EventId | x != id ensures Hyphenated(x) != Hyphenated(id) {
      HyphenatedOrder(x, id);
    }
  }

  function LetterRowKeys(t: map<Bytes, LetterRow>): set<Key> {
    set text | text in t :: Key(t[text].deadLetteredAt, text)
  }

  function LetterKeys(s: Letters): set<Key> {
    set id | id in s :: Key(s[id].at, id)
  }

  function LettersAt(s: Letters, ks: seq<Key>): (r: seq<(OutboxEvent, Bytes)>)
    requires forall k | k in ks :: |k.id| == 16 && k.id in s
    ensures |r| == |ks|
    ensures forall i | 0 <= i < |ks| :: r[i] == (s[ks[i].id].event, s[ks[i].id].reason)
  {
    if ks == [] then [] else [(s[ks[0].id].event, s[ks[0].id].reason)] + LettersAt(s, ks[1..])
  }

  ghost function OldestKeys(s: Letters, limit: nat): (ks: seq<Key>)
    ensures forall k | k in ks :: |k.id| == 16 && k.id in s
  {
    FirstKeys(LetterKeys(s), limit);
    Take(Arrange(LetterKeys(s)), limit)
  }

  ghost function OldestLetters(s: Letters, limit: nat): seq<(OutboxEvent, Bytes)> {
    LettersAt(s, OldestKeys(s, limit))
  }

  lemma LetterKeyCount(s: Letters)
    ensures |LetterKeys(s)| == |s|
  {
    var ids := s.Keys;
    LetterKeysOf(s, ids);
    assert (set id | id in ids && id in s :: Key(s[id].at, id)) == LetterKeys(s);
  }

  lemma {:induction false} LetterKeysOf(s: Letters, ids: set<EventId>)
    requires ids <= s.Keys
    ensures |set id | id in ids && id in s :: Key(s[id].at, id)| == |ids|
  {
    var keys := set id | id in ids && id in s :: Key(s[id].at, id);
    if ids == {} {
      assert keys == {};
    } else {
      var x :| x in ids;
      LetterKeysOf(s, ids - {x});
      var rest := set id | id in ids - {x} && id in s :: Key(s[id].at, id);
      assert keys == rest + {Key(s[x].at, x)} && Key(s[x].at, x) !in rest;
    }
  }

  // Each listed letter stands at its key.
  lemma OldestByIndex(s: Letters, limit: nat)
    requires forall id | id in s :: s[id].event.id == id
    ensures var r, ks := OldestLetters(s, limit), OldestKeys(s, limit);
      && |r| == |ks| == Min(limit, |s|) && Sorted(ks)
      && forall i | 0 <= i < |r| ::
           && ks[i].id in s && ks[i] == Key(s[ks[i].id].at, ks[i].id)
           && r[i].0.id == ks[i].id && r[i] == (s[ks[i].id].event, s[ks[i].id].reason)
  {
    FirstKeys(LetterKeys(s), limit);
    LetterKeyCount(s);
    var ks := OldestKeys(s, limit);
    forall i | 0 <= i < |ks| ensures ks[i] in LetterKeys(s) {
      assert ks[i] in ks;
    }
  }

  lemma LettersKeyed(t: map<Bytes, LetterRow>, s: Letters)
    requires LettersHold(t, s)
    ensures forall id | id in s :: s[id].event.id == id
  {
    hide Hyphenated, Holds, CanonicalText;
  }

  /** Recorded earlier, or at the same time under the smaller id. */
  ghost predicate Before(s: Letters, a: EventId, b: EventId)
    requires a in s && b in s
  {
    || s[a].at < s[b].at
    || (s[a].at == s[b].at && exists k :: 0 <= k < 16 && a[..k] == b[..k] && a[k] < b[k])
  }

  lemma KeyBefore(s: Letters, a: EventId, b: EventId)
    requires a in s && b in s
    ensures KeyLess(Key(s[a].at, a), Key(s[b].at, b)) <==> Before(s, a, b)
  {
    LexMeaningSameLength(a, b);
  }

  /** Letters as recorded, with their reasons, the oldest first. */
  ghost predicate OldestFirst(s: Letters, r: seq<(OutboxEvent, Bytes)>) {
    && (forall i | 0 <= i < |r| :: r[i].0.id in s && r[i] == (s[r[i].0.id].event, s[r[i].0.id].reason))
    && forall i, j | 0 <= i < j < |r| :: Before(s, r[i].0.id, r[j].0.id)
  }

  /** A letter that is not listed comes after every one that is. */
  ghost predicate LeavesOnlyLater(s: Letters, r: seq<(OutboxEvent, Bytes)>) {
    forall i, id | 0 <= i < |r| && r[i].0.id in s && id in s && Unlisted(r, id) :: Before(s, r[i].0.id, id)
  }

  ghost predicate Unlisted(r: seq<(OutboxEvent, Bytes)>, id: EventId) {
    forall y | y in r :: y.0.id != id
  }

  lemma UnlistedLater(s: Letters, limit: nat, i: nat, id: EventId)
    requires forall id | id in s :: s[id].event.id == id
    requires i < |OldestLetters(s, limit)| && id in s && Unlisted(OldestLetters(s, limit), id)
    ensures OldestLetters(s, limit)[i].0.id in s && Before(s, OldestLetters(s, limit)[i].0.id, id)
  {
    hide OldestLetters, OldestKeys, Before;
    OldestByIndex(s, limit);
    LastKeys(s, limit);
    var r, ks := OldestLetters(s, limit), OldestKeys(s, limit);
    forall j | 0 <= j < |ks| ensures ks[j].id != id {
      assert r[j] in r;
    }
    assert ks[i] in ks && Key(s[id].at, id) in LetterKeys(s);
    KeyBefore(s, r[i].0.id, id);
  }

  lemma LastKeys(s: Letters, limit: nat)
    ensures var ks := OldestKeys(s, limit);
      forall k, t | k in LetterKeys(s) && k !in ks && t in ks :: KeyLess(t, k)
  {
    FirstKeys(LetterKeys(s), limit);
  }

  lemma OldestInOrder(s: Letters, limit: nat)
    requires forall id | id in s :: s[id].event.id == id
    ensures var r := OldestLetters(s, limit); |r| == Min(limit, |s|) && OldestFirst(s, r) && LeavesOnlyLater(s, r)
  {
    hide OldestLetters, OldestKeys, Before, Unlisted, Sorted;
    OldestByIndex(s, limit);
    var r, ks := OldestLetters(s, limit), OldestKeys(s, limit);
    forall i, j | 0 <= i < j < |r| ensures Before(s, r[i].0.id, r[j].0.id) {
      SortedAt(ks, i, j);
      KeyBefore(s, r[i].0.id, r[j].0.id);
    }
    forall i, id | 0 <= i < |r| && r[i].0.id in s && id in s && Unlisted(r, id) ensures Before(s, r[i].0.id, id) {
      UnlistedLater(s, limit, i, id);
    }
  }

  lemma SortedAt(ks: seq<Key>, i: nat, j: nat)
    requires Sorted(ks) && i < j < |ks|
    ensures KeyLess(ks[i], ks[j])
  {}

  lemma LetterRowsInOrder(t: map<Bytes, LetterRow>, s: Letters, limit: nat)
    requires LettersHold(t, s)
    ensures Take(Arrange(LetterRowKeys(t)), limit) == TextKeys(OldestKeys(s, limit))
    ensures |OldestLetters(s, limit)| == |OldestKeys(s, limit)|
  {
    hide Hyphenated, Holds, Parse;
    var keys, texts := LetterKeys(s), LetterRowKeys(t);
    forall k | k in keys ensures |k.id| == 16 && TextKey(k) in texts {
      assert Hyphenated(k.id) in t;
    }
    forall k | k in texts ensures exists x :: x in keys && TextKey(x) == k {
      assert CanonicalText(k.id);
      var id := Parse(k.id).value;
      assert id in s && Key(s[id].at, id) in keys;
    }
    ArrangeByText(keys, texts);
    TakeTextKeys(Arrange(keys), limit);
  }

  function LetterRowsAt(t: map<Bytes, LetterRow>, ks: seq<Key>): seq<(Bytes, Envelope)>
    requires forall k | k in ks :: k.id in t
  {
    seq(|ks|, i requires 0 <= i < |ks| => assert ks[i] in ks; (ks[i].id, t[ks[i].id].envelope))
  }

  function ReasonsAt(t: map<Bytes, LetterRow>, ks: seq<Key>): seq<Bytes>
    requires forall k | k in ks :: k.id in t
  {
    seq(|ks|, i requires 0 <= i < |ks| => assert ks[i] in ks; t[ks[i].id].reason)
  }

  function WithReasons(events: Result<seq<OutboxEvent>>, reasons: seq<Bytes>): Result<seq<(OutboxEvent, Bytes)>>
    requires events.Ok? ==> |events.value| == |reasons|
  {
    match events
    case Ok(es) => Ok(seq(|es|, i requires 0 <= i < |es| => (es[i], reasons[i])))
    case Err(e) => Err(e)
  }

  /** Every stored letter decodes, and the decoded list is the oldest letters. */
  lemma LetterRowsDecode(t: map<Bytes, LetterRow>, s: Letters, limit: nat)
    requires LettersHold(t, s)
    ensures forall k | k in Take(Arrange(LetterRowKeys(t)), limit) :: k.id in t
    ensures var texts := Take(Arrange(LetterRowKeys(t)), limit);
      WithReasons(DecodeRows(LetterRowsAt(t, texts)), ReasonsAt(t, texts)) == Ok(OldestLetters(s, limit))
  {
    hide Hyphenated, DecodeRow, Holds;
    LetterRowsInOrder(t, s, limit);
    var ks, oldest := OldestKeys(s, limit), OldestLetters(s, limit);
    var texts := TextKeys(ks);
    forall i | 0 <= i < |ks| ensures LetterRowDecodes(t, texts[i].id, oldest[i]) {
      assert ks[i] in ks;
      LetterRowReads(t, s, ks[i].id);
    }
    LettersDecode(t, texts, oldest);
  }

  ghost predicate LetterRowDecodes(t: map<Bytes, LetterRow>, text: Bytes, letter: (OutboxEvent, Bytes)) {
    text in t && DecodeRow(text, t[text].envelope) == Ok(letter.0) && t[text].reason == letter.1
  }

  lemma LetterRowReads(t: map<Bytes, LetterRow>, s: Letters, id: EventId)
    requires LettersHold(t, s) && id in s
    ensures LetterRowDecodes(t, Hyphenated(id), (s[id].event, s[id].reason))
  {
    hide Hyphenated, DecodeRow, Holds;
    HeldRowDecodes(id, t[Hyphenated(id)].envelope, s[id].event);
  }

  lemma LettersDecode(t: map<Bytes, LetterRow>, texts: seq<Key>, letters: seq<(OutboxEvent, Bytes)>)
    requires |texts| == |letters| && forall i | 0 <= i < |texts| :: LetterRowDecodes(t, texts[i].id, letters[i])
    ensures forall k | k in texts :: k.id in t
    ensures WithReasons(DecodeRows(LetterRowsAt(t, texts)), ReasonsAt(t, texts)) == Ok(letters)
  {
    hide DecodeRow;
    var rows := LetterRowsAt(t, texts);
    DecodeRowsIsRowwise(rows);
    var r := WithReasons(DecodeRows(rows), ReasonsAt(t, texts));
    forall i | 0 <= i < |texts| ensures r.Ok? && r.value[i] == letters[i] {
      assert DecodeRow(rows[i].0, rows[i].1) == Ok(letters[i].0);
    }
    assert r.Ok? && r.value == letters;
  }
}
