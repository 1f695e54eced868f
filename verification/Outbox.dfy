/** The store contract as one map from id to entry. Every store refines it. */
module Outbox {
  import opened Base
  import opened Ordering
  import opened EventIds
  import opened Events

  datatype Entry = Live(at: U64, event: OutboxEvent) | Dispatched

  type Store = map<EventId, Entry>

  /** An entry is keyed by its envelope's id. */
  ghost predicate Coherent(s: Store) {
    forall id | id in s && s[id].Live? :: s[id].event.id == id
  }

  predicate Pending(s: Store, id: EventId) {
    id in s && s[id].Live? && s[id].at != NEVER
  }

  predicate Parked(s: Store, id: EventId) {
    id in s && s[id].Live? && s[id].at == NEVER
  }

  predicate Due(s: Store, id: EventId, now: U64) {
    Pending(s, id) && s[id].at <= now
  }

  // --- operations -------------------------------------------------------------

  function AppendReply(event: OutboxEvent): Result<Unit> {
    if ValidTopic(event.topic) then Ok(Unit) else Err(InvalidTopic(event.topic))
  }

  /** INSERT OR IGNORE on the id. */
  function Append(s: Store, event: OutboxEvent): Store {
    if !ValidTopic(event.topic) || event.id in s then s else s[event.id := Live(event.createdAt, event)]
  }

  function MarkDispatched(s: Store, id: EventId): Store {
    if id in s then s[id := Dispatched] else s
  }

  function SaturatingIncrement(n: U32): U32 {
    if n == U32_MAX then n else n + 1
  }

  function FailedEvent(event: OutboxEvent, diagnostic: Bytes): OutboxEvent {
    event.(attempts := SaturatingIncrement(event.attempts), lastError := Some(diagnostic))
  }

  /** `diagnostic` is the already truncated error text. */
  function MarkFailed(s: Store, id: EventId, diagnostic: Bytes, retryAt: U64): Store {
    if id in s && s[id].Live? then s[id := Live(retryAt, FailedEvent(s[id].event, diagnostic))] else s
  }

  // --- queries -----------------------------------------------------------------

  function DueKeys(s: Store, now: U64): set<Key> {
    set id | id in s && Due(s, id, now) :: Key(s[id].at, id)
  }

  function DueIds(s: Store, now: U64): set<EventId> {
    set id | id in s && Due(s, id, now)
  }

  ghost function FetchKeys(s: Store, limit: nat, now: U64): (ks: seq<Key>)
    ensures forall k | k in ks :: k in DueKeys(s, now)
  {
    FirstKeys(DueKeys(s, now), limit);
    Take(Arrange(DueKeys(s, now)), limit)
  }

  predicate KeysLive(s: Store, ks: seq<Key>) {
    forall k | k in ks :: |k.id| == 16 && k.id in s && s[k.id].Live?
  }

  /** The events of a sequence of keys, all of which name live entries. */
  function EventsAt(s: Store, ks: seq<Key>): (r: seq<OutboxEvent>)
    requires KeysLive(s, ks)
    ensures |r| == |ks|
    ensures forall i | 0 <= i < |ks| :: r[i] == s[ks[i].id].event
  {
    if ks == [] then [] else [s[ks[0].id].event] + EventsAt(s, ks[1..])
  }

  /** The first `limit` due events in `(next_attempt_at, id)` order. */
  ghost function FetchDue(s: Store, limit: nat, now: U64): seq<OutboxEvent> {
    EventsAt(s, FetchKeys(s, limit, now))
  }

  function PendingCount(s: Store): nat {
    |set id | id in s && Pending(s, id)|
  }

  function ParkedCount(s: Store): nat {
    |set id | id in s && Parked(s, id)|
  }

  // --- what a fetch returns ------------------------------------------------------

  ghost function KeyOf(s: Store, event: OutboxEvent): Key
    requires event.id in s && s[event.id].Live?
  {
    Key(s[event.id].at, event.id)
  }

  lemma FetchKeysByIndex(s: Store, limit: nat, now: U64)
    requires Coherent(s)
    ensures |FetchDue(s, limit, now)| == |FetchKeys(s, limit, now)|
    ensures forall i | 0 <= i < |FetchKeys(s, limit, now)| ::
      FetchDue(s, limit, now)[i].id == FetchKeys(s, limit, now)[i].id &&
      Due(s, FetchKeys(s, limit, now)[i].id, now) &&
      FetchDue(s, limit, now)[i] == s[FetchKeys(s, limit, now)[i].id].event &&
      FetchKeys(s, limit, now)[i] == Key(s[FetchKeys(s, limit, now)[i].id].at, FetchKeys(s, limit, now)[i].id)
  {
    var ks := FetchKeys(s, limit, now);
    forall i | 0 <= i < |ks| ensures ks[i] in DueKeys(s, now) {
      assert ks[i] in ks;
    }
  }

  lemma FetchInKeyOrder(s: Store, limit: nat, now: U64)
    requires Coherent(s)
    ensures var r := FetchDue(s, limit, now);
      && |r| <= limit
      && (forall e | e in r :: Due(s, e.id, now) && s[e.id].event == e)
      && (forall i, j | 0 <= i < j < |r| :: KeyLess(KeyOf(s, r[i]), KeyOf(s, r[j])))
      && (forall i, j | 0 <= i < j < |r| :: r[i].id != r[j].id)
  {
    var r, ks := FetchDue(s, limit, now), FetchKeys(s, limit, now);
    FetchKeysByIndex(s, limit, now);
    FirstKeys(DueKeys(s, now), limit);
    forall i, j | 0 <= i < j < |r| ensures KeyLess(KeyOf(s, r[i]), KeyOf(s, r[j])) && r[i].id != r[j].id {
      KeyTotal(ks[i], ks[j]);
    }
  }

  /** Every fetched event is live, due and not parked, exactly as stored; no id
      appears twice; and of any two the first has the earlier stamp, or the same
      stamp and the smaller byte where their ids first differ. */
  lemma FetchReturnsDueInOrder(s: Store, limit: nat, now: U64)
    requires Coherent(s)
    ensures var r := FetchDue(s, limit, now);
      && |r| <= limit
      && (forall e | e in r :: Due(s, e.id, now) && s[e.id].event == e)
      && (forall e | e in r ::
            e.id in s && s[e.id].Live? && s[e.id].at <= now && s[e.id].at != 0xFFFF_FFFF_FFFF_FFFF && s[e.id].event == e)
      && (forall i, j | 0 <= i < j < |r| :: r[i].id != r[j].id)
      && (forall i, j | 0 <= i < j < |r| ::
            && r[i].id in s && r[j].id in s && s[r[i].id].Live? && s[r[j].id].Live?
            && (s[r[i].id].at < s[r[j].id].at ||
                (s[r[i].id].at == s[r[j].id].at &&
                 exists k :: 0 <= k < 16 && r[i].id[..k] == r[j].id[..k] && r[i].id[k] < r[j].id[k])))
  {
    hide FetchDue;
    FetchInKeyOrder(s, limit, now);
    var r := FetchDue(s, limit, now);
    forall i, j | 0 <= i < j < |r|
      ensures
        && r[i].id in s && r[j].id in s && s[r[i].id].Live? && s[r[j].id].Live?
        && (s[r[i].id].at < s[r[j].id].at ||
            (s[r[i].id].at == s[r[j].id].at &&
             exists k :: 0 <= k < 16 && r[i].id[..k] == r[j].id[..k] && r[i].id[k] < r[j].id[k]))
    {
      assert r[i] in r && r[j] in r;
      assert KeyLess(KeyOf(s, r[i]), KeyOf(s, r[j]));
      LexMeaningSameLength(r[i].id, r[j].id);
    }
  }

  lemma DueCount(s: Store, now: U64)
    ensures |DueKeys(s, now)| == |DueIds(s, now)|
  {
    var ids := DueIds(s, now);
    IdsOfKeys(s, now, ids);
    assert (set id | id in ids && id in s && Due(s, id, now) :: Key(s[id].at, id)) == DueKeys(s, now);
  }

  lemma {:induction false} IdsOfKeys(s: Store, now: U64, ids: set<EventId>)
    requires forall id | id in ids :: id in s && Due(s, id, now)
    ensures |set id | id in ids && id in s && Due(s, id, now) :: Key(s[id].at, id)| == |ids|
  {
    var keys := set id | id in ids && id in s && Due(s, id, now) :: Key(s[id].at, id);
    if ids == {} {
      assert keys == {};
    } else {
      var x :| x in ids;
      var rest := ids - {x};
      IdsOfKeys(s, now, rest);
      var restKeys := set id | id in rest && id in s && Due(s, id, now) :: Key(s[id].at, id);
      assert keys == restKeys + {Key(s[x].at, x)};
      assert Key(s[x].at, x) !in restKeys;
    }
  }

  /** Whether a fetch left the id out. */
  ghost predicate LeftOut(r: seq<OutboxEvent>, id: EventId) {
    forall x | x in r :: x.id != id
  }

  lemma LeftOutComesLater(s: Store, limit: nat, now: U64, id: EventId, i: nat)
    requires Coherent(s) && id in s && Due(s, id, now) && LeftOut(FetchDue(s, limit, now), id)
    requires i < |FetchDue(s, limit, now)|
    ensures var e := FetchDue(s, limit, now)[i];
      e.id in s && s[e.id].Live? && KeyLess(KeyOf(s, e), Key(s[id].at, id))
  {
    var r, ks := FetchDue(s, limit, now), FetchKeys(s, limit, now);
    FetchKeysByIndex(s, limit, now);
    FirstKeys(DueKeys(s, now), limit);
    var k := Key(s[id].at, id);
    assert k in DueKeys(s, now);
    forall j | 0 <= j < |ks| ensures ks[j] != k {
      assert r[j] in r;
    }
    assert k !in ks && ks[i] in ks;
  }

  /** A fetch returns as many events as are due, up to the limit, and any due event
      it leaves out comes after everything it returns: later, or at the same time
      with the larger byte where the ids first differ. */
  lemma FetchIsComplete(s: Store, limit: nat, now: U64)
    requires Coherent(s)
    ensures |FetchDue(s, limit, now)| == Min(limit, |DueIds(s, now)|)
    ensures |FetchDue(s, limit, now)| ==
      Min(limit, |set id | id in s && s[id].Live? && s[id].at <= now && s[id].at != 0xFFFF_FFFF_FFFF_FFFF|)
    ensures forall id, e | id in s && Due(s, id, now) && e in FetchDue(s, limit, now) && LeftOut(FetchDue(s, limit, now), id) ::
      && e.id in s && s[e.id].Live?
      && (s[e.id].at < s[id].at ||
          (s[e.id].at == s[id].at && exists k :: 0 <= k < 16 && e.id[..k] == id[..k] && e.id[k] < id[k]))
  {
    hide LeftOut, FetchKeys, FetchDue;
    var r := FetchDue(s, limit, now);
    FetchSize(s, limit, now);
    assert DueIds(s, now) == set id | id in s && s[id].Live? && s[id].at <= now && s[id].at != 0xFFFF_FFFF_FFFF_FFFF;
    forall id, e | id in s && Due(s, id, now) && e in r && LeftOut(r, id)
      ensures
        && e.id in s && s[e.id].Live?
        && (s[e.id].at < s[id].at ||
            (s[e.id].at == s[id].at && exists k :: 0 <= k < 16 && e.id[..k] == id[..k] && e.id[k] < id[k]))
    {
      var i :| 0 <= i < |r| && r[i] == e;
      LeftOutComesLater(s, limit, now, id, i);
      LexMeaningSameLength(e.id, id);
    }
  }

  /** A failed event comes back at its retry time with one attempt more, the
      diagnostic as its last error, and everything else as it was. */
  lemma FailureComesBack(s: Store, id: EventId, diagnostic: Bytes, at: U64, limit: nat, now: U64)
    requires Coherent(s) && id in s && s[id].Live? && at <= now && at != 0xFFFF_FFFF_FFFF_FFFF
    ensures var was, s' := s[id].event, MarkFailed(s, id, diagnostic, at);
      var r := FetchDue(s', limit, now);
      && (limit >= |DueIds(s', now)| ==> exists i :: 0 <= i < |r| && r[i].id == id)
      && (forall e | e in r && e.id == id ::
            && e.attempts == (if was.attempts == 0xFFFF_FFFF then was.attempts else was.attempts + 1)
            && e.lastError == Some(diagnostic)
            && e.topic == was.topic && e.payload == was.payload && e.headers == was.headers && e.createdAt == was.createdAt)
  {
    hide FetchDue;
    var s' := MarkFailed(s, id, diagnostic, at);
    var r := FetchDue(s', limit, now);
    FetchReturnsDueInOrder(s', limit, now);
    if limit >= |DueIds(s', now)| {
      FetchSize(s', limit, now);
      AllFetched(s', limit, now, id);
    }
  }

  lemma {:induction false} AllFetched(s: Store, limit: nat, now: U64, id: EventId)
    requires Coherent(s) && limit >= |DueIds(s, now)| && id in s && Due(s, id, now)
    ensures exists i :: 0 <= i < |FetchDue(s, limit, now)| && FetchDue(s, limit, now)[i].id == id
  {
    var ks := FetchKeys(s, limit, now);
    FetchKeysByIndex(s, limit, now);
    FirstKeys(DueKeys(s, now), limit);
    DueCount(s, now);
    ArrangeCount(DueKeys(s, now));
    var k := Key(s[id].at, id);
    assert k in DueKeys(s, now);
    assert k in Elements(Arrange(DueKeys(s, now)));
    var i :| 0 <= i < |ks| && ks[i] == k;
    assert FetchDue(s, limit, now)[i].id == id;
  }

  lemma FetchSize(s: Store, limit: nat, now: U64)
    requires Coherent(s)
    ensures |FetchDue(s, limit, now)| == Min(limit, |DueIds(s, now)|)
  {
    FetchKeysByIndex(s, limit, now);
    FirstKeys(DueKeys(s, now), limit);
    DueCount(s, now);
  }
}
