/** The in-process store: an event map, an ordered index, a dispatched set. */
module MemoryStores {
  import opened Base
  import opened Ordering
  import opened Utf8
  import opened Truncation
  import opened EventIds
  import opened Events
  import opened Simulation
  import Outbox

  function Index(events: map<EventId, (U64, OutboxEvent)>): set<Key> {
    set id | id in events :: Key(events[id].0, id)
  }

  lemma IndexInsert(events: map<EventId, (U64, OutboxEvent)>, id: EventId, at: U64, event: OutboxEvent)
    requires id !in events
    ensures Index(events[id := (at, event)]) == Index(events) + {Key(at, id)}
  {
    var after := events[id := (at, event)];
    forall k | k in Index(events) ensures k in Index(after) {
      var x :| x in events && k == Key(events[x].0, x);
      assert x in after && after[x] == events[x];
    }
    assert id in after;
  }

  lemma IndexRemove(events: map<EventId, (U64, OutboxEvent)>, id: EventId)
    requires id in events
    ensures Index(events - {id}) == Index(events) - {Key(events[id].0, id)}
  {
    var after := events - {id};
    forall k | k in Index(events) && k != Key(events[id].0, id) ensures k in Index(after) {
      var x :| x in events && k == Key(events[x].0, x);
      assert x in after && after[x] == events[x];
    }
  }

  class MemoryStore {
    /** Each event still to be delivered, with the stamp of its next attempt. */
    var events: map<EventId, (U64, OutboxEvent)>
    /** The ordered index over `events`, in iteration order. */
    var queue: seq<Key>
    /** What was delivered, by id alone. */
    var dispatched: set<EventId>

    /** The three fields agree: the index lists exactly the live events, keys
        match envelope ids, and no live id is dispatched. */
    ghost predicate Valid()
      reads this
    {
      && Sorted(queue)
      && Elements(queue) == Index(events)
      && (forall id | id in events :: events[id].1.id == id)
      && events.Keys !! dispatched
    }

    ghost function View(): Outbox.Store
      reads this
    {
      map id | id in events.Keys + dispatched ::
        if id in events then Outbox.Live(events[id].0, events[id].1) else Outbox.Dispatched
    }

    lemma ViewIndex()
      requires Valid()
      ensures Elements(queue) == set id | id in View() && View()[id].Live? :: Key(View()[id].at, id)
    {
      var v := View();
      forall k | k in Elements(queue) ensures k in set id | id in v && v[id].Live? :: Key(v[id].at, id) {
        var id :| id in events && k == Key(events[id].0, id);
        assert id in v && v[id] == Outbox.Live(events[id].0, events[id].1);
      }
    }

    constructor ()
      ensures Valid() && View() == map[]
    {
      events := map[];
      queue := [];
      dispatched := {};
    }

    /** Rows tracked: every entry of the view is counted once. */
    method Len() returns (n: nat)
      requires Valid()
      ensures n == |View()|
    {
      n := |events| + |dispatched|;
      assert View().Keys == events.Keys + dispatched;
    }

    method Append(event: OutboxEvent) returns (r: Result<Unit>)
      requires Valid()
      modifies this
      ensures Valid()
      ensures r == Outbox.AppendReply(event)
      ensures View() == Outbox.Append(old(View()), event)
      ensures r == if ValidTopic(event.topic) then Ok(Unit) else Err(InvalidTopic(event.topic))
      ensures View() ==
        if ValidTopic(event.topic) && event.id !in old(View())
        then old(View())[event.id := Outbox.Live(event.createdAt, event)]
        else old(View())
      ensures (View(), Done(r)) == MemoryStep(old(View()), AppendOp(event))
    {
      if !ValidTopic(event.topic) {
        return Err(InvalidTopic(event.topic));
      }
      if event.id in events || event.id in dispatched {
        return Ok(Unit);
      }
      IndexInsert(events, event.id, event.createdAt, event);
      events := events[event.id := (event.createdAt, event)];
      queue := Insert(queue, Key(event.createdAt, event.id));
      r := Ok(Unit);
    }

    /** No indexed key misses its event, so the lookup drops none. */
    method FetchDue(limit: nat, now: U64) returns (r: seq<OutboxEvent>)
      requires Valid()
      ensures r == Outbox.FetchDue(View(), limit, now)
      ensures (View(), Batch(Ok(r))) == MemoryStep(View(), FetchOp(limit, now))
    {
      r := [];
      ghost var taken: seq<Key> := [];
      var i := 0;
      while i < |queue| && |r| < limit
        invariant 0 <= i <= |queue|
        invariant taken == Selected(queue[..i], now)
        invariant Outbox.KeysLive(View(), taken)
        invariant r == Outbox.EventsAt(View(), taken)
        invariant |r| == |taken| <= limit
      {
        var k := queue[i];
        SelectedStep(queue, i, now);
        TakeKey(taken, k);
        if k.at <= now && k.at != NEVER {
          r := r + [events[k.id].1];
          taken := taken + [k];
        }
        i := i + 1;
      }
      ViewIndex();
      FirstSelected(View(), queue, i, taken, limit, now);
    }

    // Every indexed key finds its event.
    lemma TakeKey(taken: seq<Key>, k: Key)
      requires Valid() && k in queue && Outbox.KeysLive(View(), taken)
      ensures |k.id| == 16 && k.id in events
      ensures Outbox.KeysLive(View(), taken + [k])
      ensures Outbox.EventsAt(View(), taken + [k]) == Outbox.EventsAt(View(), taken) + [events[k.id].1]
    {
      assert k in Elements(queue);
      assert k.id in View();
      EventsAtPush(View(), taken, k);
    }

    method MarkDispatched(id: EventId)
      requires Valid()
      modifies this
      ensures Valid()
      ensures View() == old(View())[id := Outbox.Dispatched]
      ensures forall at: U64 :: View() == MemoryStep(old(View()), DispatchOp(id, at)).0
    {
      if id in events {
        IndexRemove(events, id);
        queue := Remove(queue, Key(events[id].0, id));
        events := events - {id};
      }
      dispatched := dispatched + {id};
    }

    method MarkFailed(id: EventId, error: Str, retryAt: U64)
      requires Valid()
      modifies this
      ensures Valid()
      ensures View() == Outbox.MarkFailed(old(View()), id, Truncated(error, MAX_ERROR_BYTES), retryAt)
      ensures View().Keys == old(View()).Keys && forall x | x in View() && x != id :: View()[x] == old(View())[x]
      ensures id in View() && old(View())[id].Live? ==>
        var was := old(View())[id].event;
        View()[id] == Outbox.Live(retryAt,
          was.(attempts := if was.attempts == 0xFFFF_FFFF then was.attempts else was.attempts + 1,
               lastError := Some(Truncated(error, 1024))))
      ensures id in View() && old(View())[id].Dispatched? ==> View()[id].Dispatched?
      ensures View() == MemoryStep(old(View()), FailOp(id, error, retryAt)).0
    {
      if id in events {
        var (at, event) := events[id];
        queue := Remove(queue, Key(at, event.id));
        var diagnostic := TruncateError(error);
        event := event.(attempts := Outbox.SaturatingIncrement(event.attempts), lastError := Some(diagnostic));
        IndexRemove(events, id);
        IndexInsert(events - {id}, id, retryAt, event);
        assert (events - {id})[id := (retryAt, event)] == events[id := (retryAt, event)];
        events := events[id := (retryAt, event)];
        queue := Insert(queue, Key(retryAt, event.id));
      }
    }

    method PendingCount() returns (n: nat)
      requires Valid()
      ensures n == Outbox.PendingCount(View()) && Count(n) == MemoryStep(View(), PendingOp).1
      ensures n == |set id | id in View() && View()[id].Live? && View()[id].at != 0xFFFF_FFFF_FFFF_FFFF|
    {
      n := |set id | id in events && events[id].0 != NEVER|;
      assert (set id | id in events && events[id].0 != NEVER) == set id | id in View() && Outbox.Pending(View(), id);
      assert (set id | id in events && events[id].0 != NEVER) ==
        set id | id in View() && View()[id].Live? && View()[id].at != 0xFFFF_FFFF_FFFF_FFFF;
    }

    method ParkedCount() returns (n: nat)
      requires Valid()
      ensures n == Outbox.ParkedCount(View()) && Count(n) == MemoryStep(View(), ParkedOp).1
      ensures n == |set id | id in View() && View()[id].Live? && View()[id].at == 0xFFFF_FFFF_FFFF_FFFF|
    {
      n := |set id | id in events && events[id].0 == NEVER|;
      assert (set id | id in events && events[id].0 == NEVER) == set id | id in View() && Outbox.Parked(View(), id);
      assert (set id | id in events && events[id].0 == NEVER) ==
        set id | id in View() && View()[id].Live? && View()[id].at == 0xFFFF_FFFF_FFFF_FFFF;
    }
  }

  // --- the index scan -------------------------------------------------------------

  /** The index filtered to the due, non-parked stamps. */
  ghost function Selected(ks: seq<Key>, now: U64): seq<Key> {
    if ks == [] then []
    else
      var k, before := ks[|ks| - 1], Selected(ks[..|ks| - 1], now);
      if k.at <= now && k.at != NEVER then before + [k] else before
  }

  lemma SelectedStep(ks: seq<Key>, i: nat, now: U64)
    requires i < |ks|
    ensures Selected(ks[..i + 1], now) ==
      if ks[i].at <= now && ks[i].at != NEVER then Selected(ks[..i], now) + [ks[i]] else Selected(ks[..i], now)
  {
    assert ks[..i + 1][..i] == ks[..i];
  }

  lemma {:induction false} SelectedSorted(ks: seq<Key>, now: U64)
    requires Sorted(ks)
    ensures Sorted(Selected(ks, now))
    ensures Elements(Selected(ks, now)) == set k | k in Elements(ks) && k.at <= now && k.at != NEVER
  {
    if ks != [] {
      var k, front := ks[|ks| - 1], ks[..|ks| - 1];
      SelectedSorted(front, now);
      assert Elements(ks) == Elements(front) + {k};
      var s := Selected(front, now);
      forall i | 0 <= i < |s| ensures KeyLess(s[i], k) {
        assert s[i] in Elements(s);
        assert s[i] in front;
      }
      assert Elements(s + [k]) == Elements(s) + {k};
    }
  }

  lemma {:induction false} SelectedPrefix(ks: seq<Key>, i: nat, now: U64)
    requires i <= |ks|
    ensures Selected(ks[..i], now) <= Selected(ks, now)
    decreases |ks| - i
  {
    if i < |ks| {
      SelectedStep(ks, i, now);
      SelectedPrefix(ks, i + 1, now);
    } else {
      assert ks[..i] == ks;
    }
  }

  lemma EventsAtPush(s: Outbox.Store, ks: seq<Key>, k: Key)
    requires Outbox.KeysLive(s, ks + [k])
    ensures Outbox.KeysLive(s, ks)
    ensures Outbox.EventsAt(s, ks + [k]) == Outbox.EventsAt(s, ks) + [s[k.id].event]
  {
    assert forall x | x in ks :: x in ks + [k];
    var r := Outbox.EventsAt(s, ks + [k]);
    assert forall i | 0 <= i < |ks| :: (ks + [k])[i] == ks[i];
  }

  /** Scanning the index until `limit` due keys are taken takes the first
      `limit` due keys. */
  lemma FirstSelected(s: Outbox.Store, queue: seq<Key>, i: nat, taken: seq<Key>, limit: nat, now: U64)
    requires Sorted(queue) && i <= |queue|
    requires Elements(queue) == set id | id in s && s[id].Live? :: Key(s[id].at, id)
    requires taken == Selected(queue[..i], now)
    requires |taken| <= limit && (i < |queue| ==> |taken| == limit)
    ensures taken == Outbox.FetchKeys(s, limit, now)
  {
    var all := Selected(queue, now);
    SelectedSorted(queue, now);
    assert Elements(all) == Outbox.DueKeys(s, now);
    SortedUnique(all, Arrange(Outbox.DueKeys(s, now)));
    SelectedPrefix(queue, i, now);
    if i == |queue| {
      assert queue[..i] == queue;
    }
  }

  // --- the index is determined by the entries ---------------------------------------

  /** Two stores with the same entries have the same fields: map, index and
      dispatched set. */
  lemma SameViewSameFields(a: MemoryStore, b: MemoryStore)
    requires a.Valid() && b.Valid() && a.View() == b.View()
    ensures a.events == b.events && a.queue == b.queue && a.dispatched == b.dispatched
  {
    var v, w := a.View(), b.View();
    forall id: EventId ensures id in a.events <==> id in b.events {
      assert id in a.events <==> id in v && v[id].Live?;
      assert id in b.events <==> id in w && w[id].Live?;
    }
    forall id | id in a.events ensures a.events[id] == b.events[id] {
      assert v[id] == w[id];
    }
    forall id: EventId ensures id in a.dispatched <==> id in b.dispatched {
      assert id in a.dispatched <==> id in v && v[id].Dispatched?;
      assert id in b.dispatched <==> id in w && w[id].Dispatched?;
    }
    assert a.events == b.events;
    SortedUnique(a.queue, b.queue);
  }

  /** Pending and parked events together are the live events, each indexed once. */
  lemma CountsCoverLive(m: MemoryStore)
    requires m.Valid()
    ensures Outbox.PendingCount(m.View()) + Outbox.ParkedCount(m.View()) == |m.events|
    ensures |m.queue| == |m.events|
  {
    var v := m.View();
    var pending := set id | id in v && Outbox.Pending(v, id);
    var parked := set id | id in v && Outbox.Parked(v, id);
    assert pending + parked == m.events.Keys && pending !! parked;
    SortedDistinct(m.queue);
    IndexCount(m.events);
  }

  lemma IndexCount(events: map<EventId, (U64, OutboxEvent)>)
    ensures |Index(events)| == |events|
  {
    var ids := events.Keys;
    KeysCount(events, ids);
    assert (set id | id in ids && id in events :: Key(events[id].0, id)) == Index(events);
  }

  lemma {:induction false} KeysCount(events: map<EventId, (U64, OutboxEvent)>, ids: set<EventId>)
    requires ids <= events.Keys
    ensures |set id | id in ids && id in events :: Key(events[id].0, id)| == |ids|
  {
    var keys := set id | id in ids && id in events :: Key(events[id].0, id);
    if ids == {} {
      assert keys == {};
    } else {
      var x :| x in ids;
      var rest := ids - {x};
      KeysCount(events, rest);
      var restKeys := set id | id in rest && id in events :: Key(events[id].0, id);
      assert keys == restKeys + {Key(events[x].0, x)};
      assert Key(events[x].0, x) !in restKeys;
    }
  }
}
