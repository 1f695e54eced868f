/** Any number of dispatchers over one Postgres table: claims under row locks,
    commits, sends, marks, dead letters and crashes as steps of one system. */
module PostgresCluster {
  import opened Base
  import opened Utf8
  import opened Truncation
  import opened Ordering
  import opened EventIds
  import opened Events
  import opened Codec
  import opened Rows
  import opened PostgresTables

  // --- the system ---------------------------------------------------------------------

  /** An open claim transaction: the keys it locked and the columns it read. */
  datatype OpenClaim = OpenClaim(limit: nat, now: U64, keys: seq<Key>, read: seq<(Bytes, Envelope)>)

  datatype Phase = Waiting | Succeeded | Failed(retryAt: U64) | Finished

  datatype Task = Task(event: OutboxEvent, phase: Phase)

  /** `appended` holds the columns first written for an id; `accepted` the ids of
      sends answered Ok. */
  datatype Sys = Sys(
    rows: Table,
    letters: map<Bytes, LetterRow>,
    claims: map<nat, OpenClaim>,
    batches: map<nat, seq<Task>>,
    appended: map<Bytes, Envelope>,
    accepted: set<Bytes>)

  /** `n` names an instance; `i` a task of its batch. */
  datatype Step =
    | Append(event: OutboxEvent)
    | Lock(n: nat, limit: nat, now: U64)
    | Commit(n: nat)
    | Abort(n: nat)
    | Accept(n: nat, i: nat)
    | Refuse(n: nat, i: nat, retryAt: U64)
    | Pause(n: nat, i: nat)
    | Mark(n: nat, i: nat, recorded: bool, clock: U64, error: Str)
    | Join(n: nat)
    | Crash(n: nat)
    | Reschedule(id: EventId, at: U64, error: Str)
    | DeadLetter(event: OutboxEvent, reason: Str, clock: U64)

  const INIT := Sys(map[], map[], map[], map[], map[], {})

  function Ids(ks: seq<Key>): set<Bytes> {
    set k | k in ks :: k.id
  }

  /** The rows some open claim has locked. */
  function Locked(s: Sys): set<Bytes> {
    set n, k | n in s.claims && k in s.claims[n].keys :: k.id
  }

  predicate TaskAt(s: Sys, n: nat, i: nat, phase: Phase) {
    n in s.batches && i < |s.batches[n]| && s.batches[n][i].phase == phase
  }

  predicate Settling(s: Sys, n: nat, i: nat) {
    n in s.batches && i < |s.batches[n]| && (s.batches[n][i].phase.Succeeded? || s.batches[n][i].phase.Failed?)
  }

  /** A write waits for the claim that locked its row. */
  predicate Enabled(s: Sys, step: Step) {
    match step
    case Append(_) => true
    case Lock(n, _, _) => n !in s.claims && n !in s.batches
    case Commit(n) => n in s.claims
    case Abort(n) => n in s.claims
    case Accept(n, i) => TaskAt(s, n, i, Waiting)
    case Refuse(n, i, _) => TaskAt(s, n, i, Waiting)
    case Pause(n, i) => TaskAt(s, n, i, Waiting)
    case Mark(n, i, recorded, _, _) =>
      Settling(s, n, i) && (recorded ==> Hyphenated(s.batches[n][i].event.id) !in Locked(s))
    case Join(n) => n in s.batches && forall t | t in s.batches[n] :: t.phase.Finished?
    case Crash(_) => true
    case Reschedule(id, _, _) => Hyphenated(id) !in Locked(s)
    case DeadLetter(event, _, _) => Hyphenated(event.id) !in Locked(s)
  }

  function Spawn(events: seq<OutboxEvent>): seq<Task> {
    seq(|events|, i requires 0 <= i < |events| => Task(events[i], Waiting))
  }

  function Moved(s: Sys, n: nat, i: nat, phase: Phase): Sys
    requires n in s.batches && i < |s.batches[n]|
  {
    s.(batches := s.batches[n := s.batches[n][i := s.batches[n][i].(phase := phase)]])
  }

  /** A failed statement leaves the table alone. */
  function RowsAfterFailure(t: Table, id: EventId, error: Str, at: U64): Table {
    match SetFailed(t, Hyphenated(id), Truncated(error, MAX_ERROR_BYTES), ClampI64(at))
    case Ok(t') => t'
    case Err(_) => t
  }

  function RowsAfterMark(t: Table, task: Task, clock: U64, error: Str): Table
    requires task.phase.Succeeded? || task.phase.Failed?
  {
    match task.phase
    case Succeeded => SetDispatched(t, Hyphenated(task.event.id), ClampI64(clock))
    case Failed(retryAt) => RowsAfterFailure(t, task.event.id, error, retryAt)
  }

  predicate Inserts(s: Sys, event: OutboxEvent) {
    ValidTopic(event.topic) && Encode(event.headers).Ok? && Hyphenated(event.id) !in s.rows
  }

  predicate Letters(event: OutboxEvent) {
    ValidTopic(event.topic) && Encode(event.headers).Ok?
  }

  ghost function Do(s: Sys, step: Step): Sys
    requires Enabled(s, step)
  {
    match step
    case Append(event) =>
      if Inserts(s, event) then
        var row := AppendedRow(event, Encode(event.headers).value);
        s.(rows := InsertIfAbsent(s.rows, Hyphenated(event.id), row),
           appended := s.appended[Hyphenated(event.id) := row.envelope])
      else s
    case Lock(n, limit, now) =>
      var keys := SelectForUpdate(s.rows, Locked(s), limit, now);
      s.(claims := s.claims[n := OpenClaim(limit, now, keys, RowsAt(s.rows, keys))])
    case Commit(n) =>
      var released := s.(claims := s.claims - {n});
      (match DecodeRows(s.claims[n].read)
       case Ok(events) => released.(batches := s.batches[n := Spawn(events)])
       case Err(_) => released)
    case Abort(n) => s.(claims := s.claims - {n})
    case Accept(n, i) =>
      Moved(s, n, i, Succeeded).(accepted := s.accepted + {Hyphenated(s.batches[n][i].event.id)})
    case Refuse(n, i, retryAt) => Moved(s, n, i, Failed(retryAt))
    case Pause(n, i) => Moved(s, n, i, Finished)
    case Mark(n, i, recorded, clock, error) =>
      var rows := if recorded then RowsAfterMark(s.rows, s.batches[n][i], clock, error) else s.rows;
      Moved(s, n, i, Finished).(rows := rows)
    case Join(n) => s.(batches := s.batches - {n})
    case Crash(n) => s.(claims := s.claims - {n}, batches := s.batches - {n})
    case Reschedule(id, at, error) => s.(rows := RowsAfterFailure(s.rows, id, error, at))
    case DeadLetter(event, reason, clock) =>
      if Letters(event) then
        var e := EnvelopeOf(event, Encode(event.headers).value, ClampI32(event.attempts));
        s.(letters := s.letters[Hyphenated(event.id) := LetterRow(e, Truncated(reason, MAX_REASON_BYTES), ClampI64(clock))],
           rows := s.rows - {Hyphenated(event.id)})
      else s
  }

  ghost predicate Legal(steps: seq<Step>)
    decreases |steps|, 0
  {
    steps == [] ||
    (Legal(steps[..|steps| - 1]) && Enabled(Reached(steps[..|steps| - 1]), steps[|steps| - 1]))
  }

  /** The state a legal run reaches. */
  ghost function Reached(steps: seq<Step>): Sys
    requires Legal(steps)
    decreases |steps|, 1
  {
    if steps == [] then INIT else Do(Reached(steps[..|steps| - 1]), steps[|steps| - 1])
  }

  // --- claims ---------------------------------------------------------------------------

  /** What a claim locked is still in the table, due and pending, unchanged since
      it was read. */
  ghost predicate Current(t: Table, c: OpenClaim) {
    && Sorted(c.keys) && |c.keys| <= c.limit && |c.read| == |c.keys|
    && forall i | 0 <= i < |c.keys| ::
         var k := c.keys[i];
         && k.id in t && t[k.id].status == Pending && t[k.id].nextAttemptAt == k.at <= c.now
         && c.read[i] == (k.id, t[k.id].envelope)
  }

  ghost predicate ClaimsHold(s: Sys) {
    && (forall n | n in s.claims :: Current(s.rows, s.claims[n]))
    && (forall n, m | n in s.claims && m in s.claims && n != m :: Ids(s.claims[n].keys) !! Ids(s.claims[m].keys))
  }

  lemma SelectionMeaning(t: Table, locked: set<Bytes>, limit: nat, now: U64)
    ensures var ks, able := SelectForUpdate(t, locked, limit, now), ClaimableKeys(t, locked, ClampI64(now));
      && Sorted(ks) && |ks| == Min(Min(limit, I64_MAX), |able|)
      && (forall k | k in ks :: k in able && k.id in t && k.id !in locked && t[k.id].status == Pending && t[k.id].nextAttemptAt == k.at <= now)
      && (forall k, out | k in ks && out in able && out !in ks :: KeyLess(k, out))
  {
    FirstKeys(ClaimableKeys(t, locked, ClampI64(now)), Min(limit, I64_MAX));
  }

  lemma {:induction false} ClaimableCount(t: Table, locked: set<Bytes>, now: int, texts: set<Bytes>)
    requires texts <= t.Keys
    ensures |set x | x in texts && x in t :: Key(t[x].nextAttemptAt, x)| == |texts|
  {
    var keys := set x | x in texts && x in t :: Key(t[x].nextAttemptAt, x);
    if texts == {} {
      assert keys == {};
    } else {
      var y :| y in texts;
      ClaimableCount(t, locked, now, texts - {y});
      var rest := set x | x in texts - {y} && x in t :: Key(t[x].nextAttemptAt, x);
      assert keys == rest + {Key(t[y].nextAttemptAt, y)} && Key(t[y].nextAttemptAt, y) !in rest;
    }
  }

  // The rows a claim at this clock reading could lock.
  function Able(s: Sys, now: U64): set<Bytes> {
    set text | text in s.rows && text !in Locked(s) && s.rows[text].status == Pending &&
               s.rows[text].nextAttemptAt <= Min(now, 0x7FFF_FFFF_FFFF_FFFF)
  }

  lemma AbleCount(s: Sys, now: U64)
    ensures |ClaimableKeys(s.rows, Locked(s), ClampI64(now))| == |Able(s, now)|
  {
    ClaimableCount(s.rows, Locked(s), ClampI64(now), Able(s, now));
    assert ClaimableKeys(s.rows, Locked(s), ClampI64(now)) ==
      set x | x in Able(s, now) && x in s.rows :: Key(s.rows[x].nextAttemptAt, x);
  }

  /** Due earlier, or at the same time under a smaller text: where the two first
      differ the smaller ends or has the smaller byte. */
  ghost predicate Sooner(t: Table, a: Bytes, b: Bytes)
    requires a in t && b in t
  {
    || t[a].nextAttemptAt < t[b].nextAttemptAt
    || (t[a].nextAttemptAt == t[b].nextAttemptAt &&
        exists k: nat :: k <= |a| && k < |b| && a[..k] == b[..k] && (k == |a| || a[k] < b[k]))
  }

  lemma KeySooner(t: Table, a: Bytes, b: Bytes)
    requires a in t && b in t
    ensures KeyLess(Key(t[a].nextAttemptAt, a), Key(t[b].nextAttemptAt, b)) <==> Sooner(t, a, b)
  {
    LexMeaning(a, b);
  }

  /** A claim locks the first `limit` rows, in `(next_attempt_at, id)` order, of
      those that are due, pending and not locked by another instance. */
  lemma ClaimTakesFirstUnlockedDue(s: Sys, n: nat, limit: nat, now: U64)
    requires Enabled(s, Lock(n, limit, now))
    ensures var ks := Do(s, Lock(n, limit, now)).claims[n].keys;
      && Sorted(ks) && |ks| == Min(Min(limit, 0x7FFF_FFFF_FFFF_FFFF), |Able(s, now)|)
      && Ids(ks) !! Locked(s)
      && (forall i | 0 <= i < |ks| :: ks[i].id in Able(s, now) && ks[i].at == s.rows[ks[i].id].nextAttemptAt <= now)
      && (forall i, j | 0 <= i < j < |ks| :: Sooner(s.rows, ks[i].id, ks[j].id))
      && (forall i, text | 0 <= i < |ks| && text in Able(s, now) && text !in Ids(ks) :: Sooner(s.rows, ks[i].id, text))
  {
    hide SelectForUpdate, Hyphenated, Sooner;
    SelectionMeaning(s.rows, Locked(s), limit, now);
    AbleCount(s, now);
    var ks := SelectForUpdate(s.rows, Locked(s), limit, now);
    forall i | 0 <= i < |ks| ensures ks[i].id in Able(s, now) && ks[i].at == s.rows[ks[i].id].nextAttemptAt <= now {
      assert ks[i] in ks;
    }
    forall i, j | 0 <= i < j < |ks| ensures Sooner(s.rows, ks[i].id, ks[j].id) {
      assert KeyLess(ks[i], ks[j]);
      KeySooner(s.rows, ks[i].id, ks[j].id);
    }
    forall i, text | 0 <= i < |ks| && text in Able(s, now) && text !in Ids(ks) ensures Sooner(s.rows, ks[i].id, text) {
      var out := Key(s.rows[text].nextAttemptAt, text);
      assert out in ClaimableKeys(s.rows, Locked(s), ClampI64(now));
      assert out in ks ==> text in Ids(ks);
      assert ks[i] in ks;
      KeySooner(s.rows, ks[i].id, text);
    }
  }

  lemma LockKeepsClaims(s: Sys, n: nat, limit: nat, now: U64)
    requires ClaimsHold(s) && Enabled(s, Lock(n, limit, now))
    ensures ClaimsHold(Do(s, Lock(n, limit, now)))
  {
    hide SelectForUpdate, Sorted;
    var s' := Do(s, Lock(n, limit, now));
    SelectionMeaning(s.rows, Locked(s), limit, now);
    var ks := s'.claims[n].keys;
    assert forall i | 0 <= i < |ks| :: ks[i] in ks;
    assert Current(s'.rows, s'.claims[n]);
    forall m | m in s.claims ensures Ids(s.claims[m].keys) !! Ids(ks) {
      assert Ids(s.claims[m].keys) <= Locked(s);
    }
  }

  // Claims survive every step that opens none and leaves locked rows alone.
  lemma ClaimsKept(a: Sys, b: Sys)
    requires ClaimsHold(a)
    requires forall n | n in b.claims :: n in a.claims && b.claims[n] == a.claims[n]
    requires forall text | text in Locked(a) && text in a.rows :: text in b.rows && b.rows[text] == a.rows[text]
    ensures ClaimsHold(b)
  {
    hide Sorted;
    forall n | n in b.claims ensures Current(b.rows, b.claims[n]) {
      var c := a.claims[n];
      assert Current(a.rows, c);
      forall i | 0 <= i < |c.keys| ensures c.keys[i].id in Locked(a) {
        assert c.keys[i] in c.keys;
      }
    }
  }

  // The rows a step may write.
  lemma LockedRowsUntouched(s: Sys, step: Step)
    requires Enabled(s, step)
    ensures forall text | text in Locked(s) && text in s.rows ::
      text in Do(s, step).rows && Do(s, step).rows[text] == s.rows[text]
  {
    hide Hyphenated, Locked, SelectForUpdate, DecodeRows, Encode, ValidTopic;
  }

  lemma ClaimsStep(s: Sys, step: Step)
    requires ClaimsHold(s) && Enabled(s, step)
    ensures ClaimsHold(Do(s, step))
  {
    if step.Lock? {
      LockKeepsClaims(s, step.n, step.limit, step.now);
    } else {
      LockedRowsUntouched(s, step);
      ClaimsShrink(s, step);
      ClaimsKept(s, Do(s, step));
    }
  }

  lemma ClaimsShrink(s: Sys, step: Step)
    requires Enabled(s, step) && !step.Lock?
    ensures forall n | n in Do(s, step).claims :: n in s.claims && Do(s, step).claims[n] == s.claims[n]
  {
    hide Hyphenated, Locked, SelectForUpdate, DecodeRows, Encode, ValidTopic, InsertIfAbsent, RowsAfterMark, RowsAfterFailure;
  }

  /** In every reachable state of any number of instances the open claims hold
      pairwise disjoint rows, and every row a claim holds is still the due,
      pending row the claim read. */
  lemma {:induction false} ClaimsAreDisjointAndCurrent(steps: seq<Step>)
    requires Legal(steps)
    ensures ClaimsHold(Reached(steps))
    decreases |steps|
  {
    hide ClaimsHold, Do, Enabled;
    if steps == [] {
      NoClaims();
    } else {
      ClaimsAreDisjointAndCurrent(steps[..|steps| - 1]);
      ClaimsStep(Reached(steps[..|steps| - 1]), steps[|steps| - 1]);
    }
  }

  lemma NoClaims()
    ensures ClaimsHold(INIT)
  {}

  // --- what each step writes -----------------------------------------------------------------

  /** An append writes the event's columns, clamped, into a pending row due at its
      creation time, unless the id has a row, the topic is invalid or the headers
      do not encode. */
  lemma AppendWrites(s: Sys, event: OutboxEvent)
    ensures Do(s, Append(event)).rows ==
      if ValidTopic(event.topic) && Encode(event.headers).Ok? && Hyphenated(event.id) !in s.rows
      then s.rows[Hyphenated(event.id) := Row(
             Envelope(event.topic, event.payload, Encode(event.headers).value,
                      Min(event.createdAt, 0x7FFF_FFFF_FFFF_FFFF), Min(event.attempts, 0x7FFF_FFFF), event.lastError),
             Pending, Min(event.createdAt, 0x7FFF_FFFF_FFFF_FFFF), None)]
      else s.rows
    ensures Do(s, Append(event)).letters == s.letters
  {
    hide Hyphenated, Encode, ValidTopic;
  }

  /** Delivered: a row not yet dispatched takes the status and the clock's reading;
      nothing else changes. */
  ghost predicate DispatchWritten(before: Table, after: Table, text: Bytes, clock: U64) {
    && after.Keys == before.Keys
    && (forall x | x in before && (x != text || before[x].status == Dispatched) :: after[x] == before[x])
    && (text in before && before[text].status != Dispatched ==>
          after[text] == Row(before[text].envelope, Dispatched, before[text].nextAttemptAt, Some(Min(clock, 0x7FFF_FFFF_FFFF_FFFF))))
  }

  /** Failed: the row, whatever its status, takes one attempt more, the error cut to
      1024 bytes and the retry stamp, parked at the column's ceiling and pending
      below it; a full attempts column leaves everything as it was. */
  ghost predicate FailureWritten(before: Table, after: Table, text: Bytes, error: Str, at: U64) {
    && after.Keys == before.Keys
    && (forall x | x in before && (x != text || before[x].envelope.attempts >= 0x7FFF_FFFF) :: after[x] == before[x])
    && (text in before && before[text].envelope.attempts < 0x7FFF_FFFF ==>
          var e := before[text].envelope;
          after[text] == Row(
            Envelope(e.topic, e.payload, e.headers, e.createdAt, e.attempts + 1, Some(Truncated(error, 1024))),
            if at >= 0x7FFF_FFFF_FFFF_FFFF then Parked else Pending,
            if at >= 0x7FFF_FFFF_FFFF_FFFF then 0x7FFF_FFFF_FFFF_FFFF else at, before[text].dispatchedAt))
  }

  lemma FailureWrites(t: Table, id: EventId, error: Str, at: U64)
    ensures FailureWritten(t, RowsAfterFailure(t, id, error, at), Hyphenated(id), error, at)
  {
    hide Hyphenated, Truncated;
  }

  /** A mark that reaches the table writes its outcome; a lost one writes nothing. */
  lemma MarkWrites(s: Sys, step: Step)
    requires Enabled(s, step) && step.Mark?
    ensures var task, rows := s.batches[step.n][step.i], Do(s, step).rows;
      match task.phase
      case Succeeded => if step.recorded then DispatchWritten(s.rows, rows, Hyphenated(task.event.id), step.clock) else rows == s.rows
      case Failed(at) => if step.recorded then FailureWritten(s.rows, rows, Hyphenated(task.event.id), step.error, at) else rows == s.rows
      case _ => false
  {
    hide Hyphenated, FailureWritten, RowsAfterFailure, Locked;
    var task := s.batches[step.n][step.i];
    if task.phase.Failed? {
      FailureWrites(s.rows, task.event.id, step.error, task.phase.retryAt);
    }
  }

  /** An operator's reschedule writes as a failure does. */
  lemma RescheduleWrites(s: Sys, step: Step)
    requires Enabled(s, step) && step.Reschedule?
    ensures FailureWritten(s.rows, Do(s, step).rows, Hyphenated(step.id), step.error, step.at)
  {
    hide Hyphenated, FailureWritten, RowsAfterFailure, Locked;
    FailureWrites(s.rows, step.id, step.error, step.at);
  }

  /** Commit, abort and crash end the instance's claim and no other, and write no
      row; a crash also forgets its batch. */
  lemma ClaimsEnd(s: Sys, step: Step)
    requires Enabled(s, step) && (step.Commit? || step.Abort? || step.Crash?)
    ensures var s' := Do(s, step);
      && s'.rows == s.rows && s'.letters == s.letters && step.n !in s'.claims
      && (forall m | m != step.n :: m in s'.claims <==> m in s.claims)
      && (forall m | m != step.n && m in s.claims :: s'.claims[m] == s.claims[m])
      && (step.Crash? ==> step.n !in s'.batches)
  {
    hide DecodeRows;
  }

  /** What a step does to the batch of its instance: answers and pauses move one waiting
      task, a mark finishes it, a join forgets a finished batch. Other batches, and
      all rows but a recorded mark's, stay as they are. */
  lemma TasksMove(s: Sys, step: Step)
    requires Enabled(s, step) && (step.Accept? || step.Refuse? || step.Pause? || step.Mark? || step.Join?)
    ensures var s' := Do(s, step);
      && s'.claims == s.claims && s'.letters == s.letters && (step.Mark? || s'.rows == s.rows)
      && (forall m | m != step.n :: m in s'.batches <==> m in s.batches)
      && (forall m | m != step.n && m in s.batches :: s'.batches[m] == s.batches[m])
      && (step.Join? ==> step.n !in s'.batches)
      && (!step.Join? ==>
            var was := s.batches[step.n];
            var phase := if step.Accept? then Succeeded else if step.Refuse? then Failed(step.retryAt) else Finished;
            step.n in s'.batches && s'.batches[step.n] == was[step.i := Task(was[step.i].event, phase)])
      && s'.accepted == s.accepted + (if step.Accept? then {Hyphenated(s.batches[step.n][step.i].event.id)} else {})
  {
    hide Hyphenated, RowsAfterMark, Locked;
  }

  /** Every row that is free again may be claimed again: what is locked after a claim
      ends is what the other claims hold. */
  lemma LocksReleased(s: Sys, step: Step)
    requires Enabled(s, step) && (step.Commit? || step.Abort? || step.Crash?)
    ensures forall text :: text in Locked(Do(s, step)) <==> exists m :: m in s.claims && m != step.n && text in Ids(s.claims[m].keys)
  {
    hide Do;
    ClaimsEnd(s, step);
    var s' := Do(s, step);
    forall text ensures text in Locked(s') <==> exists m :: m in s.claims && m != step.n && text in Ids(s.claims[m].keys) {
      if text in Locked(s') {
        var m, k :| m in s'.claims && k in s'.claims[m].keys && k.id == text;
        assert text in Ids(s.claims[m].keys);
      }
      if m :| m in s.claims && m != step.n && text in Ids(s.claims[m].keys) {
        var k :| k in s.claims[m].keys && k.id == text;
        assert m in s'.claims && k in s'.claims[m].keys;
      }
    }
  }

  // --- racing pollers partition the due set --------------------------------------------------

  /** One call of `fetch_due`: who polls, how many it wants, what its clock says. */
  datatype Poll = Poll(n: nat, limit: nat, now: U64)

  /** Instances that hold nothing, each polling once. */
  ghost predicate Free(s: Sys, polls: seq<Poll>) {
    && (forall i | 0 <= i < |polls| :: polls[i].n !in s.claims && polls[i].n !in s.batches)
    && (forall i, j | 0 <= i < j < |polls| :: polls[i].n != polls[j].n)
  }

  /** The state after the instances claim one after the other. */
  ghost function Raced(s: Sys, polls: seq<Poll>): Sys
    requires Free(s, polls)
    decreases |polls|
  {
    if polls == [] then s
    else
      var s1 := Do(s, Lock(polls[0].n, polls[0].limit, polls[0].now));
      assert forall i | 0 <= i < |polls[1..]| :: polls[1..][i] == polls[i + 1];
      Raced(s1, polls[1..])
  }

  function Total(polls: seq<Poll>): nat {
    if polls == [] then 0 else Min(polls[0].limit, I64_MAX) + Total(polls[1..])
  }

  /** Everything the polling instances hold, in polling order. */
  function Held(s: Sys, polls: seq<Poll>): seq<Key>
    requires forall p | p in polls :: p.n in s.claims
  {
    if polls == [] then [] else s.claims[polls[0].n].keys + Held(s, polls[1..])
  }

  /** What a poller alone would see at a clock reading, in order. */
  ghost function DueList(t: Table, locked: set<Bytes>, now: int): seq<Key> {
    Arrange(ClaimableKeys(t, locked, now))
  }

  ghost predicate DistinctIds(ks: seq<Key>) {
    forall i, j | 0 <= i < j < |ks| :: ks[i].id != ks[j].id
  }

  lemma ListedOnce(t: Table, locked: set<Bytes>, now: int)
    ensures DistinctIds(Arrange(ClaimableKeys(t, locked, now)))
  {
    var able := ClaimableKeys(t, locked, now);
    var all := Arrange(able);
    SortedDistinct(all);
    forall i, j | 0 <= i < j < |all| ensures all[i].id != all[j].id {
      assert all[i] in Elements(all) && all[j] in Elements(all);
      assert all[i] in able && all[j] in able && all[i] != all[j];
    }
  }

  lemma SplitById(all: seq<Key>, m: nat)
    requires m <= |all| && DistinctIds(all)
    ensures forall k :: k in all && k.id !in Ids(all[..m]) <==> k in all[m..]
  {
    assert all == all[..m] + all[m..];
    forall k | k in all[m..] ensures k.id !in Ids(all[..m]) {
      var j :| m <= j < |all| && all[j] == k;
      assert forall i | 0 <= i < m :: all[i].id != all[j].id;
    }
    forall k | k in all[..m] ensures k.id in Ids(all[..m]) {}
  }

  // Locking a prefix of the due list leaves the rest of it to the next claim.
  lemma RestIsClaimable(t: Table, locked: set<Bytes>, h: nat, now: int)
    requires h <= |DueList(t, locked, now)|
    ensures DueList(t, locked + Ids(DueList(t, locked, now)[..h]), now) == DueList(t, locked, now)[h..]
  {
    hide Ids, DistinctIds;
    var able := ClaimableKeys(t, locked, now);
    var all := Arrange(able);
    var first, rest := all[..h], all[h..];
    ListedOnce(t, locked, now);
    SplitById(all, h);
    var next := ClaimableKeys(t, locked + Ids(first), now);
    assert forall k :: k in able <==> k in Elements(all);
    assert forall k :: k in next <==> k in able && k.id !in Ids(first);
    assert Elements(rest) == next;
    SortedUnique(Arrange(next), rest);
  }

  lemma JoinSorted(a: seq<Key>, b: seq<Key>, at: int)
    requires Sorted(a) && Sorted(b)
    requires (forall k | k in a :: k.at <= at) && (forall k | k in b :: k.at > at)
    ensures Sorted(a + b) && Elements(a + b) == Elements(a) + Elements(b)
  {
    forall i, j | 0 <= i < j < |a + b| ensures KeyLess((a + b)[i], (a + b)[j]) {
      if i < |a| <= j {
        assert a[i] in a && b[j - |a|] in b;
      }
    }
  }

  // What is due earlier heads the list of what is due later.
  lemma EarlierIsPrefix(t: Table, locked: set<Bytes>, early: int, late: int)
    requires early <= late
    ensures DueList(t, locked, early) <= DueList(t, locked, late)
  {
    var some, all := ClaimableKeys(t, locked, early), ClaimableKeys(t, locked, late);
    var a, b := Arrange(some), Arrange(all - some);
    forall k | k in a ensures k.at <= early {
      assert k in Elements(a);
    }
    forall k | k in b ensures k.at > early {
      assert k in Elements(b);
      assert k in all && k !in some;
    }
    JoinSorted(a, b, early);
    assert Elements(a + b) == all;
    SortedUnique(a + b, Arrange(all));
  }

  lemma LockedAfter(s: Sys, n: nat, limit: nat, now: U64)
    requires Enabled(s, Lock(n, limit, now))
    ensures Locked(Do(s, Lock(n, limit, now))) == Locked(s) + Ids(SelectForUpdate(s.rows, Locked(s), limit, now))
  {
    hide SelectForUpdate;
    var s' := Do(s, Lock(n, limit, now));
    var ks := SelectForUpdate(s.rows, Locked(s), limit, now);
    forall text | text in Locked(s') ensures text in Locked(s) + Ids(ks) {
      var m, k :| m in s'.claims && k in s'.claims[m].keys && k.id == text;
      assert m != n ==> s'.claims[m] == s.claims[m];
    }
    forall text | text in Locked(s) + Ids(ks) ensures text in Locked(s') {
      if text in Ids(ks) {
        var k :| k in ks && k.id == text;
        assert k in s'.claims[n].keys;
      } else {
        var m, k :| m in s.claims && k in s.claims[m].keys && k.id == text;
        assert s'.claims[m] == s.claims[m];
      }
    }
  }

  lemma {:induction false} RacedKeeps(s: Sys, polls: seq<Poll>)
    requires Free(s, polls)
    ensures forall n | n in s.claims :: n in Raced(s, polls).claims && Raced(s, polls).claims[n] == s.claims[n]
    ensures forall p | p in polls :: p.n in Raced(s, polls).claims
    decreases |polls|
  {
    hide SelectForUpdate;
    if polls != [] {
      var s1 := Do(s, Lock(polls[0].n, polls[0].limit, polls[0].now));
      assert forall i | 0 <= i < |polls[1..]| :: polls[1..][i] == polls[i + 1];
      RacedKeeps(s1, polls[1..]);
      assert polls == [polls[0]] + polls[1..];
    }
  }

  // One claim takes a head of the due list at any later clock, and a full one or
  // all that is due at any earlier clock.
  lemma FirstClaim(s: Sys, p: Poll, early: U64, late: U64)
    requires Enabled(s, Lock(p.n, p.limit, p.now)) && early <= p.now <= late
    ensures var s1 := Do(s, Lock(p.n, p.limit, p.now));
      var keys, m := s1.claims[p.n].keys, Min(p.limit, I64_MAX);
      && s1.rows == s.rows && Locked(s1) == Locked(s) + Ids(keys) && |keys| <= m
      && keys <= DueList(s.rows, Locked(s), ClampI64(late))
      && (|keys| == m || |keys| >= |DueList(s.rows, Locked(s), ClampI64(early))|)
      && (|keys| <= |DueList(s.rows, Locked(s), ClampI64(early))| ==> keys <= DueList(s.rows, Locked(s), ClampI64(early)))
  {
    hide Arrange, ClaimableKeys, Ids, Locked;
    EarlierIsPrefix(s.rows, Locked(s), ClampI64(p.now), ClampI64(late));
    EarlierIsPrefix(s.rows, Locked(s), ClampI64(early), ClampI64(p.now));
    LockedAfter(s, p.n, p.limit, p.now);
  }

  /** However many instances claim at once, each by its own clock, what they hold
      together, in the order they got there, is a head of the sorted due list at
      the latest clock: no overlap and no gap. They hold the sum of their limits
      unless all that was due at the earliest clock is taken; with one clock,
      they hold exactly what one instance with that sum would have got. */
  lemma {:induction false} RacingPollersPartitionTheDueSet(s: Sys, polls: seq<Poll>, early: U64, late: U64)
    requires Free(s, polls) && forall p | p in polls :: early <= p.now <= late
    ensures forall p | p in polls :: p.n in Raced(s, polls).claims
    ensures Held(Raced(s, polls), polls) <= DueList(s.rows, Locked(s), ClampI64(late))
    ensures Min(Total(polls), |DueList(s.rows, Locked(s), ClampI64(early))|) <= |Held(Raced(s, polls), polls)| <= Total(polls)
    decreases |polls|
  {
    hide DueList, Locked, Do, Enabled, Ids;
    RacedKeeps(s, polls);
    if polls != [] {
      var p, rest := polls[0], polls[1..];
      assert forall i | 0 <= i < |rest| :: rest[i] == polls[i + 1];
      FreeAfter(s, polls);
      var s1 := Do(s, Lock(p.n, p.limit, p.now));
      RacedKeeps(s1, rest);
      FirstClaim(s, p, early, late);
      RacingPollersPartitionTheDueSet(s1, rest, early, late);
      var keys, held := s1.claims[p.n].keys, Held(Raced(s1, rest), rest);
      assert Raced(s, polls) == Raced(s1, rest) && Held(Raced(s, polls), polls) == keys + held;
      TakeOver(s.rows, Locked(s), keys, held, late);
      if |keys| <= |DueList(s.rows, Locked(s), ClampI64(early))| {
        assert keys == DueList(s.rows, Locked(s), ClampI64(early))[..|keys|];
        RestIsClaimable(s.rows, Locked(s), |keys|, ClampI64(early));
      }
    }
  }

  lemma FreeAfter(s: Sys, polls: seq<Poll>)
    requires Free(s, polls) && polls != []
    ensures Enabled(s, Lock(polls[0].n, polls[0].limit, polls[0].now))
    ensures Free(Do(s, Lock(polls[0].n, polls[0].limit, polls[0].now)), polls[1..])
    ensures polls[0].n in Do(s, Lock(polls[0].n, polls[0].limit, polls[0].now)).claims
  {
    hide SelectForUpdate;
    assert forall i | 0 <= i < |polls[1..]| :: polls[1..][i] == polls[i + 1];
  }

  lemma TakeOver(t: Table, locked: set<Bytes>, keys: seq<Key>, held: seq<Key>, late: U64)
    requires keys <= DueList(t, locked, ClampI64(late))
    requires held <= DueList(t, locked + Ids(keys), ClampI64(late))
    ensures keys + held <= DueList(t, locked, ClampI64(late))
  {
    hide DueList, Ids;
    var all := DueList(t, locked, ClampI64(late));
    assert keys == all[..|keys|];
    RestIsClaimable(t, locked, |keys|, ClampI64(late));
    assert all == keys + all[|keys|..];
  }
}
