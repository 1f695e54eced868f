/** What every run of the Postgres cluster keeps, and what the missing status
    guard of `mark_failed` gives up. */
module PostgresSafety {
  import opened Base
  import opened Utf8
  import opened Truncation
  import opened Ordering
  import opened EventIds
  import opened Events
  import opened Codec
  import opened Rows
  import opened PostgresTables
  import opened PostgresCluster

  // --- the invariant ---------------------------------------------------------------------

  predicate SameContent(a: Envelope, b: Envelope) {
    a.topic == b.topic && a.payload == b.payload && a.headers == b.headers && a.createdAt == b.createdAt
  }

  ghost predicate Readable(text: Bytes, e: Envelope) {
    CanonicalText(text) && ColumnsInRange(e) && e.attempts <= I32_MAX && Decode(e.headers).Ok?
  }

  predicate StatusSound(row: Row) {
    && 0 <= row.nextAttemptAt <= I64_MAX
    && (row.status == Parked ==> row.nextAttemptAt == I64_MAX)
    && (row.status == Dispatched ==> row.dispatchedAt.Some?)
  }

  ghost predicate RowSound(s: Sys, text: Bytes, row: Row) {
    && Readable(text, row.envelope) && StatusSound(row)
    && (row.dispatchedAt.Some? ==> text in s.accepted)
    && text in s.appended && SameContent(row.envelope, s.appended[text])
  }

  ghost predicate Sound(s: Sys) {
    && (forall text | text in s.rows :: RowSound(s, text, s.rows[text]))
    && (forall text | text in s.appended :: text in s.rows || text in s.letters)
    && (forall n, t | n in s.batches && t in s.batches[n] && t.phase.Succeeded? :: Hyphenated(t.event.id) in s.accepted)
  }

  lemma AppendSound(s: Sys, event: OutboxEvent)
    requires Sound(s)
    ensures Sound(Do(s, Append(event)))
  {
    hide Hyphenated, Encode, Parse, Decode, ValidTopic, SameContent;
    if Inserts(s, event) {
      var s', text := Do(s, Append(event)), Hyphenated(event.id);
      InsertedRowSound(s', event);
      forall x | x in s'.rows ensures RowSound(s', x, s'.rows[x]) {
        assert x != text ==> RowSound(s, x, s.rows[x]);
      }
    }
  }

  lemma InsertedRowSound(s: Sys, event: OutboxEvent)
    requires Encode(event.headers).Ok?
    requires var text := Hyphenated(event.id);
      text in s.appended && s.appended[text] == AppendedRow(event, Encode(event.headers).value).envelope
    ensures RowSound(s, Hyphenated(event.id), AppendedRow(event, Encode(event.headers).value))
  {
    hide Hyphenated, Encode, Parse, Decode;
    ParseHyphenated(event.id);
    StoredRowHolds(event);
  }

  // Replacing one row by a sound one.
  lemma SoundPut(s: Sys, text: Bytes, row: Row)
    requires Sound(s) && text in s.rows && RowSound(s, text, row)
    ensures Sound(s.(rows := s.rows[text := row]))
  {
    hide Hyphenated, Readable, StatusSound, SameContent;
    var s' := s.(rows := s.rows[text := row]);
    forall x | x in s'.rows ensures RowSound(s', x, s'.rows[x]) {
      assert RowSound(s, x, s'.rows[x]);
    }
  }

  lemma FailedRowSound(s: Sys, text: Bytes, row: Row, diagnostic: Bytes, at: U64)
    requires RowSound(s, text, row) && row.envelope.attempts < I32_MAX
    ensures RowSound(s, text, FailedRow(row, diagnostic, ClampI64(at)))
  {
    hide CanonicalText, Decode;
  }

  lemma FailureSound(s: Sys, id: EventId, error: Str, at: U64)
    requires Sound(s)
    ensures Sound(s.(rows := RowsAfterFailure(s.rows, id, error, at)))
  {
    hide Hyphenated, RowSound, Sound, Truncated, FailedRow;
    var text := Hyphenated(id);
    if text in s.rows && s.rows[text].envelope.attempts < I32_MAX {
      RowOf(s, text);
      FailedRowSound(s, text, s.rows[text], Truncated(error, MAX_ERROR_BYTES), at);
      SoundPut(s, text, FailedRow(s.rows[text], Truncated(error, MAX_ERROR_BYTES), ClampI64(at)));
    }
  }

  lemma MarkSound(s: Sys, task: Task, clock: U64, error: Str)
    requires Sound(s) && (task.phase.Succeeded? || task.phase.Failed?)
    requires task.phase.Succeeded? ==> Hyphenated(task.event.id) in s.accepted
    ensures Sound(s.(rows := RowsAfterMark(s.rows, task, clock, error)))
  {
    hide Hyphenated, Readable, SameContent, RowsAfterFailure, Sound;
    match task.phase
    case Failed(at) => FailureSound(s, task.event.id, error, at);
    case Succeeded =>
      var text := Hyphenated(task.event.id);
      if text in s.rows && s.rows[text].status != Dispatched {
        RowOf(s, text);
        SoundPut(s, text, s.rows[text].(status := Dispatched, dispatchedAt := Some(ClampI64(clock))));
      }
  }

  lemma RowOf(s: Sys, text: Bytes)
    requires Sound(s) && text in s.rows
    ensures RowSound(s, text, s.rows[text])
  {}

  // A task moves on: the rows do not change.
  lemma MovedSound(s: Sys, n: nat, i: nat, phase: Phase)
    requires Sound(s) && n in s.batches && i < |s.batches[n]|
    requires phase.Succeeded? ==> Hyphenated(s.batches[n][i].event.id) in s.accepted
    ensures Sound(Moved(s, n, i, phase))
  {
    hide Hyphenated, Readable, StatusSound, SameContent;
    var s' := Moved(s, n, i, phase);
    forall x | x in s'.rows ensures RowSound(s', x, s'.rows[x]) {
      assert RowSound(s, x, s.rows[x]);
    }
    forall m, t | m in s'.batches && t in s'.batches[m] && t.phase.Succeeded? ensures Hyphenated(t.event.id) in s'.accepted {
      if m == n {
        var j :| 0 <= j < |s'.batches[n]| && s'.batches[n][j] == t;
        assert s.batches[n][j] in s.batches[n];
      }
    }
  }

  // Soundness reads neither the claims nor tasks that have not succeeded.
  lemma SameSound(a: Sys, b: Sys)
    requires Sound(a)
    requires a.rows == b.rows && a.appended == b.appended && a.accepted <= b.accepted
    requires forall text | text in a.letters :: text in b.letters
    requires forall n, t | n in b.batches && t in b.batches[n] && t.phase.Succeeded? ::
      n in a.batches && t in a.batches[n]
    ensures Sound(b)
  {
    hide Hyphenated, Readable, StatusSound, SameContent;
    forall x | x in b.rows ensures RowSound(b, x, b.rows[x]) {
      assert RowSound(a, x, a.rows[x]);
    }
  }

  lemma DeadLetterSound(s: Sys, event: OutboxEvent, reason: Str, clock: U64)
    requires Sound(s) && Enabled(s, DeadLetter(event, reason, clock))
    ensures Sound(Do(s, DeadLetter(event, reason, clock)))
  {
    hide Hyphenated, Readable, StatusSound, SameContent, Encode, ValidTopic, Locked, EnvelopeOf;
    var s' := Do(s, DeadLetter(event, reason, clock));
    forall x | x in s'.rows ensures RowSound(s', x, s'.rows[x]) {
      assert RowSound(s, x, s.rows[x]);
    }
  }

  lemma CommitSound(s: Sys, n: nat)
    requires Sound(s) && n in s.claims
    ensures Sound(Do(s, Commit(n)))
  {
    hide Hyphenated, DecodeRows, RowSound;
    var s' := Do(s, Commit(n));
    SameSound(s, s');
  }

  lemma SoundStep(s: Sys, step: Step)
    requires Sound(s) && Enabled(s, step)
    ensures Sound(Do(s, step))
  {
    match step
    case Append(event) => AppendSound(s, event);
    case Commit(n) => CommitSound(s, n);
    case Mark(n, i, recorded, clock, error) => RecordingSound(s, step);
    case Reschedule(id, at, error) => FailureSound(s, id, error, at);
    case DeadLetter(event, reason, clock) => DeadLetterSound(s, event, reason, clock);
    case _ => QuietSound(s, step);
  }

  lemma RecordingSound(s: Sys, step: Step)
    requires Sound(s) && Enabled(s, step) && step.Mark?
    ensures Sound(Do(s, step))
  {
    hide RowSound, RowsAfterMark, Hyphenated, Locked;
    var task := s.batches[step.n][step.i];
    assert task in s.batches[step.n];
    MovedSound(s, step.n, step.i, Finished);
    if step.recorded {
      MarkSound(Moved(s, step.n, step.i, Finished), task, step.clock, step.error);
    }
  }

  lemma QuietSound(s: Sys, step: Step)
    requires Sound(s) && Enabled(s, step)
    requires step.Lock? || step.Abort? || step.Accept? || step.Refuse? || step.Pause? || step.Join? || step.Crash?
    ensures Sound(Do(s, step))
  {
    hide RowSound, Hyphenated, SelectForUpdate, Sound, Locked;
    if step.Accept? {
      var accepted := s.(accepted := s.accepted + {Hyphenated(s.batches[step.n][step.i].event.id)});
      SameSoundBatches(s, accepted);
      MovedSound(accepted, step.n, step.i, Succeeded);
    } else if step.Refuse? {
      MovedSound(s, step.n, step.i, Failed(step.retryAt));
    } else if step.Pause? {
      MovedSound(s, step.n, step.i, Finished);
    } else {
      SameSoundBatches(s, Do(s, step));
    }
  }

  lemma SameSoundBatches(a: Sys, b: Sys)
    requires Sound(a) && a.rows == b.rows && a.appended == b.appended && a.letters == b.letters && a.accepted <= b.accepted
    requires forall n | n in b.batches :: n in a.batches && b.batches[n] == a.batches[n]
    ensures Sound(b)
  {
    hide RowSound, Hyphenated;
    SameSound(a, b);
  }

  lemma {:induction false} SoundRun(steps: seq<Step>)
    requires Legal(steps)
    ensures Sound(Reached(steps))
    decreases |steps|
  {
    hide Do, Enabled, RowSound, Hyphenated;
    if steps != [] {
      SoundRun(steps[..|steps| - 1]);
      SoundStep(Reached(steps[..|steps| - 1]), steps[|steps| - 1]);
    }
  }

  // --- what a commit hands over -------------------------------------------------------------

  lemma ReadableDecodes(text: Bytes, e: Envelope)
    requires Readable(text, e)
    ensures DecodeRow(text, e).Ok? && Hyphenated(DecodeRow(text, e).value.id) == text
  {
    hide Hyphenated, Parse, Decode;
  }

  /** In every run, a commit hands its instance exactly the locked rows as they
      stand: each still pending and due, each decoded, in key order. No fetch
      fails to decode. */
  lemma CommitDeliversCurrentRows(steps: seq<Step>, n: nat)
    requires Legal(steps) && n in Reached(steps).claims
    ensures var s := Reached(steps);
      var c, s' := s.claims[n], Do(s, Commit(n));
      && n in s'.batches && |s'.batches[n]| == |c.keys| <= c.limit
      && forall i | 0 <= i < |c.keys| ::
           var text, event := c.keys[i].id, s'.batches[n][i].event;
           && Hyphenated(event.id) == text && text in s.rows
           && s.rows[text].status == Pending && s.rows[text].nextAttemptAt <= c.now
           && DecodeRow(text, s.rows[text].envelope) == Ok(event)
    ensures forall i, j | 0 <= i < j < |Do(Reached(steps), Commit(n)).batches[n]| ::
      ComesFirst(Reached(steps).rows, Do(Reached(steps), Commit(n)).batches[n][i].event.id,
                 Do(Reached(steps), Commit(n)).batches[n][j].event.id)
  {
    hide Hyphenated, DecodeRow, Readable, StatusSound, SameContent;
    ClaimsAreDisjointAndCurrent(steps);
    SoundRun(steps);
    var s := Reached(steps);
    var c := s.claims[n];
    assert Current(s.rows, c);
    forall i | 0 <= i < |c.read|
      ensures DecodeRow(c.read[i].0, c.read[i].1).Ok? && Hyphenated(DecodeRow(c.read[i].0, c.read[i].1).value.id) == c.keys[i].id
    {
      assert RowSound(s, c.keys[i].id, s.rows[c.keys[i].id]);
      ReadableDecodes(c.keys[i].id, s.rows[c.keys[i].id].envelope);
    }
    DecodeRowsIsRowwise(c.read);
    var batch := Do(s, Commit(n)).batches[n];
    forall i, j | 0 <= i < j < |batch| ensures ComesFirst(s.rows, batch[i].event.id, batch[j].event.id) {
      assert KeyLess(c.keys[i], c.keys[j]);
      KeyComesFirst(s.rows, batch[i].event.id, batch[j].event.id);
    }
  }

  /** The row of the first id is due earlier, or at the same time under the smaller
      id. */
  ghost predicate ComesFirst(t: Table, a: EventId, b: EventId) {
    var x, y := Hyphenated(a), Hyphenated(b);
    && x in t && y in t
    && (t[x].nextAttemptAt < t[y].nextAttemptAt ||
        (t[x].nextAttemptAt == t[y].nextAttemptAt && exists k :: 0 <= k < 16 && a[..k] == b[..k] && a[k] < b[k]))
  }

  lemma KeyComesFirst(t: Table, a: EventId, b: EventId)
    requires Hyphenated(a) in t && Hyphenated(b) in t
    requires KeyLess(Key(t[Hyphenated(a)].nextAttemptAt, Hyphenated(a)), Key(t[Hyphenated(b)].nextAttemptAt, Hyphenated(b)))
    ensures ComesFirst(t, a, b)
  {
    hide Hyphenated;
    HyphenatedOrder(a, b);
    LexMeaningSameLength(a, b);
  }

  // --- parked goes with the ceiling stamp --------------------------------------------------

  ghost predicate StampsAgree(s: Sys) {
    forall text | text in s.rows && s.rows[text].status != Dispatched ::
      s.rows[text].status == Parked <==> s.rows[text].nextAttemptAt == I64_MAX
  }

  /** An append that inserts a row whose first stamp is already the ceiling. */
  predicate AppendsAtCeiling(s: Sys, step: Step) {
    step.Append? && Inserts(s, step.event) && step.event.createdAt >= I64_MAX
  }

  lemma StampsStep(s: Sys, step: Step)
    requires Sound(s) && StampsAgree(s) && Enabled(s, step)
    ensures StampsAgree(Do(s, step)) <==> !AppendsAtCeiling(s, step)
  {
    hide Hyphenated, Encode, Locked, SelectForUpdate, DecodeRows, ValidTopic, RowSound, EnvelopeOf;
    var s' := Do(s, step);
    if step.Append? && Inserts(s, step.event) {
      var text := Hyphenated(step.event.id);
      assert s'.rows[text] == AppendedRow(step.event, Encode(step.event.headers).value);
      assert forall x | x in s.rows :: s'.rows[x] == s.rows[x];
    }
  }

  ghost predicate AgreeThroughout(steps: seq<Step>)
    requires Legal(steps)
    decreases |steps|
  {
    StampsAgree(Reached(steps)) && (steps == [] || AgreeThroughout(steps[..|steps| - 1]))
  }

  ghost predicate AppendsBelowCeiling(steps: seq<Step>)
    requires Legal(steps)
    decreases |steps|
  {
    steps == [] ||
    (AppendsBelowCeiling(steps[..|steps| - 1]) &&
     !AppendsAtCeiling(Reached(steps[..|steps| - 1]), steps[|steps| - 1]))
  }

  /** Among undispatched rows `parked` goes exactly with the ceiling stamp, in
      every state of a run, if and only if no insert of the run had a creation
      time at or past the ceiling. */
  lemma {:induction false} ParkedIsCeilingExactlyWhen(steps: seq<Step>)
    requires Legal(steps)
    ensures AgreeThroughout(steps) <==> AppendsBelowCeiling(steps)
    decreases |steps|
  {
    hide Do, Enabled, Sound, StampsAgree, AppendsAtCeiling;
    if steps == [] {
      EmptyAgrees();
    } else {
      var before := steps[..|steps| - 1];
      ParkedIsCeilingExactlyWhen(before);
      SoundRun(before);
      if AgreeThroughout(before) {
        StampsStep(Reached(before), steps[|steps| - 1]);
      }
    }
  }

  lemma EmptyAgrees()
    ensures StampsAgree(INIT)
  {}

  /** The input on which it fails: appended at or past the ceiling, an event is
      pending at the stamp that means parked. */
  lemma CeilingAppendIsPendingAtCeiling(event: OutboxEvent)
    requires Letters(event) && event.createdAt >= I64_MAX
    ensures Legal([Append(event)])
    ensures var s, text := Reached([Append(event)]), Hyphenated(event.id);
      && text in s.rows && s.rows[text].status == Pending && s.rows[text].nextAttemptAt == I64_MAX
      && !StampsAgree(s)
  {
    hide Do, Hyphenated, Encode, ValidTopic, EnvelopeOf;
    var steps := [Append(event)];
    assert steps[..|steps| - 1] == [];
    assert Legal([]) && Reached([]) == INIT && Enabled(INIT, Append(event));
    assert Reached(steps) == Do(INIT, Append(event));
    FirstAppend(event);
  }

  // --- what a letter holds ----------------------------------------------------------------------

  predicate LettersRow(step: Step, text: Bytes) {
    step.DeadLetter? && Letters(step.event) && Hyphenated(step.event.id) == text
  }

  /** Step `k` letters this id, and no later step does. */
  ghost predicate LastLetter(steps: seq<Step>, k: nat, text: Bytes) {
    k < |steps| && LettersRow(steps[k], text) && forall n | k < n < |steps| :: !LettersRow(steps[n], text)
  }

  /** The letter records the event as handed over, the reason cut to 1024 bytes, and
      the clock's reading. */
  ghost predicate LetterHolds(row: LetterRow, step: Step) {
    && step.DeadLetter?
    && Holds(row.envelope, Stored(step.event))
    && row.envelope.topic == step.event.topic && row.envelope.payload == step.event.payload
    && Decode(row.envelope.headers) == Ok(step.event.headers)
    && row.envelope.lastError == step.event.lastError
    && row.envelope.createdAt == Min(step.event.createdAt, 0x7FFF_FFFF_FFFF_FFFF)
    && row.envelope.attempts == Min(step.event.attempts, 0x7FFF_FFFF)
    && row.reason == Truncated(step.reason, 1024)
    && row.deadLetteredAt == Min(step.clock, 0x7FFF_FFFF_FFFF_FFFF)
  }

  lemma LetterWritten(s: Sys, step: Step)
    requires Enabled(s, step) && step.DeadLetter? && Letters(step.event)
    ensures var text := Hyphenated(step.event.id);
      text in Do(s, step).letters && LetterHolds(Do(s, step).letters[text], step)
  {
    hide Hyphenated, Locked, Encode, Decode, Truncated, ValidTopic, Valid;
    StoredRowHolds(step.event);
    var e := EnvelopeOf(step.event, Encode(step.event.headers).value, ClampI32(step.event.attempts));
    assert e == AppendedRow(step.event, Encode(step.event.headers).value).envelope;
  }

  lemma OtherLettersStay(s: Sys, step: Step, text: Bytes)
    requires Enabled(s, step) && !LettersRow(step, text)
    ensures text in Do(s, step).letters <==> text in s.letters
    ensures text in s.letters ==> Do(s, step).letters[text] == s.letters[text]
  {
    hide Hyphenated, Encode, Locked, SelectForUpdate, DecodeRows, ValidTopic, EnvelopeOf, RowsAfterMark, RowsAfterFailure;
  }

  lemma LastLetterBefore(steps: seq<Step>, k: nat, text: Bytes)
    requires steps != [] && !LettersRow(steps[|steps| - 1], text)
    ensures LastLetter(steps, k, text) <==> LastLetter(steps[..|steps| - 1], k, text)
    ensures LastLetter(steps, k, text) ==> k < |steps| - 1
  {
    hide LettersRow;
    var before := steps[..|steps| - 1];
    assert forall n | 0 <= n < |before| :: before[n] == steps[n];
  }

  lemma LastIsLast(steps: seq<Step>, k: nat, text: Bytes)
    requires steps != [] && LettersRow(steps[|steps| - 1], text)
    ensures LastLetter(steps, k, text) <==> k == |steps| - 1
  {
    hide LettersRow;
  }

  /** In every run a letter stands under an id exactly if a dead-letter step of the run
      put it there, and it holds what the last such step was given. */
  lemma {:induction false} LettersAreExact(steps: seq<Step>, text: Bytes)
    requires Legal(steps)
    ensures text in Reached(steps).letters <==> exists k: nat :: LastLetter(steps, k, text)
    ensures forall k: nat | LastLetter(steps, k, text) ::
      text in Reached(steps).letters && k < |steps| && LetterHolds(Reached(steps).letters[text], steps[k])
    decreases |steps|
  {
    if steps == [] {
      assert Reached(steps) == INIT;
    } else {
      hide Do, Enabled, LettersRow, LetterHolds, LastLetter;
      var n := |steps| - 1;
      var before, step := steps[..n], steps[n];
      if LettersRow(step, text) {
        LetteredNow(Reached(before), step, text);
        LastIsLast(steps, n, text);
        forall k: nat | LastLetter(steps, k, text) ensures k == n {
          LastIsLast(steps, k, text);
        }
      } else {
        LettersAreExact(before, text);
        OtherLettersStay(Reached(before), step, text);
        forall k: nat ensures LastLetter(steps, k, text) <==> LastLetter(before, k, text) {
          LastLetterBefore(steps, k, text);
        }
      }
    }
  }

  lemma LetteredNow(s: Sys, step: Step, text: Bytes)
    requires Enabled(s, step) && LettersRow(step, text)
    ensures text in Do(s, step).letters && LetterHolds(Do(s, step).letters[text], step)
  {
    hide Do, Enabled, LetterHolds, Hyphenated;
    LetterWritten(s, step);
  }

  // --- nothing is lost ------------------------------------------------------------------------

  /** Every appended id is a row that keeps the content that was appended, or a letter
      that keeps what its last dead-letter step was handed; a dispatched row was
      accepted by a sender first. */
  lemma NothingIsLost(steps: seq<Step>, text: Bytes)
    requires Legal(steps)
    ensures var s := Reached(steps);
      && (text in s.appended ==> text in s.rows || text in s.letters)
      && (text in s.rows ==> text in s.appended && SameContent(s.rows[text].envelope, s.appended[text]))
      && (text in s.letters ==> exists k: nat :: LastLetter(steps, k, text) && k < |steps| && LetterHolds(s.letters[text], steps[k]))
      && (text in s.rows && s.rows[text].status == Dispatched ==> text in s.accepted)
  {
    hide Do, Enabled, Hyphenated, Readable, SameContent, LetterHolds, LastLetter;
    SoundRun(steps);
    LettersAreExact(steps, text);
    if text in Reached(steps).rows {
      RowOf(Reached(steps), text);
    }
  }

  lemma RowLeavesAsLetter(s: Sys, step: Step, text: Bytes)
    requires Enabled(s, step) && text in s.rows
    ensures text !in Do(s, step).rows <==> LettersRow(step, text)
  {
    hide Hyphenated, Encode, Locked, SelectForUpdate, DecodeRows, ValidTopic, EnvelopeOf;
  }

  lemma AppendedOnlyIfInserted(s: Sys, step: Step, text: Bytes)
    requires Enabled(s, step) && text in Do(s, step).appended && text !in s.appended
    ensures text in Do(s, step).rows
  {
    hide Hyphenated, Encode, Locked, SelectForUpdate, DecodeRows, ValidTopic, EnvelopeOf, RowsAfterMark, RowsAfterFailure;
  }

  /** The state before step `n` of a run. */
  ghost function StateAt(steps: seq<Step>, n: nat): Sys
    requires Legal(steps) && n <= |steps|
    decreases |steps|
  {
    if n == |steps| then Reached(steps) else StateAt(steps[..|steps| - 1], n)
  }

  /** Step `k` of the run moves the row to the letters, and the id has had no row
      since. */
  ghost predicate LeftAt(steps: seq<Step>, k: nat, text: Bytes)
    requires Legal(steps)
  {
    k < |steps| && text in StateAt(steps, k).rows && LettersRow(steps[k], text) &&
    forall n | k < n <= |steps| :: text !in StateAt(steps, n).rows
  }

  lemma StillLeft(steps: seq<Step>, k: nat, text: Bytes)
    requires Legal(steps) && steps != [] && text !in Reached(steps).rows
    requires LeftAt(steps[..|steps| - 1], k, text)
    ensures LeftAt(steps, k, text)
  {
    hide Do, Enabled, LettersRow;
    var before := steps[..|steps| - 1];
    forall n | k <= n <= |steps| && n < |steps| ensures StateAt(steps, n) == StateAt(before, n) {}
  }

  /** An appended id has no row only because a dead-letter step of the run took its
      row out of the table and recorded its letter, and nothing inserted it since. */
  lemma {:induction false} RowsLeaveOnlyAsLetters(steps: seq<Step>, text: Bytes)
    requires Legal(steps) && text in Reached(steps).appended && text !in Reached(steps).rows
    ensures text in Reached(steps).letters
    ensures exists k :: LeftAt(steps, k, text)
    decreases |steps|
  {
    hide Do, Enabled, Hyphenated, RowSound, LettersRow, LeftAt;
    SoundRun(steps);
    var n := |steps| - 1;
    var before, step := steps[..n], steps[n];
    var s := Reached(before);
    if text in s.rows {
      RowLeavesAsLetter(s, step, text);
      LeftInLastStep(steps, text);
    } else {
      if text !in s.appended {
        AppendedOnlyIfInserted(s, step, text);
      }
      RowsLeaveOnlyAsLetters(before, text);
      var k: nat :| LeftAt(before, k, text);
      StillLeft(steps, k, text);
    }
  }

  lemma LeftInLastStep(steps: seq<Step>, text: Bytes)
    requires Legal(steps) && steps != []
    requires text in Reached(steps[..|steps| - 1]).rows && text !in Reached(steps).rows
    requires LettersRow(steps[|steps| - 1], text)
    ensures LeftAt(steps, |steps| - 1, text)
  {
    hide Do, Enabled, LettersRow;
    assert StateAt(steps, |steps| - 1) == StateAt(steps[..|steps| - 1], |steps| - 1);
  }

  /** Step `k` of the run is the sender's Ok for this id, given to a task that was
      still waiting. */
  ghost predicate AcceptsAt(steps: seq<Step>, k: nat, text: Bytes)
    requires Legal(steps)
  {
    k < |steps| && steps[k].Accept? &&
    TaskAt(StateAt(steps, k), steps[k].n, steps[k].i, Waiting) &&
    Hyphenated(StateAt(steps, k).batches[steps[k].n][steps[k].i].event.id) == text
  }

  lemma AcceptAdds(s: Sys, step: Step, text: Bytes)
    requires Enabled(s, step) && text in Do(s, step).accepted && text !in s.accepted
    ensures step.Accept? && TaskAt(s, step.n, step.i, Waiting) && Hyphenated(s.batches[step.n][step.i].event.id) == text
  {
    hide Hyphenated, Encode, Locked, SelectForUpdate, DecodeRows, ValidTopic, EnvelopeOf, RowsAfterMark, RowsAfterFailure;
  }

  lemma {:induction false} AcceptedEarlier(steps: seq<Step>, text: Bytes)
    requires Legal(steps) && text in Reached(steps).accepted
    ensures exists k :: 0 <= k < |steps| && AcceptsAt(steps, k, text)
    decreases |steps|
  {
    hide Do, Enabled, Hyphenated;
    var n := |steps| - 1;
    var before := steps[..n];
    if text in Reached(before).accepted {
      AcceptedEarlier(before, text);
      var k :| 0 <= k < n && AcceptsAt(before, k, text);
      assert AcceptsAt(steps, k, text);
    } else {
      AcceptAdds(Reached(before), steps[n], text);
      assert StateAt(steps, n) == StateAt(before, n);
      assert AcceptsAt(steps, n, text);
    }
  }

  /** A row with a dispatch stamp, dispatched now or revived since, was answered
      Ok by some instance's sender in an earlier step of the run. */
  lemma DispatchedOnlyIfAccepted(steps: seq<Step>, text: Bytes)
    requires Legal(steps) && text in Reached(steps).rows
    requires Reached(steps).rows[text].status == Dispatched || Reached(steps).rows[text].dispatchedAt.Some?
    ensures exists k :: 0 <= k < |steps| && AcceptsAt(steps, k, text)
  {
    hide Do, Enabled, Hyphenated, Readable, SameContent;
    SoundRun(steps);
    RowOf(Reached(steps), text);
    AcceptedEarlier(steps, text);
  }

  // --- dispatched is not terminal ------------------------------------------------------------

  ghost predicate IsDispatched(s: Sys, text: Bytes) {
    text in s.rows && s.rows[text].status == Dispatched
  }

  /** The step dead-letters the row, or records a failure of its id while the
      attempts column has room. */
  predicate Undoes(s: Sys, step: Step, text: Bytes) {
    || LettersRow(step, text)
    || (text in s.rows && s.rows[text].envelope.attempts < I32_MAX &&
        match step
        case Mark(n, i, recorded, _, _) =>
          recorded && Settling(s, n, i) && s.batches[n][i].phase.Failed? && Hyphenated(s.batches[n][i].event.id) == text
        case Reschedule(id, _, _) => Hyphenated(id) == text
        case _ => false)
  }

  lemma UndoneByOneStep(s: Sys, step: Step, text: Bytes)
    requires Enabled(s, step) && IsDispatched(s, text)
    ensures IsDispatched(Do(s, step), text) <==> !Undoes(s, step, text)
  {
    hide Hyphenated, Encode, Locked, SelectForUpdate, DecodeRows, ValidTopic, EnvelopeOf;
  }

  ghost predicate StaysDispatched(steps: seq<Step>, m: nat, text: Bytes)
    requires Legal(steps)
  {
    forall n | m <= n <= |steps| :: IsDispatched(StateAt(steps, n), text)
  }

  ghost predicate NeverUndone(steps: seq<Step>, m: nat, text: Bytes)
    requires Legal(steps)
  {
    forall n | m <= n < |steps| :: !Undoes(StateAt(steps, n), steps[n], text)
  }

  lemma LastStep(steps: seq<Step>, m: nat, text: Bytes)
    requires Legal(steps) && m < |steps|
    ensures var before, s := steps[..|steps| - 1], StateAt(steps, |steps| - 1);
      && (StaysDispatched(steps, m, text) <==> StaysDispatched(before, m, text) && IsDispatched(Reached(steps), text))
      && (NeverUndone(steps, m, text) <==> NeverUndone(before, m, text) && !Undoes(s, steps[|steps| - 1], text))
  {
    hide Do, Enabled, Undoes, IsDispatched;
    var last := |steps| - 1;
    var before := steps[..last];
    assert forall n | m <= n <= last :: StateAt(steps, n) == StateAt(before, n);
    assert forall n | m <= n < last :: steps[n] == before[n];
    if StaysDispatched(steps, m, text) {
      assert IsDispatched(StateAt(steps, |steps|), text);
      forall n | m <= n <= last ensures IsDispatched(StateAt(before, n), text) {
        assert IsDispatched(StateAt(steps, n), text);
      }
    }
    if NeverUndone(steps, m, text) {
      forall n | m <= n < last ensures !Undoes(StateAt(before, n), before[n], text) {
        assert !Undoes(StateAt(steps, n), steps[n], text);
      }
    }
  }

  /** From any state of a run in which a row is dispatched, it is dispatched in
      every later state if and only if no later step dead-letters it or records a
      failure of it. */
  lemma {:induction false} DispatchedIsTerminalExactlyWhen(steps: seq<Step>, m: nat, text: Bytes)
    requires Legal(steps) && m <= |steps| && IsDispatched(StateAt(steps, m), text)
    ensures StaysDispatched(steps, m, text) <==> NeverUndone(steps, m, text)
    decreases |steps|
  {
    hide Do, Enabled, Undoes, IsDispatched;
    if m < |steps| {
      var last := |steps| - 1;
      var before := steps[..last];
      hide NeverUndone;
      LastStep(steps, m, text);
      DispatchedIsTerminalExactlyWhen(before, m, text);
      if StaysDispatched(before, m, text) {
        assert IsDispatched(StateAt(before, last), text);
        UndoneByOneStep(StateAt(before, last), steps[last], text);
      }
    }
  }

  lemma Extend(steps: seq<Step>, step: Step)
    requires Legal(steps) && Enabled(Reached(steps), step)
    ensures Legal(steps + [step]) && Reached(steps + [step]) == Do(Reached(steps), step)
  {
    hide Do, Enabled;
    assert (steps + [step])[..|steps + [step]| - 1] == steps;
  }

  lemma OnlyClaimable(text: Bytes, row: Row, now: U64)
    requires row.status == Pending && row.nextAttemptAt <= ClampI64(now)
    ensures ClaimableKeys(map[text := row], {}, ClampI64(now)) == {Key(row.nextAttemptAt, text)}
  {
    var t := map[text := row];
    assert forall x :: x in t <==> x == text;
    assert text in t && t[text] == row;
  }

  // One instance polls a table of one due row while nobody holds a claim.
  lemma PollOfOne(s: Sys, n: nat, now: U64, text: Bytes, row: Row, event: OutboxEvent)
    requires s.rows == map[text := row] && s.claims == map[] && n !in s.batches
    requires row.status == Pending && row.nextAttemptAt <= ClampI64(now) && DecodeRow(text, row.envelope) == Ok(event)
    ensures Enabled(s, Lock(n, 1, now))
    ensures Do(Do(s, Lock(n, 1, now)), Commit(n)) == s.(batches := s.batches[n := [Task(event, Waiting)]])
  {
    hide DecodeRow, SelectForUpdate, Sorted;
    var able := ClaimableKeys(s.rows, {}, ClampI64(now));
    OnlyClaimable(text, row, now);
    assert Locked(s) == {};
    SelectionMeaning(s.rows, {}, 1, now);
    var ks := SelectForUpdate(s.rows, {}, 1, now);
    assert |able| == 1 && ks[0] in ks;
    var read := RowsAt(s.rows, ks);
    assert read == [(text, row.envelope)];
    DecodeRowsIsRowwise(read);
    assert DecodeRow(read[0].0, read[0].1) == Ok(event);
    assert DecodeRows(read).value == [event];
    assert Spawn([event]) == [Task(event, Waiting)];
    var s1 := Do(s, Lock(n, 1, now));
    assert s1.claims - {n} == map[];
  }

  lemma PolledRun(steps: seq<Step>, n: nat, now: U64, text: Bytes, row: Row, event: OutboxEvent) returns (longer: seq<Step>)
    requires Legal(steps)
    requires var s := Reached(steps);
      s.rows == map[text := row] && s.claims == map[] && n !in s.batches
    requires row.status == Pending && row.nextAttemptAt <= ClampI64(now) && DecodeRow(text, row.envelope) == Ok(event)
    ensures Legal(longer)
    ensures Reached(longer) == Reached(steps).(batches := Reached(steps).batches[n := [Task(event, Waiting)]])
  {
    hide Do, DecodeRow;
    var s := Reached(steps);
    PollOfOne(s, n, now, text, row, event);
    Extend(steps, Lock(n, 1, now));
    LockOpens(s, n, 1, now);
    Extend(steps + [Lock(n, 1, now)], Commit(n));
    longer := steps + [Lock(n, 1, now)] + [Commit(n)];
  }

  lemma LockOpens(s: Sys, n: nat, limit: nat, now: U64)
    requires Enabled(s, Lock(n, limit, now))
    ensures n in Do(s, Lock(n, limit, now)).claims
  {
    hide SelectForUpdate;
  }

  // An instance holding one waiting task settles it with an answer and a mark.
  lemma SettledRun(steps: seq<Step>, n: nat, answer: Step, clock: U64, error: Str) returns (longer: seq<Step>)
    requires Legal(steps)
    requires var s := Reached(steps);
      s.claims == map[] && n in s.batches && |s.batches[n]| == 1 && s.batches[n][0].phase == Waiting
    requires answer == Accept(n, 0) || (answer.Refuse? && answer.n == n && answer.i == 0)
    ensures Legal(longer) && |longer| == |steps| + 2 && longer[..|steps|] == steps
    ensures var s, s' := Reached(steps), Reached(longer);
      var task := s.batches[n][0].(phase := if answer.Accept? then Succeeded else Failed(answer.retryAt));
      && s'.rows == RowsAfterMark(s.rows, task, clock, error)
      && s'.claims == map[]
      && s'.batches == s.batches[n := [s.batches[n][0].(phase := Finished)]]
      && s'.accepted == if answer.Accept? then s.accepted + {Hyphenated(task.event.id)} else s.accepted
  {
    hide Hyphenated, RowsAfterMark;
    var s := Reached(steps);
    Extend(steps, answer);
    var s1 := Do(s, answer);
    assert Locked(s1) == {};
    var mark := Mark(n, 0, true, clock, error);
    Extend(steps + [answer], mark);
    longer := steps + [answer] + [mark];
    assert Do(s1, mark).batches[n] == [s.batches[n][0].(phase := Finished)];
  }

  lemma FirstAppend(event: OutboxEvent)
    requires Letters(event)
    ensures var text, row := Hyphenated(event.id), AppendedRow(event, Encode(event.headers).value);
      Do(INIT, Append(event)) == INIT.(rows := map[text := row], appended := map[text := row.envelope])
  {
    hide Hyphenated, Encode, ValidTopic, AppendedRow;
  }

  // Two instances have polled the one event of the table, each after the other's commit.
  lemma PolledTwice(event: OutboxEvent, now: U64) returns (steps: seq<Step>)
    requires Letters(event) && event.createdAt <= now < I64_MAX
    ensures Legal(steps) && steps != []
    ensures var task := Task(Stored(event), Waiting);
      var row := AppendedRow(event, Encode(event.headers).value);
      && Reached(steps).rows == map[Hyphenated(event.id) := row] && Reached(steps).claims == map[]
      && Reached(steps).batches == map[1 := [task], 2 := [task]]
  {
    hide Hyphenated, DecodeRow, Encode, ValidTopic, EnvelopeOf, Do, Truncated;
    var text := Hyphenated(event.id);
    var row := AppendedRow(event, Encode(event.headers).value);
    StoredRowHolds(event);
    HeldRowDecodes(event.id, row.envelope, Stored(event));
    Extend([], Append(event));
    assert [] + [Append(event)] == [Append(event)];
    FirstAppend(event);
    var first := PolledRun([Append(event)], 1, now, text, row, Stored(event));
    steps := PolledRun(first, 2, now, text, row, Stored(event));
    assert Reached([]) == INIT;
  }

  // A dispatched mark, then a failure's.
  lemma MarkedTwice(t: Table, id: EventId, delivered: Task, failed: Task, clock: U64, error: Str)
    requires Hyphenated(id) in t && t[Hyphenated(id)].status == Pending && t[Hyphenated(id)].envelope.attempts < I32_MAX
    requires delivered.event.id == id && delivered.phase == Succeeded && failed.event.id == id && failed.phase.Failed?
    requires failed.phase.retryAt < I64_MAX
    ensures var text, t1 := Hyphenated(id), RowsAfterMark(t, delivered, clock, []);
      var t2 := RowsAfterMark(t1, failed, clock, error);
      && text in t1 && t1[text].status == Dispatched
      && text in t2 && t2[text].status == Pending && t2[text].nextAttemptAt == failed.phase.retryAt
      && t2[text].dispatchedAt.Some?
  {
    hide Hyphenated, Truncated;
  }

  /** The store's promise that dispatched is terminal fails for every event:
      two instances poll it one after the other, the second delivers it and
      marks it dispatched, and the first one's late failure makes the row
      pending again, due at the retry stamp, its dispatch stamp still set. */
  lemma LateFailureRevivesDispatched(event: OutboxEvent, now: U64, at: U64, clock: U64, error: Str)
    returns (steps: seq<Step>)
    requires Letters(event) && event.attempts < I32_MAX && event.createdAt <= now < I64_MAX && at < I64_MAX
    ensures Legal(steps) && |steps| > 2 && Legal(steps[..|steps| - 2])
    ensures var text := Hyphenated(event.id);
      var before, after := Reached(steps[..|steps| - 2]), Reached(steps);
      && text in before.rows && before.rows[text].status == Dispatched && text in before.accepted
      && text in after.rows && after.rows[text].status == Pending && after.rows[text].nextAttemptAt == at
      && after.rows[text].dispatchedAt.Some?
  {
    hide Hyphenated, Encode, ValidTopic, Do, Legal, Reached, RowsAfterMark, Truncated;
    var polled := PolledTwice(event, now);
    var delivered := SettledRun(polled, 2, Accept(2, 0), clock, []);
    steps := SettledRun(delivered, 1, Refuse(1, 0, at), clock, error);
    assert steps[..|steps| - 2] == delivered;
    MarkedTwice(Reached(polled).rows, event.id, Task(Stored(event), Succeeded), Task(Stored(event), Failed(at)), clock, error);
  }
}
