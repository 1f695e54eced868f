/** The dispatch loop over SQLite's tables: the statements its steps issue keep the
    tables standing for the store of the step system. */
module DispatchOnSqlite {
  import opened Base
  import opened EventIds
  import opened Events
  import opened Codec
  import opened Rows
  import opened SqliteTables
  import opened Backoff
  import opened Polling
  import opened Dispatch
  import Outbox

  datatype Tables = Tables(rows: Table, letterRows: map<Bytes, LetterRow>)

  ghost predicate Stands(t: Tables, s: Sys) {
    Represents(t.rows, s.store) && forall id: EventId :: id in s.letters <==> Hyphenated(id) in t.letterRows
  }

  /** What a step takes from outside the system: the clock's reading and, for a
      dead letter, the reason. */
  datatype Input = Input(clock: U64, reason: Bytes)

  function RowsAfterMark(rows: Table, t: Task, clock: U64, diagnostic: Bytes): Table
    requires t.phase.Succeeded? || t.phase.Failed?
  {
    match t.phase
    case Succeeded => SetDispatched(rows, Hyphenated(t.event.id), ClampI64(clock))
    case Failed(at, _) => SetFailed(rows, Hyphenated(t.event.id), diagnostic, ClampI64(at))
  }

  /** The statements a step issues. */
  function Issue(c: Config, s: Sys, t: Tables, step: Step, input: Input): Tables
    requires Enabled(c, s, step)
  {
    match step
    case Append(event) =>
      if !ValidTopic(event.topic) || Encode(event.headers).Err? then t
      else t.(rows := InsertOrIgnore(t.rows, Hyphenated(event.id), AppendedRow(event, Encode(event.headers).value)))
    case Mark(i, recorded, diagnostic) =>
      if recorded then t.(rows := RowsAfterMark(t.rows, s.tasks[i], input.clock, diagnostic)) else t
    case Reschedule(id, at, diagnostic) =>
      t.(rows := SetFailed(t.rows, Hyphenated(id), diagnostic, ClampI64(at)))
    case DeadLetter(event, completes) =>
      if !ValidTopic(event.topic) || Encode(event.headers).Err? then t
      else
        var e := EnvelopeOf(event, Encode(event.headers).value, ClampI64(event.attempts));
        Tables(if completes then t.rows - {Hyphenated(event.id)} else t.rows,
               t.letterRows[Hyphenated(event.id) := LetterRow(e, input.reason, ClampI64(input.clock))])
    case _ => t
  }

  predicate StampFits(at: U64) {
    at < I64_MAX || at == NEVER
  }

  /** Stamps fit the signed column or park, headers encode, limits fit a LIMIT. */
  predicate Admissible(s: Sys, step: Step) {
    match step
    case Append(event) =>
      ValidTopic(event.topic) ==> Encode(event.headers).Ok? && (event.id in s.store || event.createdAt < I64_MAX)
    case Tick(_, _) => s.poller.size <= I64_MAX
    case Mark(i, recorded, _) => recorded && i < |s.tasks| && s.tasks[i].phase.Failed? ==> StampFits(s.tasks[i].phase.retryAt)
    case Reschedule(_, at, _) => StampFits(at)
    case DeadLetter(event, _) => ValidTopic(event.topic) ==> Encode(event.headers).Ok?
    case _ => true
  }

  lemma AppendStands(c: Config, s: Sys, t: Tables, event: OutboxEvent, input: Input)
    requires Stands(t, s) && Admissible(s, Append(event))
    ensures Stands(Issue(c, s, t, Append(event), input), Do(c, s, Append(event)))
  {
    hide Represents, Hyphenated, Encode, AppendedRow, InsertOrIgnore, ValidTopic;
    if ValidTopic(event.topic) {
      AppendRefines(t.rows, s.store, event);
      assert DurableAppend(s.store, event) == Outbox.Append(s.store, event);
    }
  }

  lemma FailureStands(rows: Table, s: Outbox.Store, id: EventId, diagnostic: Bytes, at: U64)
    requires Represents(rows, s) && StampFits(at)
    ensures Represents(SetFailed(rows, Hyphenated(id), diagnostic, ClampI64(at)), Outbox.MarkFailed(s, id, diagnostic, at))
  {
    hide Represents, Hyphenated, SetFailed, Outbox.MarkFailed;
    MarkFailedRefines(rows, s, id, diagnostic, at);
  }

  lemma MarkStands(c: Config, s: Sys, t: Tables, i: nat, recorded: bool, diagnostic: Bytes, input: Input)
    requires Stands(t, s) && Enabled(c, s, Mark(i, recorded, diagnostic)) && Admissible(s, Mark(i, recorded, diagnostic))
    ensures Stands(Issue(c, s, t, Mark(i, recorded, diagnostic), input), Do(c, s, Mark(i, recorded, diagnostic)))
  {
    hide Represents, Hyphenated, SetFailed, SetDispatched, Outbox.MarkFailed, Outbox.MarkDispatched, Waited;
    var task := s.tasks[i];
    if recorded {
      match task.phase
      case Succeeded => MarkDispatchedRefines(t.rows, s.store, task.event.id, ClampI64(input.clock));
      case Failed(at, _) => FailureStands(t.rows, s.store, task.event.id, diagnostic, at);
    }
  }

  lemma DeadLetterStands(c: Config, s: Sys, t: Tables, event: OutboxEvent, completes: bool, input: Input)
    requires Stands(t, s) && Admissible(s, DeadLetter(event, completes))
    ensures Stands(Issue(c, s, t, DeadLetter(event, completes), input), Do(c, s, DeadLetter(event, completes)))
  {
    hide Represents, Hyphenated, Encode, EnvelopeOf, ValidTopic;
    if ValidTopic(event.topic) {
      DeleteRepresents(t.rows, s.store, event.id);
      forall id: EventId ensures Hyphenated(id) == Hyphenated(event.id) ==> id == event.id {
        HyphenatedOrder(id, event.id);
      }
    }
  }

  lemma QuietStands(c: Config, s: Sys, t: Tables, step: Step, input: Input)
    requires Stands(t, s) && Enabled(c, s, step)
    requires !step.Append? && !step.Mark? && !step.Reschedule? && !step.DeadLetter?
    ensures Stands(Issue(c, s, t, step, input), Do(c, s, step))
  {
    hide Represents, Hyphenated, RetryAt, ExponentialDelay, Outbox.FetchDue, Polling.Tick, Awaiting, Spawn;
  }

  /** Every admissible step of the system, appends, lost and recorded marks,
      operator steps, half-done dead letters and crashes included, keeps the
      tables standing for its store and its letters. */
  lemma StepStands(c: Config, s: Sys, t: Tables, step: Step, input: Input)
    requires Stands(t, s) && Enabled(c, s, step) && Admissible(s, step)
    ensures Stands(Issue(c, s, t, step, input), Do(c, s, step))
  {
    hide Stands, Do, Issue, Admissible;
    match step
    case Append(event) => AppendStands(c, s, t, event, input);
    case Mark(i, recorded, diagnostic) => MarkStands(c, s, t, i, recorded, diagnostic, input);
    case Reschedule(id, at, diagnostic) => RescheduleStands(c, s, t, step, input);
    case DeadLetter(event, completes) => DeadLetterStands(c, s, t, event, completes, input);
    case _ => QuietStands(c, s, t, step, input);
  }

  lemma RescheduleStands(c: Config, s: Sys, t: Tables, step: Step, input: Input)
    requires Stands(t, s) && step.Reschedule? && Admissible(s, step)
    ensures Stands(Issue(c, s, t, step, input), Do(c, s, step))
  {
    hide Represents, Hyphenated, SetFailed, Outbox.MarkFailed;
    FailureStands(t.rows, s.store, step.id, step.diagnostic, step.at);
  }

  /** The batch a tick spawns is the decoded answer of the due query. */
  lemma TickReadsTables(c: Config, s: Sys, t: Tables, now: U64)
    requires Stands(t, s) && s.mode == Idle && Fetches(c.batch, s.poller) && Admissible(s, Tick(now, false))
    ensures DecodeRows(RowsAt(t.rows, SelectDue(t.rows, s.poller.size, now))).Ok?
    ensures Do(c, s, Tick(now, false)).tasks ==
            Spawn(DecodeRows(RowsAt(t.rows, SelectDue(t.rows, s.poller.size, now))).value)
  {
    hide Represents, SelectDue, DecodeRows, Outbox.FetchDue;
    SelectedRowsDecode(t.rows, s.store, s.poller.size, now);
  }

  // --- whole runs ------------------------------------------------------------------------------

  ghost predicate AllAdmissible(c: Config, steps: seq<Step>)
    requires Legal(c, steps)
    decreases |steps|
  {
    steps == [] ||
    (AllAdmissible(c, steps[..|steps| - 1]) && Admissible(Reached(c, steps[..|steps| - 1]), steps[|steps| - 1]))
  }

  /** The tables after the statements of a run. */
  ghost function Issued(c: Config, steps: seq<Step>, inputs: seq<Input>): Tables
    requires Legal(c, steps) && |inputs| == |steps|
    decreases |steps|
  {
    if steps == [] then Tables(map[], map[])
    else
      var n := |steps| - 1;
      Issue(c, Reached(c, steps[..n]), Issued(c, steps[..n], inputs[..n]), steps[n], inputs[n])
  }

  /** Whatever is proved of a run's store holds of the store SQLite's tables stand
      for: over every legal run of admissible steps, crashes and operator steps
      included, the tables stand for the state reached. */
  lemma {:induction false} RunStands(c: Config, steps: seq<Step>, inputs: seq<Input>)
    requires Legal(c, steps) && |inputs| == |steps| && AllAdmissible(c, steps)
    ensures Stands(Issued(c, steps, inputs), Reached(c, steps))
    decreases |steps|
  {
    hide Do, Enabled, Issue, Stands, Admissible;
    if steps == [] {
      EmptyStands(c);
    } else {
      var n := |steps| - 1;
      RunStands(c, steps[..n], inputs[..n]);
      StepStands(c, Reached(c, steps[..n]), Issued(c, steps[..n], inputs[..n]), steps[n], inputs[n]);
    }
  }

  lemma EmptyStands(c: Config)
    ensures Stands(Tables(map[], map[]), Init(c))
  {
    EmptyRepresents();
  }
}
