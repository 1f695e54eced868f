# outbox-kit: verified model

outbox-kit is a transactional outbox: producers append events to a store, a
dispatcher polls the store, sends each due event through a circuit breaker, and
records the outcome, rescheduling failures with jittered exponential backoff
until their budget is spent and they are parked. This project models its four
linked parts in Dafny and proves what they promise.

* **Values and arithmetic.** `Base`, `Utf8`, `Truncation`, `EventIds`, `Events`,
  `Codec`, `Backoff`, `Seeding`: UTF-8 boundary truncation, the hyphenated id
  text (section 4 of RFC 9562), the length-prefixed headers codec, the
  saturating backoff loop, the SplitMix64 seed mixer. Loops that the source
  writes as loops are methods proved against a specification function.
* **The store contract and its three stores.** `Outbox` states the contract as
  one map from id to entry. `MemoryStores` holds the in-memory store as a class
  with its map, ordered index and dispatched set. `Rows`, `SqliteTables`,
  `SqliteStores` and `Simulation` hold the SQLite store: statements over a table
  keyed by id text, a class over two tables, and the comparison with the memory
  store call by call and run by run. `PostgresTables` and `PostgresSimulation`
  do the same for the Postgres statements with their status column.
* **The dispatch loop.** `Polling` is the adaptive batch size and idle cadence;
  `Dispatch` is the loop as a step system (append, tick, permits, sends, breaker
  pauses, marks recorded or lost, join, shutdown, crash, restart, operator
  reschedule and dead-letter); `DispatchControl`, `DispatchSafety`,
  `DispatchBudget`, `DispatchDraining`, `DispatchProgress` and `Confluence` hold
  its theorems, and `DispatchOnSqlite` runs it over SQLite's tables.
* **Many instances on Postgres.** `PostgresCluster` is the claim protocol
  (`FOR UPDATE SKIP LOCKED`, commit, abort, crash) with sends, marks and dead
  letters of any number of instances; `PostgresSafety` is what its runs keep.

Bytes are a `newtype`; `U32` and `U64` are bounded integers with wrap-around and
saturation written out; the signed columns are integers with their clamps and
their overflow written out. A header map (`BTreeMap`) is the strictly ascending
sequence it iterates. The clock, the id hash, the drawn jitter, the breaker's
answer and the loss of a mark are inputs or free choices of a step.

Where the prose of the source and its code differ, the model follows the code:

* `src/store.rs:124` says marking an unknown id dispatched does nothing;
  `MemoryStore` remembers it and then swallows that id's append
  (`src/memory.rs:97-108`). `Simulation.UnknownMarkSwallowsAppend` shows it.
* `src/store.rs:82-85` says `mark_failed` increments attempts even for an unknown
  id; no store does.
* `src/backoff.rs:79-81` claims a non-decreasing schedule for every factor of at
  least 1. It holds exactly when the first step does not lose a fraction of a
  millisecond or saturate at 64 bits (`Backoff.MonotonicExactlyWhen`, `Backoff.FractionalBaseShrinks`).
* `src/backoff.rs:45-47` puts the default retry span at 1.7 hours; it is at most
  1623 seconds (`Backoff.DefaultSpan`).
* `src/postgres/schema.sql:15-16` calls `dispatched` terminal; the failure update
  has no status guard and a late failure undoes it
  (`PostgresSafety.LateFailureRevivesDispatched`,
  `PostgresSafety.DispatchedIsTerminalExactlyWhen`).
* On Postgres an event created at or past the end of signed 64-bit time is
  pending at the stamp that elsewhere means parked
  (`PostgresSafety.ParkedIsCeilingExactlyWhen`).

## Model

| member | source | states |
|---|---|---|
| Ordering.FirstKeys | src/sqlite/mod.rs:162-164 | ordering and limiting a set of keys gives a sorted, duplicate-free list of min(limit, count) of them, and every key left out comes after every key listed |
| Ordering.SortedUnique | src/memory.rs:35-36 | a set of (stamp, id) keys has exactly one sorted listing, so the ordered index is determined by its contents |
| Ordering.LexMeaning | src/memory.rs:35-36 | byte order written out: at the first difference the smaller text ends or has the smaller byte |
| EventIds.HyphenatedOrder | src/event.rs:47-91 | for all ids, text order of the hyphenated form is byte order, and equal texts mean equal ids |
| EventIds.ParseHyphenated | src/event.rs:70-91 | parsing the displayed form gives the id back |
| EventIds.HyphenatedForm | src/event.rs:86-91 | the stored text written out: hyphens at 8, 13, 18 and 23, lower-case digits elsewhere, each byte high digit first |
| EventIds.ParseExactly | src/event.rs:70-84 | of the hyphenated form, exactly the texts with hexadecimal digits of either case parse, each to the id whose text is its lower case |
| Utf8.BoundaryIsValidPrefix | src/store.rs:42 | in valid UTF-8 an index is a character boundary if and only if the prefix before it is valid UTF-8 |
| Utf8.BoundaryWithinFour | src/store.rs:42-44 | some boundary lies within three bytes below any index |
| Utf8.ValidExactlyEncodings | src/codec.rs:58-61 | the accepted texts are exactly the encodings of sequences of Unicode scalar values (section 3 of RFC 3629) |
| Truncation.TruncatedIsLongestValidPrefix | src/store.rs:37-46 | the truncated text is a valid prefix within the cap, and no longer valid prefix fits |
| Truncation.TruncatedStaysNearCap | src/store.rs:41-45 | an over-long text loses at most three bytes below the cap and never becomes empty |
| Truncation.TruncatedIdempotent | src/store.rs:37-46 | truncating twice is truncating once |
| Truncation.TruncateError | src/store.rs:37-46 | the decrementing loop computes the longest valid prefix within 1024 bytes |
| Truncation.TruncateReason | src/store.rs:17-26 | likewise for dead-letter reasons |
| Events.TopicsAccepted | src/event.rs:27-39 | a topic is accepted exactly if it has 1 to 128 bytes from the documented alphabet |
| Events.InsertIsUpdate | src/codec.rs:62 | inserting into the ordered header map is updating its content at that key |
| Events.HeadersUnique | src/event.rs:120-124 | two ordered header maps with the same content iterate identically |
| Codec.EncodeHeaders | src/codec.rs:14-28 | the nested loops emit the count and the length-prefixed entries, or fail on the first over-long part |
| Codec.DecodeHeaders | src/codec.rs:52-65 | the cursor loop computes the decoding function, failing at the same entry with the same error |
| Codec.Cursor.NextU32 | src/codec.rs:31-39 | a read takes four little-endian bytes off the cursor or fails leaving it in place |
| Codec.Cursor.NextBlob | src/codec.rs:42-49 | a read takes the prefix and the bytes it announces, or fails |
| Codec.RoundTrip | src/codec.rs:14-65 | for every encodable map and any trailing bytes, decoding what was encoded gives the map back |
| Codec.StoredLayout | src/codec.rs:12-28 | the bytes written out: count, then per entry in key order key length, key, value length, value, numbers least significant byte first, and nothing else |
| Codec.EncodableExactlyWhen | src/codec.rs:14-22 | encoding fails exactly on a count, key or value past 32 bits, with the error for each |
| Codec.BadTextRefused | src/codec.rs:56-62 | a key that is not UTF-8 is refused before such a value, each with its error |
| Codec.EncodingDeterminedByContent | src/codec.rs:1-6 | two encodable maps have equal content if and only if they have equal bytes |
| Codec.StrictPrefixRejected | src/codec.rs:31-65 | every strict prefix of an encoded map is rejected |
| Codec.CompletedBoundedByLength | src/codec.rs:53-63 | whatever count is claimed, at most (length - 4) / 8 entries complete |
| Codec.CanonicalBlobs | src/codec.rs:14-65 | re-encoding accepted bytes reproduces them if and only if their keys were strictly increasing and nothing was left over |
| Codec.LastDuplicateWins | src/codec.rs:55-63 | for any accepted bytes the result's content is that of the stored entries, the last of equal keys winning |
| Outbox.FetchReturnsDueInOrder | src/store.rs:115-122 | a fetch returns live, due, unparked events exactly as stored, no id twice, at most limit, and of any two the first has the earlier stamp or the smaller byte where the ids first differ |
| Outbox.FetchIsComplete | src/store.rs:115-122 | a fetch returns min(limit, due) events and every due event left out is later, or at the same time has the larger byte where the ids first differ |
| Outbox.FailureComesBack | src/memory.rs:110-126 | a failed event is fetched again at its retry time with one attempt more, the diagnostic as last error, and all else as it was |
| MemoryStores.MemoryStore.constructor | src/memory.rs:44-46 | a new store is empty and its index agrees with its map |
| MemoryStores.MemoryStore.Len | src/memory.rs:51-54 | the row count is the number of ids the store knows |
| MemoryStores.MemoryStore.Append | src/memory.rs:70-84 | the reply and the new entries are those of the contract; known ids, parked or dispatched, are ignored; the index follows the map |
| MemoryStores.MemoryStore.FetchDue | src/memory.rs:86-95 | the filtered, limited index scan returns exactly the contract's fetch, so the map lookup drops nothing |
| MemoryStores.MemoryStore.MarkDispatched | src/memory.rs:97-108 | the id becomes dispatched, known or not, and nothing else changes; map, index and dispatched set stay in agreement |
| MemoryStores.MemoryStore.MarkFailed | src/memory.rs:110-126 | a live event gains one attempt (saturating), the error cut to 1024 bytes and the new stamp, in map and index alike; dispatched, unknown and other ids do not change |
| MemoryStores.MemoryStore.PendingCount | src/memory.rs:128-132 | counts the live events not parked |
| MemoryStores.MemoryStore.ParkedCount | src/memory.rs:134-138 | counts the parked events |
| MemoryStores.SameViewSameFields | src/memory.rs:31-39 | the contract state determines map, index and dispatched set |
| MemoryStores.CountsCoverLive | src/memory.rs:128-138 | pending plus parked is the number of live events, each indexed once |
| MemoryStores.FirstSelected | src/memory.rs:88-94 | scanning the sorted index until the limit is reached takes the first due keys |
| Rows.DecodeEach | src/sqlite/mod.rs:185-201 | the row loop returns the decoded batch, or the error of the first row that fails |
| Rows.DecodeRowsIsRowwise | src/sqlite/mod.rs:185-201 | a result decodes if and only if each row does, and then row by row |
| Rows.ArrangeByText | src/sqlite/mod.rs:163 | sorting rows by (stamp, id text) lists them in the memory store's (stamp, id bytes) order |
| Rows.WrittenRowHolds | src/sqlite/mod.rs:139-147 | the clamped, encoded columns of an event stand for that event |
| Rows.DecodedColumns | src/sqlite/mod.rs:187-199 | what each column reads back as: a bad id or bad headers fail the row, the id first, and numbers out of range become the maximum |
| SqliteTables.RepresentsUnique | src/sqlite/mod.rs:127-258 | a table stands for at most one store state |
| SqliteTables.AppendRefines | src/sqlite/mod.rs:127-152 | INSERT OR IGNORE with clamped columns keeps the table standing for the contract's append |
| SqliteTables.MarkDispatchedRefines | src/sqlite/mod.rs:204-214 | the guarded update refines the contract's mark, unknown ids included |
| SqliteTables.MarkFailedRefines | src/sqlite/mod.rs:216-232 | the unguarded update refines the contract's failure, dispatched rows staying dispatched |
| SqliteTables.SelectDueRefines | src/sqlite/mod.rs:157-166 | the due query selects the contract's keys in the contract's order |
| SqliteTables.SelectedRowsDecode | src/sqlite/mod.rs:154-202 | every selected row decodes and the batch is the contract's fetch |
| SqliteTables.CountsRefine | src/sqlite/mod.rs:234-258 | both COUNT queries give the contract's counts |
| SqliteStores.SqliteStore.Append | src/sqlite/mod.rs:127-152 | reply and new table are those of the durable append, the new row written out column by column; the letters do not change |
| SqliteStores.SqliteStore.FetchDue | src/sqlite/mod.rs:154-202 | never fails on a valid store and returns the contract's fetch |
| SqliteStores.SqliteStore.MarkDispatched | src/sqlite/mod.rs:204-214 | a present, unstamped row takes min(clock, 2^63-1) as its stamp and keeps every other column; every other row stays; the table then stands for the marked store |
| SqliteStores.SqliteStore.MarkFailed | src/sqlite/mod.rs:216-232 | a present row takes one attempt more, the error cut to 1024 bytes and the clamped stamp, and keeps every other column; the table then stands for the failed store |
| SqliteStores.SqliteStore.PendingCount | src/sqlite/mod.rs:234-245 | the contract's pending count |
| SqliteStores.SqliteStore.ParkedCount | src/sqlite/mod.rs:247-258 | the contract's parked count |
| SqliteStores.SqliteStore.DeadLetter | src/sqlite/mod.rs:260-307 | the letter, written out column by column, is recorded (latest wins) and then the row removed; stopped in between, both remain; an invalid event changes nothing |
| SqliteStores.SqliteStore.DeadLetters | src/sqlite/mod.rs:309-355 | min(limit, all) letters as recorded, with their reasons, in non-decreasing dead-letter time and by id bytes among equals; one left out comes after all listed |
| SqliteStores.LetterRowsDecode | src/sqlite/mod.rs:309-355 | every stored letter decodes to what was recorded |
| Simulation.StepAgrees | src/sqlite/mod.rs:127-258 | on one call SQLite keeps standing for the memory store's state and gives its reply if and only if the call is comparable |
| Simulation.SqliteSimulatesMemory | src/sqlite/mod.rs:127-258 | over every run of comparable calls both stores return the same batches, counts and errors |
| Simulation.UnknownMarkSwallowsAppend | src/memory.rs:97-108 | for every event: marked before it is appended, memory loses it, SQLite keeps it |
| DispatchOnSqlite.StepStands | src/sqlite/mod.rs:127-307 | the statements issued by any admissible step of the dispatch system, dead letters included, keep the tables standing for its store and letters |
| DispatchOnSqlite.TickReadsTables | src/sqlite/mod.rs:154-202 | the batch a tick spawns is the decoded answer of the due query |
| DispatchOnSqlite.RunStands | src/sqlite/mod.rs:127-307 | over every legal run of admissible steps the tables stand for the state reached |
| PostgresTables.RepresentsUnique | src/postgres/mod.rs:148-248 | a Postgres table stands for at most one store state |
| PostgresTables.AppendRefines | src/postgres/mod.rs:148-171 | ON CONFLICT DO NOTHING with clamped columns refines the append, the row pending whatever its stamp |
| PostgresTables.MarkDispatchedRefines | src/postgres/mod.rs:197-209 | the guarded status update refines the contract's mark |
| PostgresTables.MarkFailedRefines | src/postgres/mod.rs:211-233 | on an id not dispatched the status CASE and the new stamp refine the contract, and the statement fails exactly when the attempts column is full |
| PostgresTables.MarkFailedRefinesExactlyWhen | src/postgres/mod.rs:211-233 | the statement keeps the contract if and only if the id is not dispatched and its attempts column is not full |
| PostgresTables.SelectRefines | src/postgres/mod.rs:139-144 | with nothing locked the claim query selects the contract's keys in order |
| PostgresTables.SelectedRowsDecode | src/postgres/mod.rs:173-195 | with nothing locked the decoded batch is the contract's fetch |
| PostgresTables.CountsRefine | src/postgres/mod.rs:235-253 | both COUNT queries give the contract's counts |
| PostgresSimulation.StepAgrees | src/postgres/mod.rs:148-253 | with no rival, one call agrees with the memory store in state and reply if and only if it is comparable |
| PostgresSimulation.PostgresSimulatesMemory | src/postgres/mod.rs:148-253 | over every run of comparable calls one Postgres client gets the memory store's replies |
| PostgresCluster.ClaimTakesFirstUnlockedDue | src/postgres/mod.rs:139-144 | a claim locks min(limit, all) of the rows due, pending and locked by nobody, in order of stamp and then of id text at the first difference, and one left out comes after all locked |
| PostgresCluster.AppendWrites | src/postgres/mod.rs:148-171 | an append writes the clamped columns into a pending row, or nothing |
| PostgresCluster.MarkWrites | src/postgres/mod.rs:197-233 | a delivered mark writes status and clock into a row not yet dispatched, a failed one attempts, error, stamp and status into any row with room; all other rows and columns stay; a lost mark writes nothing |
| PostgresCluster.TasksMove | src/dispatch.rs:353-436 | answers, pauses, marks and joins move the one task or batch they name and nothing else |
| PostgresCluster.ClaimsEnd | src/postgres/mod.rs:185-188 | commit, abort and crash end the instance's claim and no other and write no row |
| PostgresCluster.LocksReleased | src/postgres/mod.rs:185-188 | what is locked after a claim ends is exactly what the other claims hold |
| PostgresCluster.ClaimsAreDisjointAndCurrent | src/postgres/mod.rs:48-53 | in every reachable state of any number of instances open claims are pairwise disjoint and each claimed row is still the due, pending row it read |
| PostgresCluster.RacingPollersPartitionTheDueSet | src/postgres/mod.rs:137-144 | what k instances claiming one after the other hold, each by its own clock, is a head of the sorted due list at the latest clock, without overlap or gap, as long as the sum of their limits or at least all that was due at the earliest clock |
| PostgresSafety.CommitDeliversCurrentRows | src/postgres/mod.rs:173-195 | in every run a commit hands over exactly the locked rows as they stand, still pending and due, in order of stamp and then of id bytes, and no row fails to decode |
| PostgresSafety.ParkedIsCeilingExactlyWhen | src/postgres/mod.rs:150-233 | among undispatched rows parked goes with the ceiling stamp throughout a run if and only if no insert had a creation time at or past the ceiling |
| PostgresSafety.CeilingAppendIsPendingAtCeiling | src/postgres/mod.rs:153-165 | the input on which it fails: any such event, appended to an empty table, is pending at the stamp that means parked |
| PostgresSafety.LettersAreExact | src/postgres/mod.rs:255-293 | in every run a letter stands under an id exactly if a dead-letter step put it there, and holds the event, reason and clock of the last such step |
| PostgresSafety.NothingIsLost | src/postgres/mod.rs:148-293 | in every run each appended id is a row that keeps the appended content or a letter that keeps what its step was handed |
| PostgresSafety.DispatchedOnlyIfAccepted | src/postgres/mod.rs:197-209 | in every run a row that carries a dispatch stamp, even one revived since, was answered Ok in an earlier step, to a task still waiting |
| PostgresSafety.RowsLeaveOnlyAsLetters | src/postgres/mod.rs:255-293 | in every run an appended id without a row had one that some dead-letter step took out, recording its letter, and has had none in any state since |
| PostgresSafety.DispatchedIsTerminalExactlyWhen | src/postgres/mod.rs:197-233 | from any state of a run a dispatched row stays dispatched to the end if and only if no later step dead-letters it or records a failure of it |
| PostgresSafety.LateFailureRevivesDispatched | src/postgres/mod.rs:219-224 | for every event a legal two-instance run makes its dispatched row pending again |
| Backoff.ComputeExponentialDelay | src/backoff.rs:83-108 | the loop with its early return computes the capped, truncating schedule |
| Backoff.CapHolds | src/backoff.rs:79-108 | the delay never exceeds the cap and stays there once it gets there |
| Backoff.NextDelay | src/backoff.rs:83-108 | for every factor, each delay from the one before: whole milliseconds times the factor, truncated, the cap once that reaches it or is not finite, 0 if negative, saturating at 2^64 |
| Backoff.MonotonicExactlyWhen | src/backoff.rs:79-81 | for a factor of at least 1 the schedule is non-decreasing if and only if the first step loses nothing to truncation or saturation |
| Backoff.FractionalBaseShrinks | src/backoff.rs:99-103 | a base of 1.5 ms with factor 1 shrinks to 1 ms |
| Backoff.ClosedForm | src/backoff.rs:75-77 | for an integer factor and whole milliseconds the loop is min(cap, base * factor^(attempt-1)), attempt 0 read as 1, at every attempt if and only if the cast to 64 bits never saturates below the cap |
| Backoff.CapRulesOutSaturation | src/backoff.rs:89-103 | a cap of at most 2^64 ms rules saturation out |
| Backoff.CastSticksBelowCap | src/backoff.rs:99-103 | a doubling schedule with a larger cap that sticks at 2^64 - 1 ms from the second attempt on |
| Backoff.SpanBounded | src/backoff.rs:43-47 | the bounds of the first n retries sum to at most n * cap |
| Backoff.DefaultSpan | src/backoff.rs:45-47 | the default schedule sums to 1623 seconds |
| Seeding.MixIsBijective | src/backoff.rs:161-166 | the finalizer has a two-sided inverse on 64-bit words |
| Seeding.MixWrittenOut | src/backoff.rs:161-166 | the finalizer with every shift and constant written out |
| Seeding.XorIsBitwise | src/backoff.rs:161-166 | the exclusive or is bitwise |
| Seeding.SeedWrittenOut | src/backoff.rs:148-156 | the seed written out from the halves of the id hash, the seconds and the nanoseconds |
| Seeding.ComputeMix64 | src/backoff.rs:161-166 | the reassigning steps compute the finalizer |
| Seeding.SeedInjective | src/backoff.rs:148-156 | for one id seeds are equal exactly when clock terms are, and for one clock term exactly when id hashes are |
| Seeding.RetriesInOneSecondDiffer | src/backoff.rs:152-155 | two retries of one event in one second at different nanoseconds get different seeds |
| Polling.SaturatedInRange | src/dispatch.rs:100-107 | clamping lands in range and changes nothing exactly when already in range |
| Polling.Poll | src/dispatch.rs:320-352 | the loop's three counters follow the cadence function over any answers, from the minimum size |
| Polling.TickMeaning | src/dispatch.rs:109-126 | after any history, when a tick fetches, and what a short, full, empty, failed or skipped one leaves: size reset to the minimum, doubled up to the maximum, or kept; streak zero, one longer, or kept |
| Polling.CadenceInvariant | src/dispatch.rs:332-352 | the batch size stays within [min, max] and the idle counter is non-zero only while parked |
| Polling.ParkedAttemptsTenTicksApart | src/dispatch.rs:334-339 | once parked, nine ticks are skipped and the tenth fetches |
| Polling.EmptyStoreFetches | src/dispatch.rs:334-351 | n ticks on an empty store make min(n, park_after) + max(0, n - park_after) / 10 fetches |
| Polling.FullBatchesDouble | src/dispatch.rs:113-119 | k full polls from the minimum make the size min(max, min * 2^k) |
| Dispatch.Process | src/dispatch.rs:378-436 | on the memory store, a delivery marks the id, a pause of either kind changes nothing, and a failure of either kind adds one attempt and the error and parks or reschedules, changing nothing else |
| Dispatch.RetryStamp | src/dispatch.rs:400-407 | the stamp parks if and only if the failure spends the budget or the clock runs out, and otherwise lies exactly the drawn delay after now, within the bound for that attempt |
| Dispatch.ParksExactlyWhen | src/dispatch.rs:400-407 | a failure parks if and only if the budget is spent or the clock runs out, and otherwise the retry lies in [now, now + bound] |
| Dispatch.StepsAreProcess | src/dispatch.rs:378-436 | the step system's send, answer and mark steps are enabled one after the other and do to the store what process does |
| DispatchControl.EveryRun | src/dispatch.rs:313-400 | in every run the batch holds each id once, permits held and free add up to the concurrency, a fetch waits for an empty batch, the cadence holds, and sends are failures plus dispatches plus lost marks plus sends awaiting a mark, id by id |
| DispatchControl.TickTellsPoller | src/dispatch.rs:331-358 | the poller is handed the number of tasks a fetch spawned; a skipped or failed tick spawns none and keeps size and streak |
| DispatchControl.RefusalRemembers | src/dispatch.rs:397-412 | a refusal parks when it spends the budget and otherwise fixes the stamp as now plus the delay |
| DispatchControl.CountersMean | src/dispatch.rs:378-436 | what the counters of the whole-run theorems count, step by step |
| DispatchControl.StopsOnlyWhenAsked | src/dispatch.rs:324-375 | in every run the loop stops only between polls, with no task in flight, after a shutdown asked for since it last started |
| DispatchSafety.LeavesOnlyAsLetter | src/sqlite/mod.rs:260-307 | an id leaves the store in a step if and only if the step is a completed dead letter of it, which records the letter; a half-done one keeps it |
| DispatchSafety.NothingIsLost | src/dispatch.rs:378-436 | across crashes, restarts, lost marks and half-done dead letters every appended event is pending, parked or dispatched, unless a completed dead letter of the run took it out and it has been out in every state since |
| DispatchSafety.DispatchedOnlyIfAccepted | src/dispatch.rs:384-388 | an event recorded dispatched was answered Ok in an earlier step of the run, and live events carry appended content |
| DispatchBudget.BudgetRun | src/dispatch.rs:384-435 | the budget invariant holds in every unattended run: attempts, task snapshots, waited delays and the outcome potential |
| DispatchDraining.BudgetIsExact | src/dispatch.rs:384-435 | pending means fewer than max_attempts recorded failures, parked exactly max_attempts; pauses count nowhere; sends are failures plus lost marks plus the one in flight |
| DispatchDraining.SnapshotIsCurrent | src/dispatch.rs:353-400 | a task's snapshot has the stored attempts when its outcome is recorded |
| DispatchDraining.OutcomeSpends | src/dispatch.rs:384-435 | every recorded outcome strictly lowers the attempts left to spend |
| DispatchDraining.DrainsWithinBudget | src/dispatch.rs:340-362 | outcomes recorded plus events pending never exceed insertions times max_attempts |
| DispatchDraining.FetchFindsWork | src/dispatch.rs:340-358 | a fetch at or past every pending stamp is non-empty while anything is pending |
| DispatchDraining.TaskStepsLowerWork | src/dispatch.rs:353-362 | each step of a task and each join lowers the batch's remaining work |
| DispatchDraining.DrainingNeverSticks | src/dispatch.rs:362-381 | a non-empty batch always has an enabled step |
| DispatchDraining.RetrySpanBounded | src/dispatch.rs:400-407 | the delays scheduled for one event over a run sum to at most the schedule's span, at most (max_attempts - 1) * cap |
| DispatchProgress.ReachFetch | src/dispatch.rs:334-339 | from any idle state of a run, ticks alone bring the loop to one that fetches, the store unchanged |
| DispatchProgress.DrainBatch | src/dispatch.rs:353-362 | any batch can be brought to its end by its own steps, and spends attempts if one of its events was still to be settled |
| DispatchProgress.RunsToRest | src/dispatch.rs:313-375 | from every state an unattended run reaches, idle, in mid-batch, stopped or down, the dispatcher's own steps can go on to an idle state with nothing pending |
| Confluence.BatchConfluence | src/dispatch.rs:353-362 | with one record per id, any order of recording gives the same store, whether or not the store remembers ids it does not know |
| Confluence.StoreIsFold | src/dispatch.rs:353-436 | over any interleaving of a batch's steps the store is the fold of the records its marks make |
| Confluence.MadeOnce | src/dispatch.rs:378-436 | an interleaving records each id at most once, and only ids found unfinished |
| Confluence.InterleavingsAgree | src/dispatch.rs:353-436 | any two interleavings of task steps and joins that make the same records end in the same store |
| Confluence.MarkOrderIrrelevant | src/dispatch.rs:353-436 | with each event's outcome, retry time and mark fixed, every interleaving that finishes the batch, under any number of permits, ends in the same store |
| Confluence.ProcessBatch | src/dispatch.rs:353-362 | processing a batch on the memory store in a given order of completion leaves the fold of its records, unknown ids included |
| Confluence.SameJobsSameStore | src/dispatch.rs:353-362 | the memory store after a batch depends on its jobs, not on their order |
| Confluence.FinishInEitherOrder | src/memory.rs:31-39 | two equal memory stores that process one batch in different orders end with equal maps, indexes and dispatched sets |

## Left out

- The circuit breaker's own state machine: an external crate, not part of this model; each call is a free choice of its answers.
- The tokio runtime, `select!`, `JoinSet`, `watch` and `Semaphore`: only ticks, spawn, join, permits and the shutdown flag remain, and no real time passes.
- The SQLite and Postgres engines, pools, WAL and connection setup: a statement is one atomic map operation with bytewise text order; a failed call appears in the protocol as a lost mark or a failed fetch.
- Row re-checks under READ COMMITTED inside a claim: a claim is one atomic lock step followed by a commit or an abort.
- The Postgres store is modelled on values, as a step system over one shared table, because the pool holds no state of its own; waiting for a row lock is a step that is not enabled, so the order in which waiting writers are served is free.
- `SmallRng`, `DefaultHasher` and the system clock: inputs; the drawn delay is only known to lie within its bound, and its distribution is not modelled.
- f64 rounding in the backoff step: the factor is an exact real or not finite; the delays that matter lie in f64's exact-integer range. The saturating cast to 64 bits is modelled.
- PostgresCluster.RacingPollersPartitionTheDueSet: the claims follow one another with no write or commit between them; what holds under any interleaving is `ClaimsAreDisjointAndCurrent` and, claim by claim, `ClaimTakesFirstUnlockedDue`.
- Counters past the end of their columns in SQLite: attempts beyond 2^63 and row counts beyond 2^63 or 2^64 do not wrap in the model.
- Error texts: a corrupt id's message does not repeat the id, and backend messages are opaque.
- EventIds.ParseHyphenated: the parser's other accepted spellings (simple, braced, URN) are not modelled; the stores only ever write the hyphenated form.
- UUID generation, serde, display text, metrics, benches and packaging: no property of the protocol depends on them.
- `MemoryStore`'s default dead-letter methods: documented no-ops.
- Pruning and other writes through `raw_connection` or `pool`: outside the kit's contract.
- DispatchBudget.BudgetRun: assumes events appended at 0 attempts and not at NEVER, no operator reschedule, no re-append of a lettered id, and a clock with room for the cap below NEVER; without these an attempt count says nothing about failures of this run.
- DispatchOnSqlite.RunStands: covers stamps below the signed 64-bit ceiling or NEVER, encodable headers and batch sizes within a LIMIT; other stamps are clamped by the store and no longer agree with the step system. The dispatch loop is not composed with the Postgres tables, whose own system carries sends and marks.
- Polling.Poll: the counters are proved on any sequence of skipped, failed and successful fetches; the wall-clock spacing of ticks is not modelled.
