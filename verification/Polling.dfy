/** The poll loop's own variables: adaptive batch size and idle cadence. */
module Polling {
  import opened Base

  const IDLE_POLL_DIVISOR: nat := 10

  datatype FetchBatch = FetchBatch(min: U64, max: U64, parkAfter: U32)

  function Saturated(b: FetchBatch): FetchBatch {
    var floor := Max(b.min, 1);
    FetchBatch(floor, Max(b.max, floor), Max(b.parkAfter, 1))
  }

  predicate InRange(b: FetchBatch) {
    1 <= b.min <= b.max && 1 <= b.parkAfter
  }

  function NextSize(b: FetchBatch, current: U64, fetched: nat): U64 {
    if fetched >= current then Max(Min(Min(current * 2, U64_MAX), b.max), b.min) else b.min
  }

  predicate IsIdleParked(b: FetchBatch, emptyStreak: U32) {
    emptyStreak >= b.parkAfter
  }

  /** Clamping yields a usable range and changes nothing that is already one. */
  lemma SaturatedInRange(b: FetchBatch)
    ensures InRange(Saturated(b))
    ensures InRange(b) <==> Saturated(b) == b
    ensures Saturated(b).min == (if b.min == 0 then 1 else b.min)
    ensures Saturated(b).max == (if b.max < Saturated(b).min then Saturated(b).min else b.max)
    ensures Saturated(b).parkAfter == (if b.parkAfter == 0 then 1 else b.parkAfter)
  {}

  // --- one tick ---------------------------------------------------------------------

  datatype Poller = Poller(size: U64, streak: U32, idleTick: nat)

  /** How the store would answer a fetch on a tick. */
  datatype Answer = Hiccup | Fetched(count: nat)

  function Start(b: FetchBatch): Poller {
    Poller(b.min, 0, 0)
  }

  predicate Fetches(b: FetchBatch, p: Poller) {
    IsIdleParked(b, p.streak) ==> (p.idleTick + 1) % IDLE_POLL_DIVISOR == 0
  }

  function Tick(b: FetchBatch, p: Poller, answer: Answer): Poller {
    var idle := if IsIdleParked(b, p.streak) then (p.idleTick + 1) % IDLE_POLL_DIVISOR else p.idleTick;
    if !Fetches(b, p) || answer.Hiccup? then p.(idleTick := idle)
    else Poller(NextSize(b, p.size, answer.count), if answer.count == 0 then Min(p.streak + 1, U32_MAX) else 0, idle)
  }

  // --- any sequence of ticks -----------------------------------------------------------

  function After(b: FetchBatch, p: Poller, answers: seq<Answer>): Poller
    decreases |answers|
  {
    if answers == [] then p
    else Tick(b, After(b, p, answers[..|answers| - 1]), answers[|answers| - 1])
  }

  /** How many of the ticks fetch. */
  function FetchCount(b: FetchBatch, p: Poller, answers: seq<Answer>): nat
    decreases |answers|
  {
    if answers == [] then 0
    else
      var before := answers[..|answers| - 1];
      FetchCount(b, p, before) + if Fetches(b, After(b, p, before)) then 1 else 0
  }

  /** The loop of `run`, one answer a tick. */
  method Poll(b: FetchBatch, answers: seq<Answer>) returns (size: U64, streak: U32, idleTick: nat, fetches: nat)
    ensures Poller(size, streak, idleTick) == After(b, Start(b), answers)
    ensures fetches == FetchCount(b, Start(b), answers)
    ensures answers == [] ==> size == b.min && streak == 0 && idleTick == 0 && fetches == 0
  {
    size, streak, idleTick, fetches := b.min, 0, 0, 0;
    for i := 0 to |answers|
      invariant Poller(size, streak, idleTick) == After(b, Start(b), answers[..i])
      invariant fetches == FetchCount(b, Start(b), answers[..i])
    {
      assert answers[..i + 1][..i] == answers[..i];
      if IsIdleParked(b, streak) {
        idleTick := (idleTick + 1) % IDLE_POLL_DIVISOR;
        if idleTick != 0 {
          continue;
        }
      }
      fetches := fetches + 1;
      match answers[i]
      case Hiccup =>
      case Fetched(count) =>
        if count == 0 {
          streak := Min(streak + 1, U32_MAX);
        } else {
          streak := 0;
        }
        size := NextSize(b, size, count);
    }
    assert answers[..|answers|] == answers;
  }

  /** In every run the batch size stays within the configured range, and the
      idle counter is non-zero only while the poller is parked. */
  lemma {:induction false} CadenceInvariant(b: FetchBatch, answers: seq<Answer>)
    requires InRange(b)
    ensures var p := After(b, Start(b), answers);
      b.min <= p.size <= b.max && p.idleTick < IDLE_POLL_DIVISOR && (p.idleTick != 0 ==> IsIdleParked(b, p.streak))
    decreases |answers|
  {
    if answers != [] {
      CadenceInvariant(b, answers[..|answers| - 1]);
    }
  }

  /** What one more tick does, whatever came before. A tick fetches unless the empty
      streak has reached the threshold and it is not the tenth since. A fetch that
      comes back short resets the size, a full one doubles it up to the maximum;
      an empty one lengthens the streak, any other ends it. A skipped tick and a
      failed fetch change neither. */
  lemma TickMeaning(b: FetchBatch, answers: seq<Answer>, answer: Answer)
    requires InRange(b)
    ensures After(b, Start(b), []) == Poller(b.min, 0, 0) && FetchCount(b, Start(b), []) == 0
    ensures var was, after := After(b, Start(b), answers), After(b, Start(b), answers + [answer]);
      var fetched := FetchCount(b, Start(b), answers + [answer]) - FetchCount(b, Start(b), answers);
      && fetched == (if was.streak < b.parkAfter || was.idleTick == 9 then 1 else 0)
      && after.idleTick == (if was.streak < b.parkAfter || was.idleTick == 9 then 0 else was.idleTick + 1)
      && (fetched == 0 || answer.Hiccup? ==> after.size == was.size && after.streak == was.streak)
      && (fetched == 1 && answer.Fetched? ==>
            && after.size == (if answer.count < was.size then b.min else if 2 * was.size <= b.max then 2 * was.size else b.max)
            && after.streak == (if answer.count > 0 then 0 else if was.streak < 0xFFFF_FFFF then was.streak + 1 else was.streak))
  {
    CadenceInvariant(b, answers);
    assert (answers + [answer])[..|answers + [answer]| - 1] == answers;
  }

  lemma {:induction false} AfterJoin(b: FetchBatch, p: Poller, x: seq<Answer>, y: seq<Answer>)
    ensures After(b, p, x + y) == After(b, After(b, p, x), y)
    ensures FetchCount(b, p, x + y) == FetchCount(b, p, x) + FetchCount(b, After(b, p, x), y)
    decreases |y|
  {
    if y == [] {
      assert x + y == x;
    } else {
      AfterJoin(b, p, x, y[..|y| - 1]);
      assert (x + y)[..|x + y| - 1] == x + y[..|y| - 1];
    }
  }

  lemma {:induction false} QuietTicks(b: FetchBatch, p: Poller, answers: seq<Answer>)
    requires IsIdleParked(b, p.streak) && p.idleTick == 0 && |answers| < IDLE_POLL_DIVISOR
    ensures After(b, p, answers) == p.(idleTick := |answers|)
    ensures FetchCount(b, p, answers) == 0
    decreases |answers|
  {
    if answers != [] {
      QuietTicks(b, p, answers[..|answers| - 1]);
    }
  }

  /** Parked fetch attempts are exactly ten ticks apart: from a parked attempt
      the next nine ticks fetch nothing and the tenth attempts, whatever the
      store answers; a failed or empty attempt starts the same wait again. */
  lemma ParkedAttemptsTenTicksApart(b: FetchBatch, before: seq<Answer>, quiet: seq<Answer>, answer: Answer)
    requires InRange(b) && |quiet| == IDLE_POLL_DIVISOR - 1
    requires IsIdleParked(b, After(b, Start(b), before).streak) && After(b, Start(b), before).idleTick == 0
    ensures FetchCount(b, Start(b), before + quiet) == FetchCount(b, Start(b), before)
    ensures FetchCount(b, Start(b), before + quiet + [answer]) == FetchCount(b, Start(b), before) + 1
    ensures var p := After(b, Start(b), before + quiet + [answer]);
      p.idleTick == 0 && (IsIdleParked(b, p.streak) <==> answer == Hiccup || answer == Fetched(0))
  {
    var p := After(b, Start(b), before);
    QuietTicks(b, p, quiet);
    AfterJoin(b, Start(b), before, quiet);
    var all := before + quiet + [answer];
    assert all[..|all| - 1] == before + quiet;
  }

  function Empties(n: nat): (r: seq<Answer>)
    ensures |r| == n
  {
    if n == 0 then [] else Empties(n - 1) + [Fetched(0)]
  }

  lemma LastEmpty(n: nat)
    requires n > 0
    ensures Empties(n)[..n - 1] == Empties(n - 1) && Empties(n)[n - 1] == Fetched(0)
  {}

  // Where `n` empty ticks from the start lead.
  predicate EmptyState(b: FetchBatch, n: nat, p: Poller) {
    && (n <= b.parkAfter ==> p.streak == n && p.idleTick == 0)
    && (n >= b.parkAfter ==> IsIdleParked(b, p.streak) && p.idleTick == (n - b.parkAfter) % 10)
  }

  lemma EmptyTick(b: FetchBatch, n: nat, p: Poller)
    requires InRange(b) && n > 0 && EmptyState(b, n - 1, p)
    ensures EmptyState(b, n, Tick(b, p, Fetched(0)))
    ensures Fetches(b, p) <==> n <= b.parkAfter || (n - b.parkAfter) % 10 == 0
  {
    hide NextSize;
    if n > b.parkAfter {
      TenthStep(n - b.parkAfter);
    }
  }

  lemma LastTick(b: FetchBatch, p: Poller, answers: seq<Answer>)
    requires answers != []
    ensures var before := answers[..|answers| - 1];
      && After(b, p, answers) == Tick(b, After(b, p, before), answers[|answers| - 1])
      && FetchCount(b, p, answers) == FetchCount(b, p, before) + if Fetches(b, After(b, p, before)) then 1 else 0
  {}

  function FetchesOf(n: nat, parkAfter: nat): nat {
    Min(n, parkAfter) + Max(0, n - parkAfter) / 10
  }

  lemma OneMore(n: nat, parkAfter: nat)
    requires n > 0
    ensures FetchesOf(n, parkAfter) ==
      FetchesOf(n - 1, parkAfter) + if n <= parkAfter || (n - parkAfter) % 10 == 0 then 1 else 0
  {
    if n > parkAfter {
      TenthStep(n - parkAfter);
    }
  }

  lemma {:induction false} EmptyTicks(b: FetchBatch, n: nat)
    requires InRange(b)
    ensures EmptyState(b, n, After(b, Start(b), Empties(n)))
    ensures FetchCount(b, Start(b), Empties(n)) == FetchesOf(n, b.parkAfter)
  {
    if n > 0 {
      hide Tick, Fetches, After, FetchCount, EmptyState, InRange, FetchesOf;
      EmptyTicks(b, n - 1);
      LastEmpty(n);
      LastTick(b, Start(b), Empties(n));
      EmptyTick(b, n, After(b, Start(b), Empties(n - 1)));
      OneMore(n, b.parkAfter);
    }
  }

  lemma TenthStep(m: nat)
    requires m > 0
    ensures m % 10 == ((m - 1) % 10 + 1) % 10
    ensures m / 10 == (m - 1) / 10 + if m % 10 == 0 then 1 else 0
  {}

  /** `n` ticks of an empty store cost `min(n, park_after)` fetches plus a tenth
      of the ticks beyond. */
  lemma EmptyStoreFetches(b: FetchBatch, n: nat)
    requires InRange(b)
    ensures FetchCount(b, Start(b), Empties(n)) == Min(n, b.parkAfter) + Max(0, n - b.parkAfter) / 10
  {
    EmptyTicks(b, n);
  }

  function Doubled(size: nat, k: nat): nat {
    if k == 0 then size else 2 * Doubled(size, k - 1)
  }

  /** After `k` full batches in a row the size is `min(max, min * 2^k)`. */
  lemma {:induction false} FullBatchesDouble(b: FetchBatch, answers: seq<Answer>)
    requires InRange(b)
    requires forall i | 0 <= i < |answers| ::
      answers[i].Fetched? && answers[i].count >= After(b, Start(b), answers[..i]).size
    ensures After(b, Start(b), answers).size == Min(b.max, Doubled(b.min, |answers|))
    ensures After(b, Start(b), answers).streak == 0
    ensures FetchCount(b, Start(b), answers) == |answers|
    decreases |answers|
  {
    if answers != [] {
      var n := |answers| - 1;
      var before := answers[..n];
      forall i | 0 <= i < n ensures before[i] == answers[i] && before[..i] == answers[..i] {}
      FullBatchesDouble(b, before);
      CadenceInvariant(b, before);
    }
  }
}
