/** The retry schedule: capped exponential growth in whole milliseconds. */
module Backoff {
  import opened Base

  /** A duration in nanoseconds. */
  type Duration = nat

  const NANOS_PER_MILLI: nat := 1_000_000

  /** The growth factor: a finite number, or an infinity or NaN. */
  datatype Factor = Finite(value: real) | NonFinite

  datatype Policy = Policy(base: Duration, factor: Factor, cap: Duration, maxAttempts: U32)

  const DEFAULT_POLICY := Policy(1_000 * NANOS_PER_MILLI, Finite(2.0), 600_000 * NANOS_PER_MILLI, 12)

  function Millis(d: Duration): nat {
    d / NANOS_PER_MILLI
  }

  function Scaled(ms: nat, factor: real): real {
    ms as real * factor
  }

  /** `x.max(0.0) as u64`: truncating, and saturating at the type's ends. */
  function Whole(x: real): U64 {
    if x <= 0.0 then 0 else if x.Floor >= U64_MAX then U64_MAX else x.Floor
  }

  /** One step of growth below the cap: scale whole milliseconds, truncate. */
  function Grow(p: Policy, delay: Duration): (r: Duration) {
    if p.factor.NonFinite? then p.cap
    else
      var scaled := Scaled(Millis(delay), p.factor.value);
      if scaled >= Millis(p.cap) as real then p.cap else Whole(scaled) * NANOS_PER_MILLI
  }

  /** The loop variable after `steps` rounds, with the early return folded in. */
  function DelayAfter(p: Policy, steps: nat): Duration {
    if steps == 0 then p.base
    else
      var before := DelayAfter(p, steps - 1);
      if before >= p.cap then p.cap else Grow(p, before)
  }

  /** The un-jittered delay after `attempt` failures. */
  function ExponentialDelay(p: Policy, attempt: nat): Duration {
    Min(DelayAfter(p, Max(attempt, 1) - 1), p.cap)
  }

  method ComputeExponentialDelay(p: Policy, attempt: U32) returns (r: Duration)
    ensures r == ExponentialDelay(p, attempt)
  {
    var delay := p.base;
    var rounds := Max(attempt, 1);
    for i := 1 to rounds
      invariant delay == DelayAfter(p, i - 1)
    {
      if delay >= p.cap {
        StaysCapped(p, i - 1, rounds - 1);
        return p.cap;
      }
      delay := Grow(p, delay);
    }
    r := Min(delay, p.cap);
  }

  predicate IsExhausted(p: Policy, attempts: nat) {
    attempts >= p.maxAttempts
  }

  // --- bounds and growth ---------------------------------------------------------------

  lemma {:induction false} StaysCapped(p: Policy, first: nat, last: nat)
    requires first <= last && DelayAfter(p, first) >= p.cap
    ensures DelayAfter(p, last) >= p.cap
    decreases last
  {
    if first < last {
      StaysCapped(p, first, last - 1);
    }
  }

  /** No delay exceeds the cap, and a schedule that reaches the cap stays there. */
  lemma CapHolds(p: Policy, attempt: nat, later: nat)
    requires attempt <= later
    ensures ExponentialDelay(p, attempt) <= p.cap
    ensures ExponentialDelay(p, attempt) == p.cap ==> ExponentialDelay(p, later) == p.cap
  {
    if ExponentialDelay(p, attempt) == p.cap {
      StaysCapped(p, Max(attempt, 1) - 1, Max(later, 1) - 1);
    }
  }

  lemma ScaleUp(ms: nat, f: real)
    requires f >= 1.0
    ensures Scaled(ms, f) >= ms as real
  {
    assert ms as real * (f - 1.0) >= 0.0;
  }

  lemma WholeReaches(x: real, n: nat)
    requires x >= 0.0
    ensures Whole(x) >= n <==> x >= n as real && n <= U64_MAX
    ensures Whole(x) as real <= x
  {}

  predicate WholeMillis(d: Duration) {
    d % NANOS_PER_MILLI == 0
  }

  lemma MillisSplit(d: Duration)
    ensures Millis(d) * NANOS_PER_MILLI <= d < (Millis(d) + 1) * NANOS_PER_MILLI
    ensures WholeMillis(d) <==> d == Millis(d) * NANOS_PER_MILLI
  {}

  lemma MillisOfWhole(ms: nat)
    ensures Millis(ms * NANOS_PER_MILLI) == ms && WholeMillis(ms * NANOS_PER_MILLI)
  {}

  lemma CompareMillis(a: nat, b: nat)
    ensures a >= b <==> a * NANOS_PER_MILLI >= b * NANOS_PER_MILLI
    ensures a as real >= b as real <==> a >= b
  {}

  lemma GrowNeverShrinksWholeMillis(p: Policy, delay: Duration)
    requires p.factor.Finite? ==> p.factor.value >= 1.0
    requires WholeMillis(delay) && Millis(delay) <= U64_MAX && delay < p.cap
    ensures Grow(p, delay) >= delay
  {
    hide Millis, WholeMillis, Scaled, Whole;
    if p.factor.Finite? {
      var ms := Millis(delay);
      MillisSplit(delay);
      ScaleUp(ms, p.factor.value);
      WholeReaches(Scaled(ms, p.factor.value), ms);
    }
  }

  lemma RoundGrows(p: Policy, steps: nat)
    requires p.factor.Finite? ==> p.factor.value >= 1.0
    requires DelayAfter(p, steps) >= p.cap || IsWord(DelayAfter(p, steps))
    ensures DelayAfter(p, steps + 1) >= p.cap || IsWord(DelayAfter(p, steps + 1))
    ensures Min(DelayAfter(p, steps), p.cap) <= Min(DelayAfter(p, steps + 1), p.cap)
  {
    hide Grow, WholeMillis, Millis;
    var d := DelayAfter(p, steps);
    if d < p.cap {
      GrowNeverShrinksWholeMillis(p, d);
      GrowIsWord(p, d);
    }
  }

  /** A count of milliseconds that fits 64 bits. */
  predicate IsWord(d: Duration) {
    WholeMillis(d) && Millis(d) <= U64_MAX
  }

  lemma GrowIsWord(p: Policy, delay: Duration)
    ensures Grow(p, delay) >= p.cap || IsWord(Grow(p, delay))
  {
    hide Scaled, Whole, Millis, WholeMillis;
    if p.factor.Finite? {
      MillisOfWhole(Whole(Scaled(Millis(delay), p.factor.value)));
    }
  }

  // After the first round the loop variable is capped or a 64-bit count of milliseconds.
  lemma RoundsAreWords(p: Policy, steps: nat)
    requires steps > 0
    ensures DelayAfter(p, steps) >= p.cap || IsWord(DelayAfter(p, steps))
  {
    hide Grow, IsWord;
    GrowIsWord(p, DelayAfter(p, steps - 1));
  }

  /** The check a caller can make on the configuration: the base delay is a
      64-bit count of whole milliseconds or already at the cap, or the first
      growth step reaches the cap or makes up for the truncated part of a
      millisecond. */
  predicate FirstStepHolds(p: Policy) {
    || IsWord(p.base)
    || p.base >= p.cap
    || p.factor.NonFinite?
    || Scaled(Millis(p.base), p.factor.value) >= Millis(p.cap) as real
    || (Millis(p.base) < U64_MAX && Scaled(Millis(p.base), p.factor.value) >= (Millis(p.base) + 1) as real)
  }

  lemma FirstStep(p: Policy)
    requires p.factor.Finite? ==> p.factor.value >= 1.0
    ensures ExponentialDelay(p, 1) <= ExponentialDelay(p, 2) <==> FirstStepHolds(p)
  {
    assert DelayAfter(p, 1) == if p.base >= p.cap then p.cap else Grow(p, p.base);
    if p.base < p.cap && p.factor.Finite? {
      FirstGrowth(p);
    }
  }

  lemma FirstGrowth(p: Policy)
    requires p.factor.Finite? && p.factor.value >= 1.0 && p.base < p.cap
    ensures p.base <= Min(Grow(p, p.base), p.cap) <==> FirstStepHolds(p)
  {
    hide Millis, WholeMillis, Scaled, Whole;
    var ms := Millis(p.base);
    var scaled := Scaled(ms, p.factor.value);
    ScaleUp(ms, p.factor.value);
    if scaled < Millis(p.cap) as real {
      var whole := Whole(scaled);
      WholeReaches(scaled, ms);
      WholeReaches(scaled, ms + 1);
      WholeReaches(scaled, Millis(p.cap));
      MillisSplit(p.base);
      MillisSplit(p.cap);
      CompareMillis(Millis(p.cap), whole);
      CompareMillis(whole, ms + 1);
    }
  }

  /** For a factor of at least 1 the schedule is non-decreasing in the attempt
      if and only if the first step holds. */
  lemma MonotonicExactlyWhen(p: Policy)
    requires p.factor.Finite? ==> p.factor.value >= 1.0
    ensures (forall n: nat :: ExponentialDelay(p, n) <= ExponentialDelay(p, n + 1)) <==> FirstStepHolds(p)
  {
    hide FirstStepHolds, DelayAfter;
    FirstStep(p);
    if FirstStepHolds(p) {
      forall n: nat ensures ExponentialDelay(p, n) <= ExponentialDelay(p, n + 1) {
        if n > 1 {
          RoundsAreWords(p, n - 1);
          RoundGrows(p, n - 1);
        }
      }
    } else {
      assert ExponentialDelay(p, 1) > ExponentialDelay(p, 1 + 1);
    }
  }

  /** A schedule that shrinks although its factor is 1: 1.5 ms, then 1 ms. */
  lemma FractionalBaseShrinks()
    ensures var p := Policy(1_500_000, Finite(1.0), 10_000_000, 12);
      ExponentialDelay(p, 1) == 1_500_000 && ExponentialDelay(p, 2) == 1_000_000
  {
    var p := Policy(1_500_000, Finite(1.0), 10_000_000, 12);
    ScaledExact(1, 1);
    WholeExact(1);
    assert Millis(p.base) == 1 && Millis(p.cap) == 10;
    assert DelayAfter(p, 1) == Grow(p, p.base) == 1_000_000;
  }

  // --- one step of the schedule, for every factor ------------------------------------------

  lemma WholeMeaning(x: real)
    ensures x < 0.0 ==> Whole(x) == 0
    ensures 0.0 <= x < 0x1_0000_0000_0000_0000 as real ==> Whole(x) as real <= x < Whole(x) as real + 1.0
    ensures x >= 0x1_0000_0000_0000_0000 as real ==> Whole(x) == 0xFFFF_FFFF_FFFF_FFFF
  {}

  lemma Grown(p: Policy, d: Duration)
    requires d < p.cap && p.factor.Finite?
    ensures var product := (d / 1_000_000) as real * p.factor.value;
      Min(Grow(p, d), p.cap) ==
        if product >= (p.cap / 1_000_000) as real then p.cap else Whole(product) * 1_000_000
  {
    var product := (d / 1_000_000) as real * p.factor.value;
    assert Scaled(Millis(d), p.factor.value) == product;
    hide Whole;
    if product < (p.cap / 1_000_000) as real {
      WithinCap(product, p.cap);
    }
  }

  /** The first two attempts wait the base, capped. A capped schedule stays capped.
      Below the cap the next delay is the whole milliseconds so far times the factor:
      the cap if that reaches the cap's milliseconds or is not finite, else
      truncated to whole milliseconds, 0 if negative, and saturating at 2^64. */
  lemma NextDelay(p: Policy, n: nat)
    requires n >= 1
    ensures ExponentialDelay(p, 0) == ExponentialDelay(p, 1) == (if p.base < p.cap then p.base else p.cap)
    ensures var d, next := ExponentialDelay(p, n), ExponentialDelay(p, n + 1);
      && (d >= p.cap || p.factor == NonFinite ==> next == p.cap)
      && (d < p.cap && p.factor.Finite? ==>
            var product := (d / 1_000_000) as real * p.factor.value;
            if product >= (p.cap / 1_000_000) as real then next == p.cap
            else if product < 0.0 then next == 0
            else if product >= 0x1_0000_0000_0000_0000 as real then next == 0xFFFF_FFFF_FFFF_FFFF * 1_000_000
            else exists m: nat :: next == m * 1_000_000 && m as real <= product < m as real + 1.0)
  {
    StepOfSchedule(p, n);
    var d := ExponentialDelay(p, n);
    hide ExponentialDelay, Whole, Grow;
    if d < p.cap && p.factor.Finite? {
      Grown(p, d);
      WholeMeaning((d / 1_000_000) as real * p.factor.value);
    }
  }

  lemma StepOfSchedule(p: Policy, n: nat)
    requires n >= 1
    ensures ExponentialDelay(p, 0) == ExponentialDelay(p, 1) == Min(p.base, p.cap)
    ensures var d, next := ExponentialDelay(p, n), ExponentialDelay(p, n + 1);
      && (d >= p.cap ==> next == p.cap)
      && (d < p.cap ==> next == Min(Grow(p, d), p.cap))
      && (p.factor == NonFinite ==> next == p.cap)
  {
    hide Whole, Scaled;
    CapHolds(p, n, n + 1);
    var d := ExponentialDelay(p, n);
    if d < p.cap {
      assert d == DelayAfter(p, n - 1) && DelayAfter(p, n) == Grow(p, d);
    }
  }

  lemma WithinCap(product: real, cap: Duration)
    requires product < (cap / 1_000_000) as real
    ensures Whole(product) * 1_000_000 <= cap
  {
    if product >= 0.0 {
      WholeReaches(product, cap / 1_000_000);
    }
  }

  // --- the closed form -----------------------------------------------------------------

  function Power(f: nat, n: nat): nat {
    if n == 0 then 1 else f * Power(f, n - 1)
  }

  lemma ScaledExact(ms: nat, f: nat)
    ensures Scaled(ms, f as real) == (ms * f) as real
  {}

  lemma WholeExact(n: nat)
    ensures Whole(n as real) == Min(n, U64_MAX)
  {}

  lemma GrowExact(p: Policy, f: nat, ms: nat)
    requires p.factor == Finite(f as real) && WholeMillis(p.cap)
    ensures Grow(p, ms * NANOS_PER_MILLI) ==
      if ms * f * NANOS_PER_MILLI >= p.cap then p.cap else Min(ms * f, U64_MAX) * NANOS_PER_MILLI
  {
    hide Millis, WholeMillis, Scaled, Whole;
    MillisOfWhole(ms);
    MillisSplit(p.cap);
    ScaledExact(ms, f);
    WholeExact(ms * f);
    CompareMillis(ms * f, Millis(p.cap));
  }

  /** No power of the factor carries the base past 64 bits of milliseconds and
      still below the cap. */
  ghost predicate NeverSaturates(p: Policy, f: nat) {
    forall k: nat | k >= 1 :: FitsOrCaps(p, p.base * Power(f, k))
  }

  predicate FitsOrCaps(p: Policy, x: nat) {
    x <= U64_MAX * NANOS_PER_MILLI || x >= p.cap
  }

  lemma {:induction false} RoundsExact(p: Policy, f: nat, steps: nat)
    requires p.factor == Finite(f as real) && f >= 1
    requires WholeMillis(p.base) && WholeMillis(p.cap) && NeverSaturates(p, f)
    ensures Min(DelayAfter(p, steps), p.cap) == Min(p.base * Power(f, steps), p.cap)
  {
    hide Grow, WholeMillis, FitsOrCaps;
    if steps > 0 {
      RoundsExact(p, f, steps - 1);
      Regroup(p.base, Power(f, steps - 1), f);
      assert FitsOrCaps(p, p.base * Power(f, steps));
      assert Power(f, steps) == f * Power(f, steps - 1);
      RoundExact(p, f, Power(f, steps - 1), DelayAfter(p, steps - 1));
    }
  }

  lemma Regroup(a: nat, x: nat, f: nat)
    ensures a * (f * x) == a * x * f
  {}

  lemma RoundExact(p: Policy, f: nat, x: nat, before: Duration)
    requires p.factor == Finite(f as real) && f >= 1
    requires WholeMillis(p.base) && WholeMillis(p.cap) && FitsOrCaps(p, p.base * x * f)
    requires Min(before, p.cap) == Min(p.base * x, p.cap)
    ensures Min(if before >= p.cap then p.cap else Grow(p, before), p.cap) == Min(p.base * x * f, p.cap)
  {
    hide Grow;
    if before >= p.cap {
      AtLeast(p.base * x, f, p.cap);
    } else {
      var ms := Millis(p.base);
      assert p.base == ms * NANOS_PER_MILLI;
      assert p.base * x == ms * x * NANOS_PER_MILLI;
      GrowExact(p, f, ms * x);
      assert ms * x * f * NANOS_PER_MILLI == p.base * x * f;
    }
  }

  lemma AtLeast(a: nat, f: nat, c: nat)
    requires a >= c && f >= 1
    ensures a * f >= c
  {
    assert a * f >= a;
  }

  function Formula(p: Policy, f: nat, attempt: nat): Duration {
    Min(p.base * Power(f, Max(attempt, 1) - 1), p.cap)
  }

  /** With an integer factor and whole-millisecond base and cap, the loop is
      `min(cap, base * factor^(attempt - 1))`, attempt 0 counting as 1, for every
      attempt if and only if the cast to 64 bits never saturates below the cap. */
  lemma ClosedForm(p: Policy, f: nat)
    requires p.factor == Finite(f as real) && f >= 1
    requires WholeMillis(p.base) && WholeMillis(p.cap)
    ensures (forall attempt: nat :: ExponentialDelay(p, attempt) == Formula(p, f, attempt)) <==> NeverSaturates(p, f)
  {
    hide DelayAfter, Power, WholeMillis, FitsOrCaps;
    if NeverSaturates(p, f) {
      forall attempt: nat ensures ExponentialDelay(p, attempt) == Formula(p, f, attempt) {
        RoundsExact(p, f, Max(attempt, 1) - 1);
      }
    } else {
      var k: nat :| k >= 1 && !FitsOrCaps(p, p.base * Power(f, k));
      SaturatedRound(p, f, k);
      assert ExponentialDelay(p, k + 1) != Formula(p, f, k + 1);
    }
  }

  lemma SaturatedRound(p: Policy, f: nat, k: nat)
    requires k >= 1 && !FitsOrCaps(p, p.base * Power(f, k))
    ensures Min(DelayAfter(p, k), p.cap) != Min(p.base * Power(f, k), p.cap)
  {
    hide DelayAfter, Power;
    RoundsAreWords(p, k);
    MillisSplit(DelayAfter(p, k));
  }

  /** A schedule that sticks below its cap: doubling from 2^63 ms toward 2^66 ms, it
      stays one millisecond short of 2^64 from the second attempt on. */
  lemma {:induction false} CastSticksBelowCap(attempt: nat)
    requires attempt >= 2
    ensures var p := Policy(0x8000_0000_0000_0000 * NANOS_PER_MILLI, Finite(2.0), 0x4_0000_0000_0000_0000 * NANOS_PER_MILLI, 12);
      ExponentialDelay(p, attempt) == U64_MAX * NANOS_PER_MILLI
  {
    hide Grow;
    var p := Policy(0x8000_0000_0000_0000 * NANOS_PER_MILLI, Finite(2.0), 0x4_0000_0000_0000_0000 * NANOS_PER_MILLI, 12);
    if attempt == 2 {
      GrowExact(p, 2, 0x8000_0000_0000_0000);
      assert DelayAfter(p, 0) == p.base;
    } else {
      CastSticksBelowCap(attempt - 1);
      GrowExact(p, 2, U64_MAX);
    }
  }

  /** A cap of at most 2^64 ms, some 585 million years, rules saturation out. */
  lemma CapRulesOutSaturation(p: Policy, f: nat)
    requires WholeMillis(p.base) && p.cap <= (U64_MAX + 1) * NANOS_PER_MILLI
    ensures NeverSaturates(p, f)
  {
    hide Power, WholeMillis;
    forall k: nat | k >= 1 ensures FitsOrCaps(p, p.base * Power(f, k)) {
      MillisSplit(p.base);
      WordOrMore(Millis(p.base), Power(f, k));
    }
  }

  lemma WordOrMore(ms: nat, x: nat)
    ensures ms * NANOS_PER_MILLI * x <= U64_MAX * NANOS_PER_MILLI ||
            ms * NANOS_PER_MILLI * x >= (U64_MAX + 1) * NANOS_PER_MILLI
  {
    assert ms * NANOS_PER_MILLI * x == ms * x * NANOS_PER_MILLI;
    CompareMillis(ms * x, U64_MAX + 1);
    CompareMillis(U64_MAX, ms * x);
  }

  // --- the whole retry span ----------------------------------------------------------------

  /** The sum of the bounds after failures 1 to `failures`. */
  function Span(p: Policy, failures: nat): nat {
    if failures == 0 then 0 else Span(p, failures - 1) + ExponentialDelay(p, failures)
  }

  lemma {:induction false} SpanBounded(p: Policy, failures: nat)
    ensures Span(p, failures) <= failures * p.cap
  {
    hide ExponentialDelay;
    if failures > 0 {
      SpanBounded(p, failures - 1);
      CapHolds(p, failures, failures);
      assert failures * p.cap == (failures - 1) * p.cap + p.cap;
    }
  }

  lemma DefaultDelay(k: nat, doubled: nat)
    requires 1 <= k && doubled == Power(2, k - 1)
    ensures ExponentialDelay(DEFAULT_POLICY, k) == Min(1_000_000_000 * doubled, 600_000_000_000)
    ensures Power(2, k) == 2 * doubled
  {
    hide ExponentialDelay, NeverSaturates;
    CapRulesOutSaturation(DEFAULT_POLICY, 2);
    ClosedForm(DEFAULT_POLICY, 2);
    assert ExponentialDelay(DEFAULT_POLICY, k) == Formula(DEFAULT_POLICY, 2, k);
  }

  lemma DefaultStep(k: nat, doubled: nat, before: nat)
    requires 1 <= k && doubled == Power(2, k - 1) && before == Span(DEFAULT_POLICY, k - 1)
    ensures Power(2, k) == 2 * doubled
    ensures Span(DEFAULT_POLICY, k) == before + Min(1_000_000_000 * doubled, 600_000_000_000)
  {
    hide ExponentialDelay;
    DefaultDelay(k, doubled);
  }

  /** The default policy's eleven retries span at most 1623 seconds. */
  lemma DefaultSpan()
    ensures Span(DEFAULT_POLICY, DEFAULT_POLICY.maxAttempts - 1) == 1_623_000 * NANOS_PER_MILLI
  {
    hide Span, Power, ExponentialDelay;
    DefaultStart();
    DefaultStep(1, 1, 0);
    DefaultStep(2, 2, 1_000_000_000);
    DefaultStep(3, 4, 3_000_000_000);
    DefaultStep(4, 8, 7_000_000_000);
    DefaultStep(5, 16, 15_000_000_000);
    DefaultStep(6, 32, 31_000_000_000);
    DefaultStep(7, 64, 63_000_000_000);
    DefaultStep(8, 128, 127_000_000_000);
    DefaultStep(9, 256, 255_000_000_000);
    DefaultStep(10, 512, 511_000_000_000);
    DefaultStep(11, 1024, 1_023_000_000_000);
  }

  lemma DefaultStart()
    ensures Power(2, 0) == 1 && Span(DEFAULT_POLICY, 0) == 0
  {}
}
