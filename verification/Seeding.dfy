/** Jitter seeds: the SplitMix64 finalizer over an id hash and the clock, on
    64-bit words as naturals below 2^64. */
module Seeding {
  import opened Base

  const WORD := 0x1_0000_0000_0000_0000

  // --- word operations -----------------------------------------------------------

  /** Bitwise exclusive or. */
  function Xor(a: nat, b: nat): nat
    decreases a + b
  {
    if a == 0 then b
    else if b == 0 then a
    else (a + b) % 2 + 2 * Xor(a / 2, b / 2)
  }

  function Pow2(k: nat): (r: nat)
    ensures r > 0
  {
    if k == 0 then 1 else 2 * Pow2(k - 1)
  }

  /** Logical shift right. */
  function Shr(a: nat, k: nat): nat {
    if k == 0 then a else Shr(a / 2, k - 1)
  }

  function WrappingAdd(a: U64, b: U64): U64 {
    (a + b) % WORD
  }

  function WrappingMul(a: U64, b: U64): U64 {
    (a * b) % WORD
  }

  function RotateHalf(a: U64): U64 {
    (a % 0x1_0000_0000) * 0x1_0000_0000 + a / 0x1_0000_0000
  }

  // --- xor and shift ----------------------------------------------------------------

  lemma XorStep(a: nat, b: nat)
    ensures Xor(a, b) == (a + b) % 2 + 2 * Xor(a / 2, b / 2)
    ensures Xor(a, b) / 2 == Xor(a / 2, b / 2)
    ensures Xor(a, b) % 2 == (a + b) % 2
  {}

  lemma {:induction false} XorCommutes(a: nat, b: nat)
    ensures Xor(a, b) == Xor(b, a)
    decreases a + b
  {
    if a != 0 && b != 0 {
      XorCommutes(a / 2, b / 2);
    }
  }

  lemma {:induction false} XorAssociates(a: nat, b: nat, c: nat)
    ensures Xor(Xor(a, b), c) == Xor(a, Xor(b, c))
    decreases a + b + c
  {
    if a != 0 && b != 0 && c != 0 {
      XorAssociates(a / 2, b / 2, c / 2);
      XorAssociatesFromHalves(a, b, c);
    }
  }

  lemma XorAssociatesFromHalves(a: nat, b: nat, c: nat)
    requires Xor(Xor(a / 2, b / 2), c / 2) == Xor(a / 2, Xor(b / 2, c / 2))
    ensures Xor(Xor(a, b), c) == Xor(a, Xor(b, c))
  {
    hide Xor;
    XorStep(a, b);
    XorStep(b, c);
    XorStep(Xor(a, b), c);
    XorStep(a, Xor(b, c));
    SameParity(a, b, c, Xor(a, b), Xor(b, c));
  }

  lemma SameParity(a: nat, b: nat, c: nat, p: nat, q: nat)
    requires p % 2 == (a + b) % 2 && q % 2 == (b + c) % 2
    ensures (p + c) % 2 == (a + q) % 2
  {}

  lemma {:induction false} XorSelf(a: nat)
    ensures Xor(a, a) == 0
  {
    if a != 0 {
      XorSelf(a / 2);
    }
  }

  /** Xor with one word is undone by xor with it again. */
  lemma XorCancels(a: nat, b: nat)
    ensures Xor(Xor(a, b), b) == a
  {
    XorAssociates(a, b, b);
    XorSelf(b);
  }

  lemma {:induction false} XorBelow(a: nat, b: nat, k: nat)
    requires a < Pow2(k) && b < Pow2(k)
    ensures Xor(a, b) < Pow2(k)
  {
    if k > 0 {
      XorBelow(a / 2, b / 2, k - 1);
      XorStep(a, b);
    }
  }

  lemma {:induction false} ShrXor(a: nat, b: nat, k: nat)
    ensures Shr(Xor(a, b), k) == Xor(Shr(a, k), Shr(b, k))
    decreases k
  {
    if k > 0 {
      XorStep(a, b);
      ShrXor(a / 2, b / 2, k - 1);
    }
  }

  lemma {:induction false} ShrShr(a: nat, j: nat, k: nat)
    ensures Shr(Shr(a, j), k) == Shr(a, j + k)
    decreases j
  {
    if j > 0 {
      ShrShr(a / 2, j - 1, k);
    }
  }

  lemma {:induction false} ShrBelow(a: nat, k: nat, n: nat)
    requires a < Pow2(n)
    ensures Shr(a, k) <= a
    ensures k >= n ==> Shr(a, k) == 0
    decreases k
  {
    if k > 0 {
      if n > 0 {
        ShrBelow(a / 2, k - 1, n - 1);
      } else {
        ShrBelow(0, k - 1, 0);
      }
    }
  }

  lemma {:induction false} Pow2Sum(j: nat, k: nat)
    ensures Pow2(j + k) == Pow2(j) * Pow2(k)
  {
    if j > 0 {
      Pow2Sum(j - 1, k);
    }
  }

  lemma WordIsPow2()
    ensures Pow2(64) == WORD
  {
    assert Pow2(8) == 256;
    hide Pow2;
    Pow2Sum(8, 8);
    Pow2Sum(16, 16);
    Pow2Sum(32, 32);
  }

  lemma XorWord(a: U64, b: U64)
    ensures Xor(a, b) < WORD
  {
    WordIsPow2();
    XorBelow(a, b, 64);
  }

  /** `x ^ (x >> k)` */
  function XorShift(x: U64, k: nat): U64 {
    WordIsPow2();
    ShrBelow(x, k, 64);
    XorWord(x, Shr(x, k));
    Xor(x, Shr(x, k))
  }

  /** `y ^ (y >> k) ^ (y >> 2k)` */
  function UnxorShift(y: U64, k: nat): U64 {
    WordIsPow2();
    ShrBelow(y, 2 * k, 64);
    XorWord(XorShift(y, k), Shr(y, 2 * k));
    Xor(XorShift(y, k), Shr(y, 2 * k))
  }

  // With three shifts the whole word is gone.
  lemma Shifts(x: U64, k: nat)
    requires 3 * k >= 64
    ensures Shr(Shr(x, k), k) == Shr(x, 2 * k)
    ensures Shr(Shr(x, k), 2 * k) == 0 && Shr(Shr(x, 2 * k), k) == 0
  {
    hide Shr;
    WordIsPow2();
    ShrShr(x, k, k);
    ShrShr(x, k, 2 * k);
    ShrShr(x, 2 * k, k);
    ShrBelow(x, 3 * k, 64);
  }

  lemma UnxorAfter(x: U64, k: nat)
    requires 3 * k >= 64
    ensures UnxorShift(XorShift(x, k), k) == x
  {
    var x1, x2 := Shr(x, k), Shr(x, 2 * k);
    Shifts(x, k);
    hide Shr;
    var y := Xor(x, x1);
    ShrXor(x, x1, k);
    ShrXor(x, x1, 2 * k);
    assert Shr(y, k) == Xor(x1, x2) && Shr(y, 2 * k) == Xor(x2, 0) == x2;
    XorAssociates(x, x1, Xor(x1, x2));
    XorAssociates(x1, x1, x2);
    XorSelf(x1);
    assert Xor(y, Shr(y, k)) == Xor(x, x2);
    XorCancels(x, x2);
  }

  lemma XorAfter(x: U64, k: nat)
    requires 3 * k >= 64
    ensures XorShift(UnxorShift(x, k), k) == x
  {
    var x1, x2 := Shr(x, k), Shr(x, 2 * k);
    Shifts(x, k);
    hide Shr;
    ShrXor(x, x1, k);
    var z := Xor(Xor(x, x1), x2);
    ShrXor(Xor(x, x1), x2, k);
    assert Shr(z, k) == Xor(Xor(x1, x2), 0) == Xor(x1, x2);
    XorAssociates(x, x1, x2);
    XorCancels(x, Xor(x1, x2));
  }

  /** A shift of at least 22 bits is undone by two more terms. */
  lemma XorShiftUndone(x: U64, k: nat)
    requires 3 * k >= 64
    ensures UnxorShift(XorShift(x, k), k) == x
    ensures XorShift(UnxorShift(x, k), k) == x
  {
    hide XorShift, UnxorShift;
    UnxorAfter(x, k);
    XorAfter(x, k);
  }

  // --- wrapping arithmetic --------------------------------------------------------------

  lemma Residue(v: int, x: U64, t: int)
    requires v == x + t * WORD
    ensures v % WORD == x
  {}

  lemma AddUndone(x: U64, g: U64)
    ensures WrappingAdd(WrappingAdd(x, g), (WORD - g) % WORD) == x
    ensures WrappingAdd(WrappingAdd(x, (WORD - g) % WORD), g) == x
  {
    var h := (WORD - g) % WORD;
    Residue(x + g + h - (x + g) / WORD * WORD, x, (if g == 0 then 0 else 1) - (x + g) / WORD);
    Residue(x + h + g - (x + h) / WORD * WORD, x, (if g == 0 then 0 else 1) - (x + h) / WORD);
  }

  /** Multiplying by `m`, then by a `w` with `m * w = 1` modulo 2^64. */
  lemma MulUndone(x: U64, m: U64, w: U64, k: nat)
    requires m * w == 1 + k * WORD
    ensures WrappingMul(WrappingMul(x, m), w) == x
  {
    var p := x * m;
    var q, r := p / WORD, p % WORD;
    assert r * w == x + (x * k - q * w) * WORD by {
      assert r == p - q * WORD;
      assert r * w == p * w - q * WORD * w;
      assert p * w == x * (m * w);
      assert x * (1 + k * WORD) == x + x * k * WORD;
      assert q * WORD * w == q * w * WORD;
      assert (x * k - q * w) * WORD == x * k * WORD - q * w * WORD;
    }
    Residue(r * w, x, x * k - q * w);
  }

  // --- the finalizer -----------------------------------------------------------------------

  const GAMMA: U64 := 0x9E37_79B9_7F4A_7C15
  const M1: U64 := 0xBF58_476D_1CE4_E5B9
  const M2: U64 := 0x94D0_49BB_1331_11EB
  // The inverses of M1 and M2 modulo 2^64.
  const W1: U64 := 0x96DE_1B17_3F11_9089
  const W2: U64 := 0x3196_42B2_D24D_8EC3

  function Mix64(x: U64): U64 {
    XorShift(WrappingMul(XorShift(WrappingMul(XorShift(WrappingAdd(x, GAMMA), 30), M1), 27), M2), 31)
  }

  function Unmix64(y: U64): U64 {
    WrappingAdd(UnxorShift(WrappingMul(UnxorShift(WrappingMul(UnxorShift(y, 31), W2), 27), W1), 30), WORD - GAMMA)
  }

  method ComputeMix64(seed: U64) returns (x: U64)
    ensures x == Mix64(seed)
    ensures Unmix64(x) == seed
  {
    x := seed;
    x := WrappingAdd(x, GAMMA);
    x := WrappingMul(XorShift(x, 30), M1);
    x := WrappingMul(XorShift(x, 27), M2);
    x := XorShift(x, 31);
    MixIsBijective(seed);
  }

  lemma MulM1Undone(x: U64)
    ensures WrappingMul(WrappingMul(x, M1), W1) == x && WrappingMul(WrappingMul(x, W1), M1) == x
  {
    MulUndone(x, M1, W1, M1 * W1 / WORD);
    MulUndone(x, W1, M1, M1 * W1 / WORD);
  }

  lemma MulM2Undone(x: U64)
    ensures WrappingMul(WrappingMul(x, M2), W2) == x && WrappingMul(WrappingMul(x, W2), M2) == x
  {
    MulUndone(x, M2, W2, M2 * W2 / WORD);
    MulUndone(x, W2, M2, M2 * W2 / WORD);
  }

  // --- what the operators mean --------------------------------------------------------------

  /** Bit `k` of a number. */
  function Bit(a: nat, k: nat): nat {
    a / Pow2(k) % 2
  }

  lemma BitOfHalf(a: nat, k: nat)
    ensures Bit(a, 0) == a % 2
    ensures Bit(a, k + 1) == Bit(a / 2, k)
  {
    DivTwice(a, Pow2(k));
  }

  /** Exclusive or is bitwise: each bit of the result is the sum of the two bits
      modulo 2. */
  lemma {:induction false} XorIsBitwise(a: nat, b: nat, k: nat)
    ensures Bit(Xor(a, b), k) == (Bit(a, k) + Bit(b, k)) % 2
    decreases k
  {
    hide Bit, Xor;
    XorStep(a, b);
    if k == 0 {
      BitOfHalf(a, 0);
      BitOfHalf(b, 0);
      BitOfHalf(Xor(a, b), 0);
    } else {
      XorIsBitwise(a / 2, b / 2, k - 1);
      BitOfHalf(a, k - 1);
      BitOfHalf(b, k - 1);
      BitOfHalf(Xor(a, b), k - 1);
    }
  }

  lemma DivTwice(a: nat, m: nat)
    requires m > 0
    ensures a / (2 * m) == a / 2 / m
  {
    var q, r := a / 2 / m, a / 2 % m;
    assert a / 2 == q * m + r;
    assert a == q * (2 * m) + (2 * r + a % 2);
    assert 0 <= 2 * r + a % 2 < 2 * m;
    QuotientIs(a, 2 * m, q, 2 * r + a % 2);
  }

  lemma QuotientIs(a: nat, m: nat, q: nat, r: nat)
    requires m > 0 && a == q * m + r && r < m
    ensures a / m == q
  {
    var d := a / m - q;
    assert a / m * m + a % m == a;
    assert d * m == r - a % m;
    assert d >= 1 ==> d * m >= m;
    assert d <= -1 ==> d * m + m <= 0;
  }

  /** Shifting right divides by the power of two. */
  lemma {:induction false} ShrDivides(a: nat, k: nat)
    ensures Shr(a, k) == a / Pow2(k)
    decreases k
  {
    if k > 0 {
      ShrDivides(a / 2, k - 1);
      DivTwice(a, Pow2(k - 1));
    }
  }

  /** Rotating by 32 bits swaps the halves of the word. */
  lemma RotateSwapsHalves(high: U32, low: U32)
    ensures RotateHalf(high * 0x1_0000_0000 + low) == low * 0x1_0000_0000 + high
  {}

  lemma ShiftAmounts(x: nat)
    ensures Shr(x, 30) == x / 0x4000_0000 && Shr(x, 27) == x / 0x800_0000 && Shr(x, 31) == x / 0x8000_0000
  {
    hide Shr, Pow2;
    ShrDivides(x, 27);
    ShrDivides(x, 30);
    ShrDivides(x, 31);
    ShiftPowers();
  }

  lemma ShiftPowers()
    ensures Pow2(27) == 0x800_0000 && Pow2(30) == 0x4000_0000 && Pow2(31) == 0x8000_0000
  {
    assert Pow2(9) == 0x200 && Pow2(3) == 8 && Pow2(1) == 2;
    hide Pow2;
    Pow2Sum(9, 9);
    Pow2Sum(18, 9);
    Pow2Sum(27, 3);
    Pow2Sum(30, 1);
  }

  /** The finalizer with its constants written out. */
  lemma MixWrittenOut(x: U64)
    ensures
      var a := (x + 0x9E37_79B9_7F4A_7C15) % 0x1_0000_0000_0000_0000;
      var b := Xor(a, a / 0x4000_0000) * 0xBF58_476D_1CE4_E5B9 % 0x1_0000_0000_0000_0000;
      var c := Xor(b, b / 0x800_0000) * 0x94D0_49BB_1331_11EB % 0x1_0000_0000_0000_0000;
      Mix64(x) == Xor(c, c / 0x8000_0000)
  {
    hide Xor, Shr;
    var a := WrappingAdd(x, GAMMA);
    var b := WrappingMul(XorShift(a, 30), M1);
    var c := WrappingMul(XorShift(b, 27), M2);
    ShiftAmounts(a);
    ShiftAmounts(b);
    ShiftAmounts(c);
  }

  /** `mix64` is a bijection on 64-bit words, `Unmix64` its inverse on both sides. */
  lemma MixIsBijective(x: U64)
    ensures Unmix64(Mix64(x)) == x
    ensures Mix64(Unmix64(x)) == x
  {
    hide WrappingMul, WrappingAdd, XorShift, UnxorShift;
    var a := XorShift(WrappingAdd(x, GAMMA), 30);
    var b := XorShift(WrappingMul(a, M1), 27);
    AddUndone(x, GAMMA);
    XorShiftUndone(WrappingAdd(x, GAMMA), 30);
    MulM1Undone(a);
    XorShiftUndone(WrappingMul(a, M1), 27);
    MulM2Undone(b);
    XorShiftUndone(WrappingMul(b, M2), 31);

    var c := UnxorShift(x, 31);
    var d := UnxorShift(WrappingMul(c, W2), 27);
    var e := UnxorShift(WrappingMul(d, W1), 30);
    XorShiftUndone(x, 31);
    MulM2Undone(c);
    XorShiftUndone(WrappingMul(c, W2), 27);
    MulM1Undone(d);
    XorShiftUndone(WrappingMul(d, W1), 30);
    AddUndone(e, GAMMA);
  }

  // --- seeds ---------------------------------------------------------------------------------

  /** The clock's contribution: seconds and sub-second nanoseconds. */
  function ClockTerm(seconds: U64, nanos: U32): U64 {
    XorWord(nanos, seconds);
    Xor(nanos, seconds)
  }

  /** `seed_for`: the id's hash, rotated by half a word, folded with the clock. */
  function SeedFor(idHash: U64, clock: U64): U64 {
    XorWord(RotateHalf(idHash), Mix64(clock));
    Mix64(Xor(RotateHalf(idHash), Mix64(clock)))
  }

  lemma MixInjective(a: U64, b: U64)
    ensures Mix64(a) == Mix64(b) <==> a == b
  {
    hide Mix64, Unmix64;
    MixIsBijective(a);
    MixIsBijective(b);
  }

  lemma RotateInjective(a: U64, b: U64)
    ensures RotateHalf(a) == RotateHalf(b) <==> a == b
  {
    var x, y := a / 0x1_0000_0000, b / 0x1_0000_0000;
    assert RotateHalf(a) % 0x1_0000_0000 == x && RotateHalf(b) % 0x1_0000_0000 == y;
    assert RotateHalf(a) / 0x1_0000_0000 == a % 0x1_0000_0000 && RotateHalf(b) / 0x1_0000_0000 == b % 0x1_0000_0000;
  }

  lemma XorInjective(a: nat, b: nat, c: nat)
    ensures Xor(a, c) == Xor(b, c) <==> a == b
  {
    XorCancels(a, c);
    XorCancels(b, c);
  }

  /** The seed written out: the finalizer over the id's hash with its halves swapped,
      exclusive-or'd with the finalizer over the nanoseconds exclusive-or'd with
      the seconds. */
  lemma SeedWrittenOut(high: U32, low: U32, seconds: U64, nanos: U32)
    ensures SeedFor(high * 0x1_0000_0000 + low, ClockTerm(seconds, nanos)) ==
      Mix64(SeedXor(low * 0x1_0000_0000 + high, Mix64(SeedXor(nanos, seconds))))
  {
    hide Xor, Mix64;
    RotateSwapsHalves(high, low);
  }

  // Exclusive or of two words.
  function SeedXor(a: U64, b: U64): U64 {
    XorWord(a, b);
    Xor(a, b)
  }

  /** For one id two seeds are equal exactly when their clock terms are, and for
      one clock term exactly when the id hashes are. */
  lemma SeedInjective(h1: U64, h2: U64, c1: U64, c2: U64)
    ensures SeedFor(h1, c1) == SeedFor(h1, c2) <==> c1 == c2
    ensures SeedFor(h1, c1) == SeedFor(h2, c1) <==> h1 == h2
  {
    hide Mix64, RotateHalf, Xor;
    var r1, r2, m1, m2 := RotateHalf(h1), RotateHalf(h2), Mix64(c1), Mix64(c2);
    XorWord(r1, m1);
    XorWord(r1, m2);
    XorWord(r2, m1);
    MixInjective(Xor(r1, m1), Xor(r1, m2));
    MixInjective(Xor(r1, m1), Xor(r2, m1));
    XorCommutes(r1, m1);
    XorCommutes(r1, m2);
    XorInjective(m1, m2, r1);
    MixInjective(c1, c2);
    XorInjective(r1, r2, m1);
    RotateInjective(h1, h2);
  }

  /** Two retries of one event within a second at different nanoseconds draw
      their jitter from different seeds. */
  lemma RetriesInOneSecondDiffer(idHash: U64, seconds: U64, n1: U32, n2: U32)
    requires n1 != n2
    ensures SeedFor(idHash, ClockTerm(seconds, n1)) != SeedFor(idHash, ClockTerm(seconds, n2))
  {
    hide SeedFor;
    SeedInjective(idHash, idHash, ClockTerm(seconds, n1), ClockTerm(seconds, n2));
    XorInjective(n1, n2, seconds);
  }
}
