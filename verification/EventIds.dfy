/** Event ids: sixteen bytes, and the hyphenated lower-case text
    (section 4 of RFC 9562) under which the SQL stores key their rows. */
module EventIds {
  import opened Base
  import opened Ordering

  type EventId = b: Bytes | |b| == 16 witness seq(16, _ => 0)

  const HYPHEN: Byte := 45

  function HexDigit(n: int): Byte
    requires 0 <= n < 16
  {
    if n < 10 then (48 + n) as Byte else (87 + n) as Byte
  }

  function HexByte(b: Byte): Bytes {
    [HexDigit(b as int / 16), HexDigit(b as int % 16)]
  }

  function Hex(b: Bytes): (t: Bytes)
    ensures |t| == 2 * |b|
  {
    if b == [] then [] else HexByte(b[0]) + Hex(b[1..])
  }

  /** The groups of 4, 2, 2, 2 and 6 bytes joined by hyphens. */
  function Hyphenated(id: EventId): (t: Bytes)
    ensures |t| == 36
  {
    Hex(id[..4]) + ([HYPHEN] + TextFrom4(id))
  }

  // The text of bytes 4.., 6.. and 8.. of an id.
  function TextFrom4(id: EventId): (t: Bytes)
    ensures |t| == 27
  {
    Hex(id[4..6]) + ([HYPHEN] + TextFrom6(id))
  }

  function TextFrom6(id: EventId): (t: Bytes)
    ensures |t| == 22
  {
    Hex(id[6..8]) + ([HYPHEN] + TextFrom8(id))
  }

  function TextFrom8(id: EventId): (t: Bytes)
    ensures |t| == 17
  {
    Hex(id[8..10]) + ([HYPHEN] + Hex(id[10..]))
  }

  // --- order ---------------------------------------------------------------

  lemma HexByteOrder(a: Byte, b: Byte)
    ensures LexLess(HexByte(a), HexByte(b)) <==> a < b
    ensures HexByte(a) == HexByte(b) ==> a == b
  {
    var x, y := HexByte(a), HexByte(b);
    assert LexLess(x[1..], y[1..]) <==> x[1] < y[1];
    assert a as int == a as int / 16 * 16 + a as int % 16;
    assert b as int == b as int / 16 * 16 + b as int % 16;
  }

  lemma ConsOrder(a: Byte, x: Bytes, b: Byte, y: Bytes)
    ensures LexLess([a] + x, [b] + y) <==> a < b || (a == b && LexLess(x, y))
    ensures [a] + x == [b] + y <==> a == b && x == y
  {
    assert ([a] + x)[1..] == x && ([b] + y)[1..] == y;
  }

  lemma PairOrder(a: Byte, x: Bytes, b: Byte, y: Bytes)
    ensures LexLess(HexByte(a) + x, HexByte(b) + y) <==> a < b || (a == b && LexLess(x, y))
    ensures HexByte(a) + x == HexByte(b) + y ==> a == b && x == y
  {
    HexByteOrder(a, b);
    LexAppend(HexByte(a), x, HexByte(b), y);
    hide HexDigit;
    var p, q := HexByte(a) + x, HexByte(b) + y;
    assert p[..2] == HexByte(a) && p[2..] == x && q[..2] == HexByte(b) && q[2..] == y;
  }

  lemma {:induction false} HexOrder(a: Bytes, b: Bytes)
    requires |a| == |b|
    ensures LexLess(Hex(a), Hex(b)) <==> LexLess(a, b)
    ensures Hex(a) == Hex(b) ==> a == b
  {
    if a != [] {
      hide Hex, HexByte, LexLess;
      HexOrder(a[1..], b[1..]);
      PairOrder(a[0], Hex(a[1..]), b[0], Hex(b[1..]));
      ConsOrder(a[0], a[1..], b[0], b[1..]);
      HexOfCons(a[0], a[1..]);
      HexOfCons(b[0], b[1..]);
      assert a == [a[0]] + a[1..] && b == [b[0]] + b[1..];
    }
  }

  // One group of the text, then a rest that already compares like the bytes.
  lemma GroupOrder(a: Bytes, x: Bytes, b: Bytes, y: Bytes, restA: Bytes, restB: Bytes)
    requires |a| == |b|
    requires LexLess(x, y) <==> LexLess(restA, restB)
    requires x == y ==> restA == restB
    ensures LexLess(Hex(a) + x, Hex(b) + y) <==> LexLess(a + restA, b + restB)
    ensures Hex(a) + x == Hex(b) + y ==> a + restA == b + restB
  {
    HexOrder(a, b);
    LexAppend(Hex(a), x, Hex(b), y);
    LexAppend(a, restA, b, restB);
    assert (Hex(a) + x)[..2 * |a|] == Hex(a) && (Hex(b) + y)[..2 * |b|] == Hex(b);
    assert (Hex(a) + x)[2 * |a|..] == x && (Hex(b) + y)[2 * |b|..] == y;
  }

  lemma HyphenGroupOrder(a: Bytes, x: Bytes, b: Bytes, y: Bytes, restA: Bytes, restB: Bytes)
    requires |a| == |b|
    requires LexLess(x, y) <==> LexLess(restA, restB)
    requires x == y ==> restA == restB
    ensures LexLess(Hex(a) + ([HYPHEN] + x), Hex(b) + ([HYPHEN] + y)) <==> LexLess(a + restA, b + restB)
    ensures Hex(a) + ([HYPHEN] + x) == Hex(b) + ([HYPHEN] + y) ==> a + restA == b + restB
  {
    LexAppend([HYPHEN], x, [HYPHEN], y);
    assert ([HYPHEN] + x)[1..] == x && ([HYPHEN] + y)[1..] == y;
    GroupOrder(a, [HYPHEN] + x, b, [HYPHEN] + y, restA, restB);
  }

  lemma TextFrom8Order(a: EventId, b: EventId)
    ensures LexLess(TextFrom8(a), TextFrom8(b)) <==> LexLess(a[8..], b[8..])
    ensures TextFrom8(a) == TextFrom8(b) ==> a[8..] == b[8..]
  {
    HexOrder(a[10..], b[10..]);
    HyphenGroupOrder(a[8..10], Hex(a[10..]), b[8..10], Hex(b[10..]), a[10..], b[10..]);
    assert a[8..10] + a[10..] == a[8..] && b[8..10] + b[10..] == b[8..];
  }

  lemma TextFrom6Order(a: EventId, b: EventId)
    ensures LexLess(TextFrom6(a), TextFrom6(b)) <==> LexLess(a[6..], b[6..])
    ensures TextFrom6(a) == TextFrom6(b) ==> a[6..] == b[6..]
  {
    TextFrom8Order(a, b);
    HyphenGroupOrder(a[6..8], TextFrom8(a), b[6..8], TextFrom8(b), a[8..], b[8..]);
    assert a[6..8] + a[8..] == a[6..] && b[6..8] + b[8..] == b[6..];
  }

  lemma TextFrom4Order(a: EventId, b: EventId)
    ensures LexLess(TextFrom4(a), TextFrom4(b)) <==> LexLess(a[4..], b[4..])
    ensures TextFrom4(a) == TextFrom4(b) ==> a[4..] == b[4..]
  {
    TextFrom6Order(a, b);
    HyphenGroupOrder(a[4..6], TextFrom6(a), b[4..6], TextFrom6(b), a[6..], b[6..]);
    assert a[4..6] + a[6..] == a[4..] && b[4..6] + b[6..] == b[4..];
  }

  /** Text order of ids is byte order, and the text determines the id: the SQL
      stores' `ORDER BY next_attempt_at, id` is the memory store's `Ord`. */
  lemma HyphenatedOrder(a: EventId, b: EventId)
    ensures LexLess(Hyphenated(a), Hyphenated(b)) <==> LexLess(a, b)
    ensures Hyphenated(a) == Hyphenated(b) ==> a == b
  {
    TextFrom4Order(a, b);
    HyphenGroupOrder(a[..4], TextFrom4(a), b[..4], TextFrom4(b), a[4..], b[4..]);
    assert a[..4] + a[4..] == a && b[..4] + b[4..] == b;
  }

  // --- parsing the hyphenated form back ------------------------------------

  function DigitValue(c: Byte): (r: Option<int>)
    ensures r.Some? ==> 0 <= r.value < 16
  {
    if 48 <= c <= 57 then Some(c as int - 48)
    else if 97 <= c <= 102 then Some(c as int - 87)
    else if 65 <= c <= 70 then Some(c as int - 55)
    else None
  }

  function Unhex(t: Bytes): (r: Option<Bytes>)
    ensures r.Some? ==> |t| == 2 * |r.value|
  {
    if t == [] then Some([])
    else if |t| == 1 then None
    else
      match (DigitValue(t[0]), DigitValue(t[1]), Unhex(t[2..]))
      case (Some(h), Some(l), Some(rest)) => Some([(16 * h + l) as Byte] + rest)
      case _ => None
  }

  /** `EventId::parse` on the hyphenated form (either letter case). */
  function Parse(t: Bytes): Option<EventId> {
    if |t| == 36 && t[8] == t[13] == t[18] == t[23] == HYPHEN then
      match Unhex(t[..8] + t[9..13] + t[14..18] + t[19..23] + t[24..])
      case Some(id) => Some(id)
      case None => None
    else None
  }

  lemma {:induction false} UnhexHex(b: Bytes)
    ensures Unhex(Hex(b)) == Some(b)
  {
    if b != [] {
      UnhexHex(b[1..]);
      assert Hex(b)[2..] == Hex(b[1..]);
      assert b == [b[0]] + b[1..];
    }
  }

  lemma {:induction false} HexAppend(a: Bytes, b: Bytes)
    ensures Hex(a + b) == Hex(a) + Hex(b)
  {
    if a == [] {
      assert a + b == b;
    } else {
      HexAppend(a[1..], b);
      assert (a + b)[1..] == a[1..] + b;
    }
  }

  lemma Front(a: Bytes, h: Byte, rest: Bytes)
    ensures var t := a + ([h] + rest); t[..|a|] == a && t[|a|] == h && t[|a| + 1..] == rest
  {}

  lemma HyphenatedParts(id: EventId)
    ensures var t := Hyphenated(id);
      t[8] == t[13] == t[18] == t[23] == HYPHEN &&
      t[..8] == Hex(id[..4]) && t[9..13] == Hex(id[4..6]) && t[14..18] == Hex(id[6..8]) &&
      t[19..23] == Hex(id[8..10]) && t[24..] == Hex(id[10..])
  {
    hide Hex;
    var t, t4, t6, t8 := Hyphenated(id), TextFrom4(id), TextFrom6(id), TextFrom8(id);
    Front(Hex(id[..4]), HYPHEN, t4);
    Front(Hex(id[4..6]), HYPHEN, t6);
    Front(Hex(id[6..8]), HYPHEN, t8);
    Front(Hex(id[8..10]), HYPHEN, Hex(id[10..]));
    hide Hyphenated, TextFrom4, TextFrom6, TextFrom8;
    assert t[9..] == t4 && t4[5..] == t6 && t6[5..] == t8;
    assert t[14..] == t6 && t[19..] == t8;
    assert t[9..13] == t4[..4] && t[14..18] == t6[..4] && t[19..23] == t8[..4] && t[24..] == t8[5..];
    assert t[13] == t4[4] && t[18] == t6[4] && t[23] == t8[4];
  }

  lemma {:induction false} HexAt(b: Bytes, k: nat)
    requires k < |b|
    ensures Hex(b)[2 * k] == HexDigit(b[k] as int / 16) && Hex(b)[2 * k + 1] == HexDigit(b[k] as int % 16)
  {
    if k > 0 {
      HexAt(b[1..], k - 1);
      assert Hex(b)[2..] == Hex(b[1..]);
      assert Hex(b)[2 * k] == Hex(b[1..])[2 * (k - 1)] && Hex(b)[2 * k + 1] == Hex(b[1..])[2 * (k - 1) + 1];
    }
  }

  lemma DigitText(n: int)
    requires 0 <= n < 16
    ensures HexDigit(n) as int as char == "0123456789abcdef"[n]
  {}

  // Where the two digits of byte `k` stand.
  function Place(k: nat): nat {
    2 * k + if k < 4 then 0 else if k < 6 then 1 else if k < 8 then 2 else if k < 10 then 3 else 4
  }

  lemma DigitsAt(id: EventId, k: nat)
    requires k < 16
    ensures var t, p := Hyphenated(id), Place(k);
      t[p] == HexDigit(id[k] as int / 16) && t[p + 1] == HexDigit(id[k] as int % 16)
  {
    hide HexDigit, Hyphenated, Hex;
    HyphenatedParts(id);
    var t := Hyphenated(id);
    if k < 4 {
      HexAt(id[..4], k);
      assert t[..8][2 * k] == t[2 * k] && t[..8][2 * k + 1] == t[2 * k + 1];
    } else if k < 6 {
      HexAt(id[4..6], k - 4);
      assert t[9..13][2 * (k - 4)] == t[2 * k + 1] && t[9..13][2 * (k - 4) + 1] == t[2 * k + 2];
    } else if k < 8 {
      HexAt(id[6..8], k - 6);
      assert t[14..18][2 * (k - 6)] == t[2 * k + 2] && t[14..18][2 * (k - 6) + 1] == t[2 * k + 3];
    } else if k < 10 {
      HexAt(id[8..10], k - 8);
      assert t[19..23][2 * (k - 8)] == t[2 * k + 3] && t[19..23][2 * (k - 8) + 1] == t[2 * k + 4];
    } else {
      HexAt(id[10..], k - 10);
      assert t[24..][2 * (k - 10)] == t[2 * k + 4] && t[24..][2 * (k - 10) + 1] == t[2 * k + 5];
    }
  }

  lemma EveryPlace(i: nat) returns (k: nat)
    requires i < 36 && i != 8 && i != 13 && i != 18 && i != 23
    ensures k < 16 && (i == Place(k) || i == Place(k) + 1)
  {
    k := (if i < 8 then i else if i < 13 then i - 1 else if i < 18 then i - 2 else if i < 23 then i - 3 else i - 4) / 2;
  }

  /** The stored text: 36 characters, hyphens at 8, 13, 18 and 23, lower-case
      hexadecimal digits everywhere else, and byte `k` written high digit first. */
  lemma HyphenatedForm(id: EventId)
    ensures var t := Hyphenated(id);
      && |t| == 36 && t[8] == t[13] == t[18] == t[23] == 45
      && (forall i | 0 <= i < 36 && i != 8 && i != 13 && i != 18 && i != 23 :: 48 <= t[i] <= 57 || 97 <= t[i] <= 102)
      && forall k | 0 <= k < 16 ::
           var p := 2 * k + if k < 4 then 0 else if k < 6 then 1 else if k < 8 then 2 else if k < 10 then 3 else 4;
           t[p] as int as char == "0123456789abcdef"[id[k] as int / 16] &&
           t[p + 1] as int as char == "0123456789abcdef"[id[k] as int % 16]
  {
    hide Hyphenated;
    HyphenatedParts(id);
    var t := Hyphenated(id);
    forall i | 0 <= i < 36 && i != 8 && i != 13 && i != 18 && i != 23 ensures 48 <= t[i] <= 57 || 97 <= t[i] <= 102 {
      var k := EveryPlace(i);
      DigitsAt(id, k);
    }
    forall k | 0 <= k < 16
      ensures t[Place(k)] as int as char == "0123456789abcdef"[id[k] as int / 16] &&
              t[Place(k) + 1] as int as char == "0123456789abcdef"[id[k] as int % 16]
    {
      DigitsAt(id, k);
      DigitText(id[k] as int / 16);
      DigitText(id[k] as int % 16);
    }
  }

  /** Parsing undoes the text form. */
  lemma ParseHyphenated(id: EventId)
    ensures Parse(Hyphenated(id)) == Some(id)
  {
    HyphenatedParts(id);
    HexAppend(id[..4], id[4..6]);
    assert id[..4] + id[4..6] == id[..6];
    HexAppend(id[..6], id[6..8]);
    assert id[..6] + id[6..8] == id[..8];
    HexAppend(id[..8], id[8..10]);
    assert id[..8] + id[8..10] == id[..10];
    HexAppend(id[..10], id[10..]);
    assert id[..10] + id[10..] == id;
    UnhexHex(id);
  }

  // --- exactly which texts parse -----------------------------------------------------

  predicate HexChar(c: Byte) {
    48 <= c <= 57 || 97 <= c <= 102 || 65 <= c <= 70
  }

  predicate HexText(t: Bytes) {
    forall i | 0 <= i < |t| :: HexChar(t[i])
  }

  lemma HexTextSplit(t: Bytes)
    requires |t| >= 2
    ensures HexText(t) <==> HexChar(t[0]) && HexChar(t[1]) && HexText(t[2..])
  {
    hide HexChar;
    if HexChar(t[0]) && HexChar(t[1]) && HexText(t[2..]) {
      forall i | 0 <= i < |t| ensures HexChar(t[i]) {
        assert i >= 2 ==> t[i] == t[2..][i - 2];
      }
    }
    if HexText(t) {
      forall i | 0 <= i < |t[2..]| ensures HexChar(t[2..][i]) {
        assert t[2..][i] == t[i + 2];
      }
    }
  }

  function Lower(c: Byte): Byte {
    if 65 <= c <= 70 then c + 32 else c
  }

  /** The letters A to F in lower case. */
  function Lowered(t: Bytes): (r: Bytes)
    ensures |r| == |t|
    ensures forall i | 0 <= i < |t| :: r[i] == Lower(t[i])
  {
    seq(|t|, i requires 0 <= i < |t| => Lower(t[i]))
  }

  lemma LoweredAppend(a: Bytes, b: Bytes)
    ensures Lowered(a + b) == Lowered(a) + Lowered(b)
  {
    hide Lower;
  }

  lemma LoweredSlice(t: Bytes, i: nat, j: nat)
    requires i <= j <= |t|
    ensures Lowered(t)[i..j] == Lowered(t[i..j])
  {
    hide Lower;
  }

  lemma DigitOf(c: Byte)
    ensures DigitValue(c).Some? <==> HexChar(c)
    ensures DigitValue(c).Some? ==> HexDigit(DigitValue(c).value) == Lower(c)
  {}

  lemma TwoDigits(a: Byte, b: Byte)
    requires DigitValue(a).Some? && DigitValue(b).Some?
    ensures HexByte((16 * DigitValue(a).value + DigitValue(b).value) as Byte) == Lowered([a, b])
  {
    DigitOf(a);
    DigitOf(b);
    var n := 16 * DigitValue(a).value + DigitValue(b).value;
    assert n / 16 == DigitValue(a).value && n % 16 == DigitValue(b).value;
  }

  lemma {:induction false} UnhexExactly(t: Bytes)
    ensures Unhex(t).Some? <==> |t| % 2 == 0 && HexText(t)
    ensures Unhex(t).Some? ==> Hex(Unhex(t).value) == Lowered(t)
    decreases |t|
  {
    if |t| >= 2 {
      hide DigitValue, HexDigit, HexChar, HexText;
      UnhexExactly(t[2..]);
      DigitOf(t[0]);
      DigitOf(t[1]);
      HexTextSplit(t);
      if Unhex(t).Some? {
        TwoDigits(t[0], t[1]);
        UnhexFront(t);
        LoweredSplit(t);
      }
    }
  }

  lemma UnhexFront(t: Bytes)
    requires |t| >= 2 && Unhex(t).Some?
    ensures DigitValue(t[0]).Some? && DigitValue(t[1]).Some? && Unhex(t[2..]).Some?
    ensures Hex(Unhex(t).value) ==
            HexByte((16 * DigitValue(t[0]).value + DigitValue(t[1]).value) as Byte) + Hex(Unhex(t[2..]).value)
  {
    hide DigitValue, HexByte;
    var rest := Unhex(t[2..]).value;
    var head := (16 * DigitValue(t[0]).value + DigitValue(t[1]).value) as Byte;
    assert Unhex(t).value == [head] + rest;
    HexOfCons(head, rest);
  }

  lemma HexOfCons(b: Byte, rest: Bytes)
    ensures Hex([b] + rest) == HexByte(b) + Hex(rest)
  {
    assert ([b] + rest)[1..] == rest;
  }

  lemma LoweredSplit(t: Bytes)
    requires |t| >= 2
    ensures Lowered(t) == Lowered([t[0], t[1]]) + Lowered(t[2..])
  {
    hide Lower;
    LoweredAppend([t[0], t[1]], t[2..]);
    assert t == [t[0], t[1]] + t[2..];
  }

  predicate HyphenPlaces(t: Bytes) {
    |t| == 36 && t[8] == t[13] == t[18] == t[23] == HYPHEN
  }

  /** The text without its hyphens. */
  function Digits(t: Bytes): (r: Bytes)
    requires |t| == 36
    ensures |r| == 32
  {
    t[..8] + t[9..13] + t[14..18] + t[19..23] + t[24..]
  }

  lemma DigitsDetermine(t: Bytes, u: Bytes)
    requires HyphenPlaces(t) && HyphenPlaces(u) && Digits(t) == Digits(u)
    ensures t == u
  {
    var d, e := Digits(t), Digits(u);
    assert t[..8] == d[..8] == e[..8] == u[..8];
    assert t[9..13] == d[8..12] == e[8..12] == u[9..13];
    assert t[14..18] == d[12..16] == e[12..16] == u[14..18];
    assert t[19..23] == d[16..20] == e[16..20] == u[19..23];
    assert t[24..] == d[20..] == e[20..] == u[24..];
    assert t == t[..8] + [t[8]] + t[9..13] + [t[13]] + t[14..18] + [t[18]] + t[19..23] + [t[23]] + t[24..];
    assert u == u[..8] + [u[8]] + u[9..13] + [u[13]] + u[14..18] + [u[18]] + u[19..23] + [u[23]] + u[24..];
  }

  lemma DigitsOfText(id: EventId)
    ensures HyphenPlaces(Hyphenated(id)) && Digits(Hyphenated(id)) == Hex(id)
  {
    HyphenatedParts(id);
    HexAppend(id[..4], id[4..6]);
    assert id[..4] + id[4..6] == id[..6];
    HexAppend(id[..6], id[6..8]);
    assert id[..6] + id[6..8] == id[..8];
    HexAppend(id[..8], id[8..10]);
    assert id[..8] + id[8..10] == id[..10];
    HexAppend(id[..10], id[10..]);
    assert id[..10] + id[10..] == id;
  }

  lemma LowerDigits(t: Bytes)
    requires HyphenPlaces(t)
    ensures HyphenPlaces(Lowered(t)) && Digits(Lowered(t)) == Lowered(Digits(t))
  {
    hide Lowered;
    var p, q, r, x, y := t[..8], t[9..13], t[14..18], t[19..23], t[24..];
    LoweredSlice(t, 0, 8);
    LoweredSlice(t, 9, 13);
    LoweredSlice(t, 14, 18);
    LoweredSlice(t, 19, 23);
    LoweredSlice(t, 24, 36);
    LoweredAppend(p, q);
    LoweredAppend(p + q, r);
    LoweredAppend(p + q + r, x);
    LoweredAppend(p + q + r + x, y);
    assert t[0..8] == p && t[24..36] == y;
    assert Lowered(t)[0..8] == Lowered(t)[..8] && Lowered(t)[24..36] == Lowered(t)[24..];
  }

  /** Of the hyphenated form, exactly the texts of 36 characters with hyphens at 8, 13, 18 and 23 and
      hexadecimal digits of either case elsewhere parse, and each to the id whose
      text is its lower case. */
  lemma ParseExactly(t: Bytes)
    ensures Parse(t).Some? <==> HyphenPlaces(t) && HexText(Digits(t))
    ensures Parse(t).Some? ==> Lowered(t) == Hyphenated(Parse(t).value)
  {
    hide Unhex, Hex, Hyphenated, HexText, Lowered;
    if HyphenPlaces(t) {
      UnhexExactly(Digits(t));
      if Parse(t).Some? {
        var id := Parse(t).value;
        DigitsOfText(id);
        LowerDigits(t);
        DigitsDetermine(Lowered(t), Hyphenated(id));
      }
    }
  }
}
