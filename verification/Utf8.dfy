/** UTF-8 well-formedness (section 4 of RFC 3629) and truncation on a
    character boundary. */
module Utf8 {
  import opened Base

  predicate Continuation(b: Byte) {
    0x80 <= b <= 0xBF
  }

  /** The length of the well-formed character at the head of `s`; 0 if there
      is none. */
  function CharLen(s: Bytes): (n: nat)
    ensures n <= 4 && n <= |s|
  {
    if s == [] then 0
    else if s[0] <= 0x7F then 1
    else if 0xC2 <= s[0] <= 0xDF then
      if |s| >= 2 && Continuation(s[1]) then 2 else 0
    else if 0xE0 <= s[0] <= 0xEF then
      if |s| >= 3 && SecondOfThree(s[0], s[1]) && Continuation(s[2]) then 3 else 0
    else if 0xF0 <= s[0] <= 0xF4 then
      if |s| >= 4 && SecondOfFour(s[0], s[1]) && Continuation(s[2]) && Continuation(s[3]) then 4 else 0
    else 0
  }

  // No overlong three-byte form and no surrogate.
  predicate SecondOfThree(lead: Byte, b: Byte) {
    if lead == 0xE0 then 0xA0 <= b <= 0xBF
    else if lead == 0xED then 0x80 <= b <= 0x9F
    else Continuation(b)
  }

  // No overlong four-byte form and nothing above U+10FFFF.
  predicate SecondOfFour(lead: Byte, b: Byte) {
    if lead == 0xF0 then 0x90 <= b <= 0xBF
    else if lead == 0xF4 then 0x80 <= b <= 0x8F
    else Continuation(b)
  }

  predicate Valid(s: Bytes) {
    s == [] || (CharLen(s) > 0 && Valid(s[CharLen(s)..]))
  }

  type Str = s: Bytes | Valid(s) witness []

  /** `str::is_char_boundary`. */
  predicate IsCharBoundary(s: Bytes, i: nat) {
    i == 0 || i == |s| || (i < |s| && !Continuation(s[i]))
  }

  // --- what is valid: encoded scalar values ---------------------------------

  /** A Unicode scalar value: a code point that is no surrogate. */
  type Scalar = c: int | 0 <= c < 0xD800 || 0xE000 <= c < 0x11_0000

  /** The encoding table of section 3 of RFC 3629. */
  function EncodeScalar(c: Scalar): (b: Bytes)
    ensures 1 <= |b| <= 4
  {
    if c < 0x80 then [c as Byte]
    else if c < 0x800 then [(0xC0 + c / 0x40) as Byte, Trail(c)]
    else if c < 0x1_0000 then [(0xE0 + c / 0x1000) as Byte, Trail(c / 0x40), Trail(c)]
    else [(0xF0 + c / 0x4_0000) as Byte, Trail(c / 0x1000), Trail(c / 0x40), Trail(c)]
  }

  // The last six bits after the bits 10.
  function Trail(c: nat): Byte {
    (0x80 + c % 0x40) as Byte
  }

  function EncodeText(cs: seq<Scalar>): Bytes {
    if cs == [] then [] else EncodeScalar(cs[0]) + EncodeText(cs[1..])
  }

  lemma HeadOfScalar(c: Scalar, rest: Bytes)
    ensures CharLen(EncodeScalar(c) + rest) == |EncodeScalar(c)|
  {
    var s := EncodeScalar(c) + rest;
    assert forall i | 0 <= i < |EncodeScalar(c)| :: s[i] == EncodeScalar(c)[i];
    if 0x800 <= c < 0x1_0000 {
      assert c / 0x40 == c / 0x1000 * 0x40 + c / 0x40 % 0x40;
    } else if 0x1_0000 <= c {
      assert c / 0x1000 == c / 0x4_0000 * 0x40 + c / 0x1000 % 0x40;
    }
  }

  function Low(b: Byte): nat {
    b as int % 0x40
  }

  lemma TwoByteScalar(s: Bytes)
    requires CharLen(s) == 2
    ensures exists c: Scalar :: EncodeScalar(c) == s[..2]
  {
    var c := (s[0] as int - 0xC0) * 0x40 + Low(s[1]);
    assert c / 0x40 == s[0] as int - 0xC0 && c % 0x40 == Low(s[1]);
    assert EncodeScalar(c) == [s[0], s[1]] == s[..2];
  }

  lemma ThreeByteScalar(s: Bytes)
    requires CharLen(s) == 3
    ensures exists c: Scalar :: EncodeScalar(c) == s[..3]
  {
    var d := (s[0] as int - 0xE0) * 0x40 + Low(s[1]);
    var c := d * 0x40 + Low(s[2]);
    assert c / 0x40 == d && c % 0x40 == Low(s[2]) && d % 0x40 == Low(s[1]) && d / 0x40 == s[0] as int - 0xE0;
    assert c / 0x1000 == d / 0x40;
    assert EncodeScalar(c) == [s[0], s[1], s[2]] == s[..3];
  }

  lemma FourByteScalar(s: Bytes)
    requires CharLen(s) == 4
    ensures exists c: Scalar :: EncodeScalar(c) == s[..4]
  {
    var e := (s[0] as int - 0xF0) * 0x40 + Low(s[1]);
    var d := e * 0x40 + Low(s[2]);
    var c := d * 0x40 + Low(s[3]);
    assert c / 0x40 == d && c % 0x40 == Low(s[3]) && d / 0x40 == e && d % 0x40 == Low(s[2]);
    assert e / 0x40 == s[0] as int - 0xF0 && e % 0x40 == Low(s[1]);
    assert c / 0x1000 == e && c / 0x4_0000 == e / 0x40;
    assert EncodeScalar(c) == [s[0], s[1], s[2], s[3]] == s[..4];
  }

  lemma ScalarOfHead(s: Bytes) returns (c: Scalar)
    requires CharLen(s) > 0
    ensures EncodeScalar(c) == s[..CharLen(s)]
  {
    if CharLen(s) == 1 {
      c := s[0] as int;
    } else if CharLen(s) == 2 {
      TwoByteScalar(s);
      c :| EncodeScalar(c) == s[..2];
    } else if CharLen(s) == 3 {
      ThreeByteScalar(s);
      c :| EncodeScalar(c) == s[..3];
    } else {
      FourByteScalar(s);
      c :| EncodeScalar(c) == s[..4];
    }
  }

  lemma {:induction false} EncodedIsValid(cs: seq<Scalar>)
    ensures Valid(EncodeText(cs))
  {
    hide EncodeScalar, CharLen;
    if cs != [] {
      HeadOfScalar(cs[0], EncodeText(cs[1..]));
      EncodedIsValid(cs[1..]);
      assert EncodeText(cs)[|EncodeScalar(cs[0])|..] == EncodeText(cs[1..]);
    }
  }

  lemma {:induction false} ValidIsEncoded(s: Bytes) returns (cs: seq<Scalar>)
    requires Valid(s)
    ensures EncodeText(cs) == s
  {
    hide EncodeScalar, CharLen;
    if s == [] {
      cs := [];
    } else {
      var n := CharLen(s);
      var c := ScalarOfHead(s);
      var rest := ValidIsEncoded(s[n..]);
      cs := [c] + rest;
      assert cs[1..] == rest && s == s[..n] + s[n..];
    }
  }

  /** The accepted byte strings are exactly the encodings of sequences of Unicode
      scalar values. */
  lemma ValidExactlyEncodings(s: Bytes)
    ensures Valid(s) <==> exists cs: seq<Scalar> :: EncodeText(cs) == s
  {
    if Valid(s) {
      var cs := ValidIsEncoded(s);
    }
    if cs: seq<Scalar> :| EncodeText(cs) == s {
      EncodedIsValid(cs);
    }
  }

  // --- boundaries of a valid string are its valid prefixes ----------------

  lemma CharShape(s: Bytes)
    requires CharLen(s) > 0
    ensures !Continuation(s[0])
    ensures forall j | 0 < j < CharLen(s) :: Continuation(s[j])
  {}

  lemma PrefixChar(s: Bytes, n: nat)
    requires CharLen(s) > 0 && 0 < n <= |s|
    ensures CharLen(s[..n]) == if n < CharLen(s) then 0 else CharLen(s)
  {}

  /** In a valid string, a cut is on a boundary exactly when what precedes it
      is valid, and then what follows is valid too. */
  lemma {:induction false} BoundaryIsValidPrefix(s: Bytes, i: nat)
    requires Valid(s) && i <= |s|
    ensures IsCharBoundary(s, i) <==> Valid(s[..i])
    ensures IsCharBoundary(s, i) ==> Valid(s[i..])
  {
    if 0 < i {
      var k := CharLen(s);
      CharShape(s);
      PrefixChar(s, i);
      if k <= i {
        BoundaryIsValidPrefix(s[k..], i - k);
        assert s[..i][k..] == s[k..][..i - k];
        assert s[k..][i - k..] == s[i..];
        if i - k == 0 && i < |s| {
          CharShape(s[k..]);
        }
      }
    }
  }

  /** Any four consecutive cuts of a valid string include a boundary. */
  lemma {:induction false} BoundaryWithinFour(s: Bytes, i: nat)
    requires Valid(s) && 3 <= i <= |s|
    ensures exists j :: i - 3 <= j <= i && IsCharBoundary(s, j)
  {
    var k := CharLen(s);
    if i < k {
      assert IsCharBoundary(s, 0);
    } else if i - k < 3 {
      CharShape(s);
      if k < |s| {
        CharShape(s[k..]);
      }
      assert IsCharBoundary(s, k);
    } else {
      BoundaryWithinFour(s[k..], i - k);
      var j :| i - k - 3 <= j <= i - k && IsCharBoundary(s[k..], j);
      if j == 0 && k < |s| {
        CharShape(s[k..]);
      }
      assert IsCharBoundary(s, j + k);
    }
  }
}
