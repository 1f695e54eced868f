/** The length-prefixed headers codec shared by the durable stores. */
module Codec {
  import opened Base
  import opened Ordering
  import opened Utf8
  import opened Events

  // --- little-endian u32 ----------------------------------------------------

  function ToLe(n: U32): (b: Bytes)
    ensures |b| == 4
  {
    var n1 := n / 256;
    var n2 := n1 / 256;
    [(n % 256) as Byte, (n1 % 256) as Byte, (n2 % 256) as Byte, (n2 / 256) as Byte]
  }

  function FromLe(b: Bytes): U32
    requires |b| == 4
  {
    b[0] as int + 256 * (b[1] as int + 256 * (b[2] as int + 256 * b[3] as int))
  }

  lemma LeRoundTrip(n: U32)
    ensures FromLe(ToLe(n)) == n
  {
    var n1 := n / 256;
    var n2 := n1 / 256;
    assert n == 256 * n1 + n % 256 && n1 == 256 * n2 + n1 % 256 && n2 == 256 * (n2 / 256) + n2 % 256;
  }

  lemma LeInverse(b: Bytes)
    requires |b| == 4
    ensures ToLe(FromLe(b)) == b
  {
    var n := FromLe(b);
    assert n / 256 == b[1] as int + 256 * (b[2] as int + 256 * b[3] as int);
    assert n / 256 / 256 == b[2] as int + 256 * b[3] as int;
    assert n / 256 / 256 / 256 == b[3] as int;
  }

  /** The number in the four bytes from `at` on, the least significant first. */
  function NumberAt(b: Bytes, at: nat): nat
    requires at + 4 <= |b|
  {
    b[at] as int + 0x100 * b[at + 1] as int + 0x1_0000 * b[at + 2] as int + 0x100_0000 * b[at + 3] as int
  }

  lemma LittleEndian(n: U32, b: Bytes)
    requires |b| == 4
    ensures b == ToLe(n) <==> n == NumberAt(b, 0)
    ensures FromLe(b) == NumberAt(b, 0)
  {
    LeRoundTrip(n);
    LeInverse(b);
  }

  // --- printing ---------------------------------------------------------------

  const TOO_MANY := "too many headers"
  const TOO_LONG := "header entry too long"
  const CORRUPT_BLOB := "corrupt headers blob"
  const CORRUPT_KEY := "corrupt header key"
  const CORRUPT_VALUE := "corrupt header value"

  predicate Fits(h: Header) {
    |h.key| <= U32_MAX && |h.value| <= U32_MAX
  }

  function Blob(b: Bytes): Bytes
    requires |b| <= U32_MAX
  {
    ToLe(|b|) + b
  }

  function EncodeEntry(h: Header): Bytes
    requires Fits(h)
  {
    Blob(h.key) + Blob(h.value)
  }

  function EncodeEntries(hs: seq<Header>): Bytes
    requires forall h | h in hs :: Fits(h)
  {
    if hs == [] then [] else EncodeEntry(hs[0]) + EncodeEntries(hs[1..])
  }

  /** The stored form of a header map, or the error of an unencodable one. */
  function Encode(hs: seq<Header>): Result<Bytes> {
    if |hs| > U32_MAX then Err(Backend(TOO_MANY))
    else if exists h | h in hs :: !Fits(h) then Err(Backend(TOO_LONG))
    else Ok(ToLe(|hs|) + EncodeEntries(hs))
  }

  lemma {:induction false} EncodeEntriesAppend(a: seq<Header>, b: seq<Header>)
    requires forall h | h in a + b :: Fits(h)
    ensures forall h | h in a :: Fits(h)
    ensures forall h | h in b :: Fits(h)
    ensures EncodeEntries(a + b) == EncodeEntries(a) + EncodeEntries(b)
  {
    hide EncodeEntry;
    assert forall h | h in a :: h in a + b;
    assert forall h | h in b :: h in a + b;
    if a == [] {
      assert a + b == b;
    } else {
      assert (a + b)[1..] == a[1..] + b && (a + b)[0] == a[0];
      EncodeEntriesAppend(a[1..], b);
      assert EncodeEntries(a + b) == EncodeEntry(a[0]) + (EncodeEntries(a[1..]) + EncodeEntries(b));
    }
  }

  ghost function FirstBlobs(blobs: seq<Bytes>, j: nat): Bytes
    requires j <= |blobs| == 2 && forall k | 0 <= k < j :: |blobs[k]| <= U32_MAX
  {
    if j == 0 then [] else if j == 1 then Blob(blobs[0]) else Blob(blobs[0]) + Blob(blobs[1])
  }

  lemma EncodeNext(hs: seq<Header>, i: nat)
    requires i < |hs| && Fits(hs[i]) && forall h | h in hs[..i] :: Fits(h)
    ensures forall h | h in hs[..i + 1] :: Fits(h)
    ensures EncodeEntries(hs[..i + 1]) == EncodeEntries(hs[..i]) + EncodeEntry(hs[i])
  {
    assert hs[..i + 1] == hs[..i] + [hs[i]];
    assert EncodeEntries([hs[i]]) == EncodeEntry(hs[i]);
    EncodeEntriesAppend(hs[..i], [hs[i]]);
  }

  method EncodeHeaders(headers: Headers) returns (r: Result<Bytes>)
    ensures r == Encode(headers)
  {
    hide ToLe, Valid;
    if |headers| > U32_MAX {
      return Err(Backend(TOO_MANY));
    }
    var out := ToLe(|headers|);
    for i := 0 to |headers|
      invariant forall h | h in headers[..i] :: Fits(h)
      invariant out == ToLe(|headers|) + EncodeEntries(headers[..i])
    {
      var blobs := [headers[i].key, headers[i].value];
      ghost var before := out;
      for j := 0 to 2
        invariant forall k | 0 <= k < j :: |blobs[k]| <= U32_MAX
        invariant out == before + FirstBlobs(blobs, j)
      {
        if |blobs[j]| > U32_MAX {
          assert headers[i] in headers && !Fits(headers[i]);
          return Err(Backend(TOO_LONG));
        }
        out := out + ToLe(|blobs[j]|);
        out := out + blobs[j];
      }
      EncodeNext(headers, i);
    }
    assert headers[..|headers|] == headers;
    r := Ok(out);
  }

  // --- parsing ----------------------------------------------------------------

  function ReadU32(s: Bytes): Result<(U32, Bytes)> {
    if |s| < 4 then Err(Backend(CORRUPT_BLOB)) else Ok((FromLe(s[..4]), s[4..]))
  }

  function ReadBlob(s: Bytes): Result<(Bytes, Bytes)> {
    var (len, rest) :- ReadU32(s);
    if |rest| < len then Err(Backend(CORRUPT_BLOB)) else Ok((rest[..len], rest[len..]))
  }

  function ReadEntry(s: Bytes): Result<(Header, Bytes)> {
    var (key, s1) :- ReadBlob(s);
    var (value, s2) :- ReadBlob(s1);
    if !Valid(key) then Err(Backend(CORRUPT_KEY))
    else if !Valid(value) then Err(Backend(CORRUPT_VALUE))
    else Ok((Header(key, value), s2))
  }

  /** `count` entries off the front of `s`, in the order they are stored. */
  function ReadEntries(s: Bytes, count: nat): (r: Result<(seq<Header>, Bytes)>)
    ensures r.Ok? ==> |r.value.0| == count && AllText(r.value.0)
    decreases count
  {
    if count == 0 then Ok(([], s))
    else
      var (h, s1) :- ReadEntry(s);
      var (hs, s2) :- ReadEntries(s1, count - 1);
      Ok(([h] + hs, s2))
  }

  function InsertAll(into: Headers, hs: seq<Header>): Headers
    requires AllText(hs)
    decreases |hs|
  {
    if hs == [] then into else InsertAll(InsertHeader(into, hs[0].key, hs[0].value), hs[1..])
  }

  function Decode(bytes: Bytes): Result<Headers> {
    var (count, s) :- ReadU32(bytes);
    var (hs, _) :- ReadEntries(s, count);
    Ok(InsertAll([], hs))
  }

  /** The `&mut &[u8]` cursor. */
  class Cursor {
    var rest: Bytes

    constructor (bytes: Bytes)
      ensures rest == bytes
    {
      rest := bytes;
    }

    method NextU32() returns (r: Result<U32>)
      modifies this
      ensures match ReadU32(old(rest))
        case Ok((n, after)) => r == Ok(n) && rest == after
        case Err(e) => r == Err(e) && rest == old(rest)
      ensures r.Ok? <==> |old(rest)| >= 4
      ensures r.Ok? ==> rest == old(rest)[4..] && r.value == NumberAt(old(rest), 0)
      ensures r.Err? ==> r == Err(Backend("corrupt headers blob"))
    {
      if |rest| < 4 {
        return Err(Backend(CORRUPT_BLOB));
      }
      var buffer := rest[..4];
      rest := rest[4..];
      r := Ok(FromLe(buffer));
    }

    // A blob that overruns leaves the cursor after its length prefix.
    method NextBlob() returns (r: Result<Bytes>)
      modifies this
      ensures match ReadBlob(old(rest))
        case Ok((b, after)) => r == Ok(b) && rest == after
        case Err(e) => r == Err(e) && rest == if |old(rest)| < 4 then old(rest) else old(rest)[4..]
      ensures r.Ok? <==> |old(rest)| >= 4 && |old(rest)| >= 4 + NumberAt(old(rest), 0)
      ensures r.Ok? ==> old(rest) == old(rest)[..4] + r.value + rest && |r.value| == NumberAt(old(rest), 0)
      ensures r.Err? ==> r == Err(Backend("corrupt headers blob"))
    {
      var len :- NextU32();
      if |rest| < len {
        return Err(Backend(CORRUPT_BLOB));
      }
      var bytes := rest[..len];
      rest := rest[len..];
      r := Ok(bytes);
    }
  }

  method DecodeHeaders(bytes: Bytes) returns (r: Result<Headers>)
    ensures r == Decode(bytes)
  {
    var cursor := new Cursor(bytes);
    var count :- cursor.NextU32();
    var headers: Headers := [];
    for i := 0 to count
      invariant Decode(bytes) == match ReadEntries(cursor.rest, count - i)
        case Ok((hs, _)) => Ok(InsertAll(headers, hs))
        case Err(e) => Err(e)
    {
      ghost var s := cursor.rest;
      var key :- cursor.NextBlob();
      var value :- cursor.NextBlob();
      if !Valid(key) {
        return Err(Backend(CORRUPT_KEY));
      }
      if !Valid(value) {
        return Err(Backend(CORRUPT_VALUE));
      }
      assert ReadEntry(s) == Ok((Header(key, value), cursor.rest));
      headers := InsertHeader(headers, key, value);
      if ReadEntries(cursor.rest, count - i - 1).Ok? {
        var hs := ReadEntries(cursor.rest, count - i - 1).value.0;
        assert ([Header(key, value)] + hs)[1..] == hs;
      }
    }
    r := Ok(headers);
  }

  // --- the round trip ------------------------------------------------------------

  lemma ReadBlobBack(b: Bytes, t: Bytes)
    requires |b| <= U32_MAX
    ensures ReadBlob(Blob(b) + t) == Ok((b, t))
  {
    var s := Blob(b) + t;
    LeRoundTrip(|b|);
    assert s[..4] == ToLe(|b|) && s[4..] == b + t;
    assert (b + t)[..|b|] == b && (b + t)[|b|..] == t;
  }

  lemma ReadEntryBack(h: Header, t: Bytes)
    requires Fits(h) && Valid(h.key) && Valid(h.value)
    ensures ReadEntry(EncodeEntry(h) + t) == Ok((h, t))
  {
    assert EncodeEntry(h) + t == Blob(h.key) + (Blob(h.value) + t);
    ReadBlobBack(h.key, Blob(h.value) + t);
    ReadBlobBack(h.value, t);
  }

  lemma FrontOfEntries(hs: seq<Header>, t: Bytes)
    requires hs != [] && forall h | h in hs :: Fits(h)
    ensures hs == [hs[0]] + hs[1..] && Fits(hs[0]) && forall h | h in hs[1..] :: Fits(h)
    ensures EncodeEntries(hs) + t == EncodeEntry(hs[0]) + (EncodeEntries(hs[1..]) + t)
  {
    hide EncodeEntry;
  }

  lemma {:induction false} ReadEntriesBack(hs: seq<Header>, t: Bytes)
    requires AllText(hs)
    requires forall h | h in hs :: Fits(h)
    ensures ReadEntries(EncodeEntries(hs) + t, |hs|) == Ok((hs, t))
  {
    if hs == [] {
      assert EncodeEntries(hs) + t == t;
    } else {
      hide ReadEntry, EncodeEntry, EncodeEntries, Fits, Valid;
      FrontOfEntries(hs, t);
      assert hs[0] in hs;
      ReadEntryBack(hs[0], EncodeEntries(hs[1..]) + t);
      ReadEntriesBack(hs[1..], t);
    }
  }

  lemma {:induction false} InsertAllAscending(into: Headers, hs: seq<Header>)
    requires Ascending(into + hs) && AllText(hs)
    ensures InsertAll(into, hs) == into + hs
    decreases |hs|
  {
    if hs == [] {
      assert into + hs == into;
    } else {
      var all := into + hs;
      assert hs[0] == all[|into|];
      forall x | x in into ensures LexLess(x.key, hs[0].key) {
        var i :| 0 <= i < |into| && into[i] == x;
        assert all[i] == x;
      }
      InsertLast(into, hs[0].key, hs[0].value);
      assert into + [hs[0]] + hs[1..] == all;
      InsertAllAscending(into + [hs[0]], hs[1..]);
    }
  }

  /** Decoding what was encoded gives the map back, whatever bytes follow. */
  lemma RoundTrip(headers: Headers, t: Bytes)
    requires Encode(headers).Ok?
    ensures Decode(Encode(headers).value + t) == Ok(headers)
  {
    var n, body := |headers|, EncodeEntries(headers);
    var s := Encode(headers).value + t;
    LeRoundTrip(n);
    assert s[..4] == ToLe(n) && s[4..] == body + t;
    ReadEntriesBack(headers, t);
    assert [] + headers == headers;
    InsertAllAscending([], headers);
  }

  /** Two writers holding the same header content store the same bytes, and
      different contents never share a stored form. */
  lemma EncodingDeterminedByContent(a: Headers, b: Headers)
    requires Encode(a).Ok? && Encode(b).Ok?
    ensures AsMap(a) == AsMap(b) <==> Encode(a) == Encode(b)
  {
    if AsMap(a) == AsMap(b) {
      HeadersUnique(a, b);
    }
    RoundTrip(a, []);
    RoundTrip(b, []);
    assert Encode(a).value + [] == Encode(a).value && Encode(b).value + [] == Encode(b).value;
  }

  // --- the stored layout --------------------------------------------------------------

  /** Where entry `i` starts: after the count, each entry takes eight bytes and
      its two texts. */
  function EntryStart(hs: seq<Header>, i: nat): nat
    requires i <= |hs|
  {
    if i == 0 then 4 else EntryStart(hs, i - 1) + 8 + |hs[i - 1].key| + |hs[i - 1].value|
  }

  lemma {:induction false} StartIsLength(hs: seq<Header>, i: nat)
    requires i <= |hs| && forall h | h in hs :: Fits(h)
    ensures forall h | h in hs[..i] :: Fits(h)
    ensures EntryStart(hs, i) == 4 + |EncodeEntries(hs[..i])|
  {
    hide ToLe;
    if i > 0 {
      StartIsLength(hs, i - 1);
      assert hs[i - 1] in hs;
      EncodeNext(hs, i - 1);
    }
  }

  lemma SplitAtEntry(hs: seq<Header>, i: nat)
    requires i < |hs| && forall h | h in hs :: Fits(h)
    ensures forall h | h in hs[..i] :: Fits(h)
    ensures forall h | h in hs[i + 1..] :: Fits(h)
    ensures hs[i] in hs && EncodeEntries(hs) == EncodeEntries(hs[..i]) + (EncodeEntry(hs[i]) + EncodeEntries(hs[i + 1..]))
  {
    hide EncodeEntry, EncodeEntries, Fits;
    var front, back := hs[..i], hs[i..];
    assert hs == front + back;
    EncodeEntriesAppend(front, back);
    assert back[1..] == hs[i + 1..] && back[0] == hs[i];
    FrontOfEntries(back, []);
    assert EncodeEntries(back) + [] == EncodeEntries(back);
    assert EncodeEntries(back[1..]) + [] == EncodeEntries(back[1..]);
  }

  /** From `at` on stand the key length, the key, the value length, the value. */
  predicate EntryAt(b: Bytes, at: nat, h: Header) {
    var k, v := |h.key|, |h.value|;
    && at + 8 + k + v <= |b|
    && NumberAt(b, at) == k && b[at + 4..at + 4 + k] == h.key
    && NumberAt(b, at + 4 + k) == v && b[at + 8 + k..at + 8 + k + v] == h.value
  }

  lemma EntryBytes(h: Header, s: Bytes, at: nat, rest: Bytes)
    requires Fits(h) && at <= |s| && s[at..] == EncodeEntry(h) + rest
    ensures EntryAt(s, at, h)
  {
    hide ToLe, FromLe;
    var k, v := |h.key|, |h.value|;
    var t := s[at..];
    assert t[..4] == ToLe(k) && t[4..4 + k] == h.key;
    assert t[4 + k..8 + k] == ToLe(v) && t[8 + k..8 + k + v] == h.value;
    LittleEndian(k, t[..4]);
    LittleEndian(v, t[4 + k..8 + k]);
  }

  lemma EntryIn(headers: Headers, i: nat)
    requires Encode(headers).Ok? && i < |headers|
    ensures EntryStart(headers, i) <= |Encode(headers).value|
    ensures Encode(headers).value[EntryStart(headers, i)..] ==
            EncodeEntry(headers[i]) + EncodeEntries(headers[i + 1..])
    ensures forall h | h in headers[i + 1..] :: Fits(h)
    ensures Fits(headers[i])
  {
    hide EncodeEntry, EncodeEntries, ToLe;
    StartIsLength(headers, i);
    SplitAtEntry(headers, i);
    var front := ToLe(|headers|) + EncodeEntries(headers[..i]);
    assert Encode(headers).value == front + (EncodeEntry(headers[i]) + EncodeEntries(headers[i + 1..]));
  }

  /** The stored bytes in full: the count, then for each entry in key order the key
      length, the key, the value length and the value, every number in four bytes
      with the least significant first, and nothing else. */
  lemma StoredLayout(headers: Headers)
    requires Encode(headers).Ok?
    ensures var b := Encode(headers).value;
      && |b| == EntryStart(headers, |headers|) >= 4 && NumberAt(b, 0) == |headers|
      && forall i | 0 <= i < |headers| :: EntryAt(b, EntryStart(headers, i), headers[i])
  {
    hide EncodeEntry, EncodeEntries, ToLe, FromLe, EntryStart, EntryAt;
    var b := Encode(headers).value;
    StartIsLength(headers, |headers|);
    assert headers[..|headers|] == headers;
    LittleEndian(|headers|, b[..4]);
    forall i | 0 <= i < |headers| ensures EntryAt(b, EntryStart(headers, i), headers[i]) {
      EntryIn(headers, i);
      EntryBytes(headers[i], b, EntryStart(headers, i), EncodeEntries(headers[i + 1..]));
    }
  }

  /** Encoding fails exactly on a count, a key or a value past 32 bits. */
  lemma EncodableExactlyWhen(headers: Headers)
    ensures Encode(headers).Ok? <==>
      |headers| < 0x1_0000_0000 &&
      forall i | 0 <= i < |headers| :: |headers[i].key| < 0x1_0000_0000 && |headers[i].value| < 0x1_0000_0000
    ensures |headers| >= 0x1_0000_0000 ==> Encode(headers) == Err(Backend("too many headers"))
    ensures Encode(headers).Err? && |headers| < 0x1_0000_0000 ==> Encode(headers) == Err(Backend("header entry too long"))
  {
    if |headers| < 0x1_0000_0000 {
      assert forall i | 0 <= i < |headers| :: headers[i] in headers;
    }
  }

  lemma EntryRead(key: Bytes, value: Bytes, t: Bytes)
    requires |key| < 0x1_0000_0000 && |value| < 0x1_0000_0000
    ensures ReadEntry(Blob(key) + (Blob(value) + t)) ==
      if !Valid(key) then Err(Backend("corrupt header key"))
      else if !Valid(value) then Err(Backend("corrupt header value"))
      else Ok((Header(key, value), t))
  {
    hide ReadBlob, Blob, Valid;
    ReadBlobBack(key, Blob(value) + t);
    ReadBlobBack(value, t);
  }

  lemma OneEntry(s: Bytes)
    ensures Decode(ToLe(1) + s) ==
      match ReadEntry(s)
      case Ok((h, _)) => Ok([h])
      case Err(e) => Err(e)
  {
    hide ToLe, FromLe, ReadEntry;
    var bytes := ToLe(1) + s;
    LeRoundTrip(1);
    assert bytes[..4] == ToLe(1) && bytes[4..] == s;
    if ReadEntry(s).Ok? {
      var (h, t) := ReadEntry(s).value;
      assert ReadEntries(t, 0) == Ok(([], t));
      assert ReadEntries(s, 1) == Ok(([h] + [], t));
      assert InsertAll([], [h]) == [h];
    } else {
      assert ReadEntries(s, 1).Err?;
    }
  }

  /** Text that is not UTF-8 is refused, a bad key before a bad value. */
  lemma BadTextRefused(key: Bytes, value: Bytes, t: Bytes)
    requires |key| < 0x1_0000_0000 && |value| < 0x1_0000_0000
    ensures Decode(ToLe(1) + (Blob(key) + (Blob(value) + t))) ==
      if !Valid(key) then Err(Backend("corrupt header key"))
      else if !Valid(value) then Err(Backend("corrupt header value"))
      else Ok([Header(key, value)])
  {
    hide Decode, Blob, Valid, ReadEntry;
    OneEntry(Blob(key) + (Blob(value) + t));
    EntryRead(key, value, t);
  }

  // --- truncation ------------------------------------------------------------------

  lemma ReadBlobCut(b: Bytes, t: Bytes, n: nat)
    requires |b| <= U32_MAX && n <= |Blob(b) + t|
    ensures n < |Blob(b)| ==> ReadBlob((Blob(b) + t)[..n]).Err?
    ensures n >= |Blob(b)| ==> ReadBlob((Blob(b) + t)[..n]) == Ok((b, t[..n - |Blob(b)|]))
  {
    var s := (Blob(b) + t)[..n];
    if n >= |Blob(b)| {
      assert s == Blob(b) + t[..n - |Blob(b)|];
      ReadBlobBack(b, t[..n - |Blob(b)|]);
    } else if n >= 4 {
      LeRoundTrip(|b|);
      assert s[..4] == ToLe(|b|);
    }
  }

  lemma ReadEntryCut(h: Header, t: Bytes, n: nat)
    requires Fits(h) && Valid(h.key) && Valid(h.value) && n <= |EncodeEntry(h) + t|
    ensures n < |EncodeEntry(h)| ==> ReadEntry((EncodeEntry(h) + t)[..n]).Err?
    ensures n >= |EncodeEntry(h)| ==> ReadEntry((EncodeEntry(h) + t)[..n]) == Ok((h, t[..n - |EncodeEntry(h)|]))
  {
    hide ToLe, FromLe, ReadBlob, Valid, Blob;
    var v := Blob(h.value) + t;
    assert EncodeEntry(h) + t == Blob(h.key) + v;
    assert |EncodeEntry(h)| == |Blob(h.key)| + |Blob(h.value)|;
    ReadBlobCut(h.key, v, n);
    if n >= |Blob(h.key)| {
      ReadBlobCut(h.value, t, n - |Blob(h.key)|);
    }
  }

  lemma {:induction false} ReadEntriesCut(hs: seq<Header>, n: nat)
    requires AllText(hs)
    requires forall h | h in hs :: Fits(h)
    requires n < |EncodeEntries(hs)|
    ensures ReadEntries(EncodeEntries(hs)[..n], |hs|).Err?
  {
    var t := EncodeEntries(hs[1..]);
    ReadEntryCut(hs[0], t, n);
    if n >= |EncodeEntry(hs[0])| {
      ReadEntriesCut(hs[1..], n - |EncodeEntry(hs[0])|);
    }
  }

  /** Every strict prefix of a stored blob is rejected. */
  lemma StrictPrefixRejected(headers: Headers, n: nat)
    requires Encode(headers).Ok? && n < |Encode(headers).value|
    ensures Decode(Encode(headers).value[..n]).Err?
  {
    if n >= 4 {
      var s, body := Encode(headers).value[..n], EncodeEntries(headers);
      LeRoundTrip(|headers|);
      assert s[..4] == ToLe(|headers|) && s[4..] == body[..n - 4];
      ReadEntriesCut(headers, n - 4);
    }
  }

  /** How many entries the decoding loop completes before it ends or fails. */
  function CompletedEntries(s: Bytes, count: nat): nat
    decreases count
  {
    if count == 0 then 0
    else match ReadEntry(s)
      case Ok((_, rest)) => 1 + CompletedEntries(rest, count - 1)
      case Err(_) => 0
  }

  lemma EntryTakesRoom(s: Bytes)
    requires ReadEntry(s).Ok?
    ensures |ReadEntry(s).value.1| + 8 <= |s|
  {
    assert ReadBlob(s).Ok?;
  }

  lemma {:induction false} EntriesTakeRoom(s: Bytes, count: nat)
    ensures 8 * CompletedEntries(s, count) <= |s|
    decreases count
  {
    hide ReadEntry;
    if count > 0 && ReadEntry(s).Ok? {
      var rest := ReadEntry(s).value.1;
      EntryTakesRoom(s);
      EntriesTakeRoom(rest, count - 1);
      assert CompletedEntries(s, count) == 1 + CompletedEntries(rest, count - 1);
    }
  }

  lemma {:induction false} AllCompleteWhenOk(s: Bytes, count: nat)
    ensures ReadEntries(s, count).Ok? <==> CompletedEntries(s, count) == count
    decreases count
  {
    hide ReadEntry;
    if count > 0 && ReadEntry(s).Ok? {
      var rest := ReadEntry(s).value.1;
      AllCompleteWhenOk(rest, count - 1);
      assert CompletedEntries(s, count) == 1 + CompletedEntries(rest, count - 1);
      assert ReadEntries(s, count).Ok? <==> ReadEntries(rest, count - 1).Ok?;
    }
  }

  /** The claimed count cannot make the loop run past the bytes: at most
      `(length - 4) / 8` entries complete, accepted or not. */
  lemma CompletedBoundedByLength(bytes: Bytes)
    requires |bytes| >= 4
    ensures CompletedEntries(bytes[4..], FromLe(bytes[..4])) <= (|bytes| - 4) / 8
    ensures Decode(bytes).Ok? ==> FromLe(bytes[..4]) <= (|bytes| - 4) / 8
  {
    EntriesTakeRoom(bytes[4..], FromLe(bytes[..4]));
    AllCompleteWhenOk(bytes[4..], FromLe(bytes[..4]));
  }

  // --- arbitrary accepted bytes -------------------------------------------------------

  lemma ReadBlobInverse(s: Bytes)
    requires ReadBlob(s).Ok?
    ensures var (b, rest) := ReadBlob(s).value; |b| <= U32_MAX && s == Blob(b) + rest
  {
    LeInverse(s[..4]);
    var (b, rest) := ReadBlob(s).value;
    assert s == s[..4] + (b + rest);
  }

  lemma ReadEntryInverse(s: Bytes)
    requires ReadEntry(s).Ok?
    ensures var (h, rest) := ReadEntry(s).value; Fits(h) && s == EncodeEntry(h) + rest
  {
    var (key, s1) := ReadBlob(s).value;
    var (value, s2) := ReadBlob(s1).value;
    ReadBlobInverse(s);
    ReadBlobInverse(s1);
    assert Blob(key) + (Blob(value) + s2) == Blob(key) + Blob(value) + s2;
  }

  lemma {:induction false} ReadEntriesInverse(s: Bytes, count: nat)
    requires ReadEntries(s, count).Ok?
    ensures var (hs, rest) := ReadEntries(s, count).value;
      (forall h | h in hs :: Fits(h)) && s == EncodeEntries(hs) + rest
    decreases count
  {
    hide ReadEntry;
    if count > 0 {
      match ReadEntry(s)
      case Ok((h, s1)) =>
        ReadEntryInverse(s);
        ReadEntriesInverse(s1, count - 1);
        var (hs, s2) := ReadEntries(s1, count - 1).value;
        EncodePush(h, hs, s1, s2);
    }
  }

  lemma EncodePush(h: Header, hs: seq<Header>, s1: Bytes, s2: Bytes)
    requires Fits(h) && (forall x | x in hs :: Fits(x)) && s1 == EncodeEntries(hs) + s2
    ensures forall x | x in [h] + hs :: Fits(x)
    ensures EncodeEntry(h) + s1 == EncodeEntries([h] + hs) + s2
  {
    assert ([h] + hs)[1..] == hs;
    assert EncodeEntry(h) + (EncodeEntries(hs) + s2) == EncodeEntry(h) + EncodeEntries(hs) + s2;
  }

  lemma CanonicalReencodes(bytes: Bytes)
    requires |bytes| >= 4
    requires ReadEntries(bytes[4..], FromLe(bytes[..4])).Ok?
    requires var (hs, rest) := ReadEntries(bytes[4..], FromLe(bytes[..4])).value; Ascending(hs) && rest == []
    ensures Decode(bytes).Ok? && Encode(Decode(bytes).value) == Ok(bytes)
  {
    var n := FromLe(bytes[..4]);
    var (hs, rest) := ReadEntries(bytes[4..], n).value;
    ReadEntriesInverse(bytes[4..], n);
    assert [] + hs == hs;
    InsertAllAscending([], hs);
    LeInverse(bytes[..4]);
    assert bytes == bytes[..4] + EncodeEntries(hs);
  }

  lemma EncodedReadsBack(headers: Headers, bytes: Bytes)
    requires Encode(headers) == Ok(bytes)
    ensures |bytes| >= 4 && ReadEntries(bytes[4..], FromLe(bytes[..4])) == Ok((headers, []))
  {
    LeRoundTrip(|headers|);
    assert bytes[..4] == ToLe(|headers|) && bytes[4..] == EncodeEntries(headers) + [];
    ReadEntriesBack(headers, []);
  }

  /** Re-encoding what was decoded reproduces the bytes if and only if their keys
      were strictly increasing and nothing was left over. */
  lemma CanonicalBlobs(bytes: Bytes)
    requires Decode(bytes).Ok?
    ensures var (hs, rest) := ReadEntries(bytes[4..], FromLe(bytes[..4])).value;
      Encode(Decode(bytes).value) == Ok(bytes) <==> Ascending(hs) && rest == []
  {
    hide Encode, ReadEntries, InsertAll;
    var (hs, rest) := ReadEntries(bytes[4..], FromLe(bytes[..4])).value;
    if Ascending(hs) && rest == [] {
      CanonicalReencodes(bytes);
    }
    if Encode(Decode(bytes).value) == Ok(bytes) {
      EncodedReadsBack(Decode(bytes).value, bytes);
    }
  }

  lemma UpdateFirst(m: map<Bytes, Bytes>, k: Bytes, v: Bytes, rest: map<Bytes, Bytes>)
    ensures m[k := v] + rest == m + (map[k := v] + rest)
  {}

  lemma {:induction false} InsertAllContent(into: Headers, hs: seq<Header>)
    requires AllText(hs)
    ensures AsMap(InsertAll(into, hs)) == AsMap(into) + AsMap(hs)
    decreases |hs|
  {
    if hs != [] {
      var k, v := hs[0].key, hs[0].value;
      InsertIsUpdate(into, k, v);
      InsertAllContent(InsertHeader(into, k, v), hs[1..]);
      UpdateFirst(AsMap(into), k, v, AsMap(hs[1..]));
    }
  }

  /** On any accepted bytes the result holds exactly the stored entries, the
      last of two entries with one key winning. */
  lemma LastDuplicateWins(bytes: Bytes)
    requires Decode(bytes).Ok?
    ensures AsMap(Decode(bytes).value) == AsMap(ReadEntries(bytes[4..], FromLe(bytes[..4])).value.0)
  {
    InsertAllContent([], ReadEntries(bytes[4..], FromLe(bytes[..4])).value.0);
  }
}
