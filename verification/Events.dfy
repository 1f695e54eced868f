/** The event envelope: topic validation, the ordered header map, `OutboxEvent`. */
module Events {
  import opened Base
  import opened Ordering
  import opened Utf8
  import opened EventIds

  predicate TopicByte(b: Byte) {
    97 <= b <= 122 || 48 <= b <= 57 || b == 95 || b == 46 || b == 45
  }

  /** `[a-z0-9_.-]{1,128}`. */
  predicate ValidTopic(topic: Bytes) {
    1 <= |topic| <= 128 && forall b | b in topic :: TopicByte(b)
  }

  /** A topic is accepted exactly if it has 1 to 128 bytes, all of them lower-case
      letters, digits, underscores, dots or hyphens. */
  lemma TopicsAccepted(topic: Bytes)
    ensures ValidTopic(topic) <==>
      && 1 <= |topic| <= 128
      && forall i | 0 <= i < |topic| ::
           var c := topic[i] as int as char;
           'a' <= c <= 'z' || '0' <= c <= '9' || c == '_' || c == '.' || c == '-'
  {
    forall b: Byte
      ensures TopicByte(b) <==>
        var c := b as int as char;
        'a' <= c <= 'z' || '0' <= c <= '9' || c == '_' || c == '.' || c == '-'
    {}
    hide TopicByte;
    assert forall i | 0 <= i < |topic| :: topic[i] in topic;
  }

  // --- headers: a BTreeMap as the sequence it iterates ---------------------

  datatype Header = Header(key: Bytes, value: Bytes)

  ghost predicate Ascending(h: seq<Header>) {
    forall i, j | 0 <= i < j < |h| :: LexLess(h[i].key, h[j].key)
  }

  ghost predicate AllText(h: seq<Header>) {
    forall x | x in h :: Valid(x.key) && Valid(x.value)
  }

  type Headers = h: seq<Header> | Ascending(h) && AllText(h) witness []

  /** The content of a header sequence as a map; a later entry wins. */
  function AsMap(h: seq<Header>): map<Bytes, Bytes> {
    if h == [] then map[] else map[h[0].key := h[0].value] + AsMap(h[1..])
  }

  /** `BTreeMap::insert`: replace the value of an existing key. */
  function InsertHeader(h: Headers, key: Str, value: Str): (r: Headers)
    ensures forall x | x in r :: x == Header(key, value) || x in h
  {
    if h == [] then [Header(key, value)]
    else if LexLess(key, h[0].key) then
      HeadIsLeast(key, h);
      PushFront(Header(key, value), h)
    else if key == h[0].key then
      HeadBelowTail(h);
      PushFront(Header(key, value), h[1..])
    else
      HeadBelowTail(h);
      LexTotal(key, h[0].key);
      PushFront(h[0], InsertHeader(h[1..], key, value))
  }

  function PushFront(x: Header, h: Headers): (r: Headers)
    requires Valid(x.key) && Valid(x.value)
    requires forall y | y in h :: LexLess(x.key, y.key)
    ensures r == [x] + h
  {
    [x] + h
  }

  lemma HeadIsLeast(key: Bytes, h: Headers)
    requires h != [] && LexLess(key, h[0].key)
    ensures forall y | y in h :: LexLess(key, y.key)
  {
    forall y | y in h ensures LexLess(key, y.key) {
      var i :| 0 <= i < |h| && h[i] == y;
      if i > 0 {
        LexTransitive(key, h[0].key, h[i].key);
      }
    }
  }

  lemma HeadBelowTail(h: Headers)
    requires h != []
    ensures forall y | y in h[1..] :: LexLess(h[0].key, y.key)
  {}

  lemma AbsentBelow(key: Bytes, h: Headers)
    requires forall y | y in h :: LexLess(key, y.key)
    ensures key !in AsMap(h)
  {
    if key in AsMap(h) {
      var y := AsMapSource(h, key);
      LexTotal(key, key);
    }
  }

  lemma AsMapPush(x: Header, h: seq<Header>)
    ensures AsMap([x] + h) == map[x.key := x.value] + AsMap(h)
  {
    assert ([x] + h)[1..] == h;
  }

  lemma UpdateUnder(k0: Bytes, v0: Bytes, m: map<Bytes, Bytes>, k: Bytes, v: Bytes)
    ensures k != k0 ==> map[k0 := v0] + m[k := v] == (map[k0 := v0] + m)[k := v]
    ensures k !in m ==> map[k := v] + m == m[k := v]
    ensures k !in m ==> (map[k := v0] + m)[k := v] == map[k := v] + m
  {}

  /** Inserting into the ordered map is updating its content. */
  lemma {:induction false} InsertIsUpdate(h: Headers, key: Str, value: Str)
    ensures AsMap(InsertHeader(h, key, value)) == AsMap(h)[key := value]
  {
    if h == [] {
    } else if LexLess(key, h[0].key) {
      HeadIsLeast(key, h);
      AbsentBelow(key, h);
      AsMapPush(Header(key, value), h);
      UpdateUnder(key, value, AsMap(h), key, value);
    } else if key == h[0].key {
      HeadBelowTail(h);
      AbsentBelow(key, h[1..]);
      AsMapPush(Header(key, value), h[1..]);
      UpdateUnder(key, h[0].value, AsMap(h[1..]), key, value);
    } else {
      InsertIsUpdate(h[1..], key, value);
      AsMapPush(h[0], InsertHeader(h[1..], key, value));
      UpdateUnder(h[0].key, h[0].value, AsMap(h[1..]), key, value);
    }
  }

  lemma {:induction false} InsertLast(h: Headers, key: Str, value: Str)
    requires forall x | x in h :: LexLess(x.key, key)
    ensures InsertHeader(h, key, value) == h + [Header(key, value)]
  {
    if h != [] {
      LexTotal(key, h[0].key);
      InsertLast(h[1..], key, value);
      assert h == [h[0]] + h[1..];
    }
  }

  lemma {:induction false} AsMapSource(h: seq<Header>, key: Bytes) returns (x: Header)
    requires key in AsMap(h)
    ensures x in h && x.key == key && x.value == AsMap(h)[key]
  {
    if key in AsMap(h[1..]) {
      x := AsMapSource(h[1..], key);
    } else {
      x := h[0];
    }
  }

  lemma {:induction false} AsMapKeys(h: seq<Header>)
    ensures forall x | x in h :: x.key in AsMap(h)
  {
    if h != [] {
      AsMapKeys(h[1..]);
    }
  }

  lemma AsMapTail(h: Headers)
    requires h != []
    ensures AsMap(h[1..]) == AsMap(h) - {h[0].key}
    ensures AsMap(h)[h[0].key] == h[0].value
  {
    HeadBelowTail(h);
    AbsentBelow(h[0].key, h[1..]);
  }

  lemma LeastKey(a: Headers, b: Headers)
    requires a != [] && b != [] && AsMap(a) == AsMap(b)
    ensures a[0].key == b[0].key
  {
    AsMapKeys(a);
    AsMapKeys(b);
    LexTotal(a[0].key, b[0].key);
    if LexLess(a[0].key, b[0].key) {
      HeadIsLeast(a[0].key, b);
      AbsentBelow(a[0].key, b);
    } else if LexLess(b[0].key, a[0].key) {
      HeadIsLeast(b[0].key, a);
      AbsentBelow(b[0].key, a);
    }
  }

  lemma EmptyContent(a: Headers, b: Headers)
    requires (a == [] || b == []) && AsMap(a) == AsMap(b)
    ensures a == b
  {
    AsMapKeys(a);
    AsMapKeys(b);
  }

  /** The ordered map is determined by its content. */
  lemma {:induction false} HeadersUnique(a: Headers, b: Headers)
    requires AsMap(a) == AsMap(b)
    ensures a == b
    decreases |a|
  {
    hide AsMap;
    if a == [] || b == [] {
      EmptyContent(a, b);
    } else {
      LeastKey(a, b);
      AsMapTail(a);
      AsMapTail(b);
      HeadersUnique(a[1..], b[1..]);
      assert a == [a[0]] + a[1..] && b == [b[0]] + b[1..];
    }
  }

  datatype OutboxEvent = OutboxEvent(
    id: EventId,
    topic: Bytes,
    payload: Bytes,
    headers: Headers,
    createdAt: U64,
    attempts: U32,
    lastError: Option<Bytes>)
}
