/** The order `(next_attempt_at, id)`: bytewise order on ids, and the sorted
    sequences by which a `BTreeSet` iterates and an `ORDER BY` answers. */
module Ordering {
  import opened Base

  /** Bytewise lexicographic order: `Ord` on byte arrays and on `str`, and the
      BINARY collation of SQL text. */
  predicate LexLess(a: Bytes, b: Bytes) {
    b != [] && (a == [] || a[0] < b[0] || (a[0] == b[0] && LexLess(a[1..], b[1..])))
  }

  lemma {:induction false} LexTransitive(a: Bytes, b: Bytes, c: Bytes)
    requires LexLess(a, b) && LexLess(b, c)
    ensures LexLess(a, c)
  {
    if a != [] && a[0] == b[0] == c[0] {
      LexTransitive(a[1..], b[1..], c[1..]);
    }
  }

  lemma {:induction false} LexTotal(a: Bytes, b: Bytes)
    ensures LexLess(a, b) || a == b || LexLess(b, a)
    ensures !LexLess(a, a)
    ensures !(LexLess(a, b) && LexLess(b, a))
  {
    if a != [] {
      LexTotal(a[1..], if b == [] then [] else b[1..]);
      if b != [] && a[0] == b[0] {
        assert a == [a[0]] + a[1..] && b == [b[0]] + b[1..];
      }
    }
  }

  // `a` ends, or is the smaller, where the two first differ.
  predicate FirstDifference(a: Bytes, b: Bytes, k: nat) {
    k <= |a| && k < |b| && a[..k] == b[..k] && (k == |a| || a[k] < b[k])
  }

  lemma {:induction false} LexAtDifference(a: Bytes, b: Bytes, k: nat)
    requires FirstDifference(a, b, k)
    ensures LexLess(a, b)
  {
    if k > 0 {
      assert a[0] == a[..k][0] == b[..k][0] == b[0];
      assert a[1..][..k - 1] == a[..k][1..] == b[..k][1..] == b[1..][..k - 1];
      LexAtDifference(a[1..], b[1..], k - 1);
    }
  }

  lemma {:induction false} LexDiffers(a: Bytes, b: Bytes) returns (k: nat)
    requires LexLess(a, b)
    ensures FirstDifference(a, b, k)
  {
    if a == [] || a[0] < b[0] {
      k := 0;
    } else {
      k := LexDiffers(a[1..], b[1..]);
      assert a[..k + 1] == [a[0]] + a[1..][..k] && b[..k + 1] == [b[0]] + b[1..][..k];
      k := k + 1;
    }
  }

  /** Bytewise order: at the first place two texts differ, the smaller one ends or
      has the smaller byte. */
  lemma LexMeaning(a: Bytes, b: Bytes)
    ensures LexLess(a, b) <==>
      exists k: nat :: k <= |a| && k < |b| && a[..k] == b[..k] && (k == |a| || a[k] < b[k])
  {
    if LexLess(a, b) {
      var k := LexDiffers(a, b);
      assert a[..k] == b[..k];
    }
    if k: nat :| k <= |a| && k < |b| && a[..k] == b[..k] && (k == |a| || a[k] < b[k]) {
      LexAtDifference(a, b, k);
    }
  }

  /** For texts of one length: the smaller has the smaller byte at the first
      difference. */
  lemma LexMeaningSameLength(a: Bytes, b: Bytes)
    requires |a| == |b|
    ensures LexLess(a, b) <==> exists k :: 0 <= k < |a| && a[..k] == b[..k] && a[k] < b[k]
  {
    if LexLess(a, b) {
      var k := LexDiffers(a, b);
      assert a[..k] == b[..k];
    }
    if k :| 0 <= k < |a| && a[..k] == b[..k] && a[k] < b[k] {
      LexAtDifference(a, b, k);
    }
  }

  /** Comparing two concatenations whose first parts have one length compares
      the first parts, then the rest. */
  lemma {:induction false} LexAppend(p: Bytes, x: Bytes, q: Bytes, y: Bytes)
    requires |p| == |q|
    ensures LexLess(p + x, q + y) <==> LexLess(p, q) || (p == q && LexLess(x, y))
  {
    if p == [] {
      assert p + x == x && q + y == y;
    } else {
      LexAppend(p[1..], x, q[1..], y);
      assert (p + x)[1..] == p[1..] + x && (q + y)[1..] == q[1..] + y;
      assert p == [p[0]] + p[1..] && q == [q[0]] + q[1..];
    }
  }

  datatype Key = Key(at: int, id: Bytes)

  predicate KeyLess(a: Key, b: Key) {
    a.at < b.at || (a.at == b.at && LexLess(a.id, b.id))
  }

  lemma KeyTransitive(a: Key, b: Key, c: Key)
    requires KeyLess(a, b) && KeyLess(b, c)
    ensures KeyLess(a, c)
  {
    if a.at == b.at == c.at {
      LexTransitive(a.id, b.id, c.id);
    }
  }

  lemma KeyTotal(a: Key, b: Key)
    ensures KeyLess(a, b) || a == b || KeyLess(b, a)
    ensures !KeyLess(a, a)
    ensures !(KeyLess(a, b) && KeyLess(b, a))
  {
    LexTotal(a.id, b.id);
    LexTotal(a.id, a.id);
  }

  ghost predicate Sorted(ks: seq<Key>) {
    forall i, j | 0 <= i < j < |ks| :: KeyLess(ks[i], ks[j])
  }

  function Elements(ks: seq<Key>): set<Key> {
    set k | k in ks
  }

  lemma SortedDistinct(ks: seq<Key>)
    requires Sorted(ks)
    ensures forall i, j | 0 <= i < j < |ks| :: ks[i] != ks[j]
    ensures |Elements(ks)| == |ks|
  {
    forall i, j | 0 <= i < j < |ks| ensures ks[i] != ks[j] {
      KeyTotal(ks[i], ks[j]);
    }
    DistinctCount(ks);
  }

  lemma {:induction false} DistinctCount(ks: seq<Key>)
    requires forall i, j | 0 <= i < j < |ks| :: ks[i] != ks[j]
    ensures |Elements(ks)| == |ks|
  {
    if ks != [] {
      DistinctCount(ks[1..]);
      assert Elements(ks) == {ks[0]} + Elements(ks[1..]);
      assert ks[0] !in Elements(ks[1..]);
    }
  }

  /** `BTreeSet::insert`. */
  function Insert(ks: seq<Key>, k: Key): (r: seq<Key>)
    requires Sorted(ks)
    ensures Elements(r) == Elements(ks) + {k}
    ensures Sorted(r)
  {
    if ks == [] then [k]
    else if KeyLess(k, ks[0]) then
      InsertFront(ks, k);
      [k] + ks
    else if k == ks[0] then ks
    else
      var rest := Insert(ks[1..], k);
      InsertLater(ks, k, rest);
      [ks[0]] + rest
  }

  lemma InsertFront(ks: seq<Key>, k: Key)
    requires Sorted(ks) && ks != [] && KeyLess(k, ks[0])
    ensures Sorted([k] + ks) && Elements([k] + ks) == Elements(ks) + {k}
  {
    var r := [k] + ks;
    forall i, j | 0 <= i < j < |r| ensures KeyLess(r[i], r[j]) {
      if i == 0 && j > 1 {
        KeyTransitive(k, ks[0], ks[j - 1]);
      }
    }
  }

  lemma InsertLater(ks: seq<Key>, k: Key, rest: seq<Key>)
    requires Sorted(ks) && ks != [] && !KeyLess(k, ks[0]) && k != ks[0]
    requires Sorted(rest) && Elements(rest) == Elements(ks[1..]) + {k}
    ensures Sorted([ks[0]] + rest) && Elements([ks[0]] + rest) == Elements(ks) + {k}
  {
    var r := [ks[0]] + rest;
    KeyTotal(k, ks[0]);
    forall j | 0 < j < |r| ensures KeyLess(r[0], r[j]) {
      assert r[j] in Elements(rest);
      if r[j] != k {
        assert r[j] in ks[1..];
      }
    }
    assert Elements(ks) == {ks[0]} + Elements(ks[1..]);
    assert Elements(r) == {ks[0]} + Elements(rest);
  }

  /** `BTreeSet::remove`. */
  function Remove(ks: seq<Key>, k: Key): (r: seq<Key>)
    requires Sorted(ks)
    ensures Sorted(r)
    ensures Elements(r) == Elements(ks) - {k}
  {
    if ks == [] then []
    else if ks[0] == k then
      RemoveFront(ks);
      ks[1..]
    else
      var rest := Remove(ks[1..], k);
      RemoveLater(ks, k, rest);
      [ks[0]] + rest
  }

  lemma RemoveFront(ks: seq<Key>)
    requires Sorted(ks) && ks != []
    ensures Sorted(ks[1..]) && Elements(ks[1..]) == Elements(ks) - {ks[0]}
  {
    SortedDistinct(ks);
    assert Elements(ks) == {ks[0]} + Elements(ks[1..]);
  }

  lemma RemoveLater(ks: seq<Key>, k: Key, rest: seq<Key>)
    requires Sorted(ks) && ks != [] && ks[0] != k
    requires Sorted(rest) && Elements(rest) == Elements(ks[1..]) - {k}
    ensures Sorted([ks[0]] + rest) && Elements([ks[0]] + rest) == Elements(ks) - {k}
  {
    var r := [ks[0]] + rest;
    forall j | 0 < j < |r| ensures KeyLess(r[0], r[j]) {
      assert r[j] in Elements(rest);
      assert r[j] in ks[1..];
    }
    assert Elements(ks) == {ks[0]} + Elements(ks[1..]);
    assert Elements(r) == {ks[0]} + Elements(rest);
  }

  /** A set of keys has one sorted listing. */
  lemma {:induction false} SortedUnique(a: seq<Key>, b: seq<Key>)
    requires Sorted(a) && Sorted(b) && Elements(a) == Elements(b)
    ensures a == b
  {
    SortedDistinct(a);
    SortedDistinct(b);
    if a != [] {
      assert a[0] in Elements(b) && b[0] in Elements(a);
      KeyTotal(a[0], b[0]);
      assert a[0] == b[0];
      RemoveFront(a);
      RemoveFront(b);
      SortedUnique(a[1..], b[1..]);
      assert a == [a[0]] + a[1..] && b == [b[0]] + b[1..];
    }
  }

  /** The answer of `ORDER BY next_attempt_at, id` over a set of keys. */
  ghost function Arrange(s: set<Key>): (r: seq<Key>)
    ensures Sorted(r) && Elements(r) == s
  {
    if s == {} then []
    else
      var k :| k in s;
      Insert(Arrange(s - {k}), k)
  }

  lemma ArrangeCount(s: set<Key>)
    ensures |Arrange(s)| == |s|
  {
    SortedDistinct(Arrange(s));
  }

  function Take<T>(s: seq<T>, n: nat): seq<T> {
    if n < |s| then s[..n] else s
  }

  lemma TakeSorted(ks: seq<Key>, n: nat)
    requires Sorted(ks)
    ensures Sorted(Take(ks, n)) && |Take(ks, n)| == Min(n, |ks|)
    ensures forall k, t | k in ks && k !in Take(ks, n) && t in Take(ks, n) :: KeyLess(t, k)
  {
    var head := Take(ks, n);
    forall k, t | k in ks && k !in head && t in head ensures KeyLess(t, k) {
      assert ks == head + ks[|head|..];
      var i :| |head| <= i < |ks| && ks[i] == k;
      var j :| 0 <= j < |head| && head[j] == t;
    }
  }

  /** What `ORDER BY .. LIMIT n` means: a sorted, duplicate-free selection of
      `min(n, |s|)` keys, with every key left out coming later. */
  lemma FirstKeys(s: set<Key>, n: nat)
    ensures Sorted(Take(Arrange(s), n)) && |Take(Arrange(s), n)| == Min(n, |s|)
    ensures forall t | t in Take(Arrange(s), n) :: t in s
    ensures forall k, t | k in s && k !in Take(Arrange(s), n) && t in Take(Arrange(s), n) :: KeyLess(t, k)
  {
    var all := Arrange(s);
    ArrangeCount(s);
    TakeSorted(all, n);
    forall k | k in s ensures k in all {
      assert k in Elements(all);
    }
    forall t | t in Take(all, n) ensures t in s {
      assert t in Elements(all);
    }
  }

  /** Listing a set of keys in order, one key at a time. */
  method OrderBy(s: set<Key>) returns (ks: seq<Key>)
    ensures ks == Arrange(s)
  {
    ks := [];
    var rest := s;
    while rest != {}
      invariant Sorted(ks) && rest <= s && Elements(ks) == s - rest
    {
      var k :| k in rest;
      ks := Insert(ks, k);
      rest := rest - {k};
    }
    SortedUnique(ks, Arrange(s));
  }
}
