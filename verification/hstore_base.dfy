/** Byte strings, the key order of hstore and the mapping that a sorted list of
    pairs stands for (contrib/hstore/hstore.h, hstore_io.c). */
module HStoreBase {
  import opened Wrappers

  type Byte = x: int | 0 <= x < 256
  type Bytes = seq<Byte>

  /** memcmp on equally long strings: the sign of the first difference. */
  function MemCmp(a: Bytes, b: Bytes): int
    requires |a| == |b|
  {
    if a == [] then 0
    else if a[0] != b[0] then (if a[0] < b[0] then -1 else 1)
    else MemCmp(a[1..], b[1..])
  }

  /** Keys compare by length first, then bytewise. */
  function KeyCmp(a: Bytes, b: Bytes): int {
    if |a| == |b| then MemCmp(a, b) else if |a| > |b| then 1 else -1
  }

  lemma {:induction false} MemCmpLaws(a: Bytes, b: Bytes)
    requires |a| == |b|
    ensures MemCmp(a, b) == 0 <==> a == b
    ensures MemCmp(a, b) == -MemCmp(b, a)
    ensures -1 <= MemCmp(a, b) <= 1
  {
    if a != [] {
      MemCmpLaws(a[1..], b[1..]);
      assert a == [a[0]] + a[1..] && b == [b[0]] + b[1..];
    }
  }

  lemma {:induction false} MemCmpTransitive(a: Bytes, b: Bytes, c: Bytes)
    requires |a| == |b| == |c| && MemCmp(a, b) <= 0 && MemCmp(b, c) <= 0
    ensures MemCmp(a, c) <= 0
    ensures MemCmp(a, c) == 0 ==> MemCmp(a, b) == 0 && MemCmp(b, c) == 0
  {
    if a != [] && a[0] == b[0] == c[0] {
      MemCmpTransitive(a[1..], b[1..], c[1..]);
    }
  }

  lemma KeyCmpLaws(a: Bytes, b: Bytes)
    ensures KeyCmp(a, b) == 0 <==> a == b
    ensures KeyCmp(a, b) == -KeyCmp(b, a)
    ensures -1 <= KeyCmp(a, b) <= 1
  {
    if |a| == |b| {
      MemCmpLaws(a, b);
    }
  }

  /** At the first place where they differ, a has the smaller byte. */
  ghost predicate FirstLess(a: Bytes, b: Bytes) {
    exists i :: 0 <= i < |a| && i < |b| && a[..i] == b[..i] && a[i] < b[i]
  }

  lemma FirstLessTail(a: Bytes, b: Bytes)
    requires a != [] && b != [] && a[0] == b[0]
    ensures FirstLess(a, b) <==> FirstLess(a[1..], b[1..])
  {
    if FirstLess(a, b) {
      var i :| 0 <= i < |a| && i < |b| && a[..i] == b[..i] && a[i] < b[i];
      assert a[1..][..i - 1] == a[..i][1..] && b[1..][..i - 1] == b[..i][1..];
      assert a[1..][i - 1] < b[1..][i - 1];
    }
    if FirstLess(a[1..], b[1..]) {
      var i :| 0 <= i < |a[1..]| && i < |b[1..]| && a[1..][..i] == b[1..][..i] && a[1..][i] < b[1..][i];
      assert a[..i + 1] == [a[0]] + a[1..][..i] && b[..i + 1] == [b[0]] + b[1..][..i];
      assert a[i + 1] < b[i + 1];
    }
  }

  lemma FirstLessHead(a: Bytes, b: Bytes)
    requires a != [] && b != [] && a[0] != b[0]
    ensures FirstLess(a, b) <==> a[0] < b[0]
  {
    assert a[..0] == b[..0];
    forall i | 0 < i < |a| && i < |b|
      ensures a[..i] != b[..i]
    {
      assert a[..i][0] == a[0] && b[..i][0] == b[0];
    }
  }

  lemma {:induction false} MemCmpIff(a: Bytes, b: Bytes)
    requires |a| == |b|
    ensures MemCmp(a, b) < 0 <==> FirstLess(a, b)
  {
    if a != [] {
      if a[0] == b[0] {
        MemCmpIff(a[1..], b[1..]);
        FirstLessTail(a, b);
      } else {
        FirstLessHead(a, b);
      }
    }
  }

  predicate Less(a: Bytes, b: Bytes) {
    KeyCmp(a, b) < 0
  }

  /** Shorter keys come first, and among keys of one length the one with the smaller
      byte where they first differ. */
  lemma LessIff(a: Bytes, b: Bytes)
    ensures Less(a, b) <==> |a| < |b| || (|a| == |b| && FirstLess(a, b))
  {
    if |a| == |b| {
      MemCmpIff(a, b);
    }
  }

  lemma LessTransitive(a: Bytes, b: Bytes, c: Bytes)
    requires Less(a, b) && Less(b, c)
    ensures Less(a, c)
  {
    if |a| == |b| == |c| {
      MemCmpTransitive(a, b, c);
    }
  }

  lemma LessIrreflexive(a: Bytes, b: Bytes)
    requires Less(a, b)
    ensures a != b && !Less(b, a)
  {
    KeyCmpLaws(a, b);
  }

  /** One key with its value; None is the SQL null. */
  datatype Pair = Pair(key: Bytes, val: Option<Bytes>)

  /** Pairs i and i + 1 are in order. */
  ghost predicate Linked(ps: seq<Pair>, i: nat)
    requires i + 1 < |ps|
  {
    Less(ps[i].key, ps[i + 1].key)
  }

  /** Strictly increasing keys, link by link. */
  ghost predicate Sorted(ps: seq<Pair>) {
    forall i :: 0 <= i < |ps| - 1 ==> Linked(ps, i)
  }

  lemma {:induction false} SortedAny(ps: seq<Pair>, i: nat, j: nat)
    requires Sorted(ps) && i < j < |ps|
    ensures Less(ps[i].key, ps[j].key)
    decreases j - i
  {
    assert Linked(ps, j - 1);
    if i + 1 < j {
      SortedAny(ps, i, j - 1);
      LessTransitive(ps[i].key, ps[j - 1].key, ps[j].key);
    }
  }

  lemma SortedTail(ps: seq<Pair>)
    requires Sorted(ps) && ps != []
    ensures Sorted(ps[1..])
  {
    forall k | 0 <= k < |ps[1..]| - 1
      ensures Linked(ps[1..], k)
    {
      assert Linked(ps, k + 1);
    }
  }

  type Mapping = map<Bytes, Option<Bytes>>

  /** The mapping a list of pairs stands for. */
  ghost function MapOf(ps: seq<Pair>): Mapping {
    if ps == [] then map[] else MapOf(ps[1..])[ps[0].key := ps[0].val]
  }

  ghost predicate HasKey(ps: seq<Pair>, k: Bytes) {
    exists i :: 0 <= i < |ps| && ps[i].key == k
  }

  lemma {:induction false} MapOfKeys(ps: seq<Pair>, k: Bytes)
    ensures k in MapOf(ps) <==> HasKey(ps, k)
  {
    if ps != [] {
      MapOfKeys(ps[1..], k);
      if HasKey(ps[1..], k) {
        var i :| 0 <= i < |ps[1..]| && ps[1..][i].key == k;
        assert ps[i + 1].key == k;
      }
      if HasKey(ps, k) && ps[0].key != k {
        var i :| 0 <= i < |ps| && ps[i].key == k;
        assert ps[1..][i - 1].key == k;
      }
    }
  }

  lemma {:induction false} MapOfAt(ps: seq<Pair>, i: nat)
    requires Sorted(ps) && i < |ps|
    ensures ps[i].key in MapOf(ps) && MapOf(ps)[ps[i].key] == ps[i].val
  {
    if i > 0 {
      SortedTail(ps);
      MapOfAt(ps[1..], i - 1);
      SortedAny(ps, 0, i);
      LessIrreflexive(ps[0].key, ps[i].key);
    }
  }

  /** The head of a sorted list is below every other key. */
  lemma HeadBelow(ps: seq<Pair>, k: Bytes)
    requires Sorted(ps) && ps != [] && k in MapOf(ps[1..])
    ensures Less(ps[0].key, k)
  {
    MapOfKeys(ps[1..], k);
    var i :| 0 <= i < |ps[1..]| && ps[1..][i].key == k;
    SortedAny(ps, 0, i + 1);
  }

  lemma HeadNotInTail(ps: seq<Pair>)
    requires Sorted(ps) && ps != []
    ensures ps[0].key !in MapOf(ps[1..])
  {
    if ps[0].key in MapOf(ps[1..]) {
      HeadBelow(ps, ps[0].key);
      KeyCmpLaws(ps[0].key, ps[0].key);
    }
  }

  /** Two sorted lists with one mapping start with the same key: neither head
      can be above the other. */
  lemma HeadsAgree(a: seq<Pair>, b: seq<Pair>)
    requires Sorted(a) && Sorted(b) && a != [] && b != [] && MapOf(a) == MapOf(b)
    ensures a[0] == b[0]
  {
    var x, y := a[0].key, b[0].key;
    assert x in MapOf(b) && y in MapOf(a);
    if x != y {
      HeadBelow(a, y);
      HeadBelow(b, x);
      LessIrreflexive(x, y);
    }
  }

  lemma EmptyMap(ps: seq<Pair>)
    ensures MapOf(ps) == map[] <==> ps == []
  {
    if ps != [] {
      assert ps[0].key in MapOf(ps);
    }
  }

  /** A strictly sorted list is determined by its mapping. */
  lemma {:induction false} SortedUnique(a: seq<Pair>, b: seq<Pair>)
    requires Sorted(a) && Sorted(b) && MapOf(a) == MapOf(b)
    ensures a == b
    decreases |a|
  {
    EmptyMap(a);
    EmptyMap(b);
    if a != [] {
      HeadsAgree(a, b);
      SortedTail(a);
      SortedTail(b);
      HeadNotInTail(a);
      HeadNotInTail(b);
      assert MapOf(a[1..]) == MapOf(a) - {a[0].key};
      assert MapOf(b[1..]) == MapOf(b) - {b[0].key};
      SortedUnique(a[1..], b[1..]);
      assert a == [a[0]] + a[1..] && b == [b[0]] + b[1..];
    }
  }
}
