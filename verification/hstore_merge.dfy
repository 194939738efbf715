/** The merge operators on packed hstores: concatenation, the deletions and the
    slice, each against its operation on mappings
    (contrib/hstore/hstore_op.c). */
module HStoreMerge {
  import opened Wrappers
  import opened HStoreBase

  // ------------------------------------------------------------ lists of pairs

  /** The mapping of the pairs from i on. */
  ghost function MapFrom(ps: seq<Pair>, i: nat): Mapping
    requires i <= |ps|
    decreases |ps| - i
  {
    if i == |ps| then map[] else MapFrom(ps, i + 1)[ps[i].key := ps[i].val]
  }

  lemma {:induction false} MapFromIsMapOf(ps: seq<Pair>, i: nat)
    requires i <= |ps|
    ensures MapFrom(ps, i) == MapOf(ps[i..])
    decreases |ps| - i
  {
    if i < |ps| {
      MapFromIsMapOf(ps, i + 1);
      assert ps[i..][1..] == ps[i + 1..];
    }
  }

  /** All keys of m are above x. */
  ghost predicate AllAbove(x: Bytes, m: Mapping) {
    forall k :: k in m ==> Less(x, k)
  }

  lemma {:induction false} TailAbove(ps: seq<Pair>, i: nat, x: Bytes)
    requires Sorted(ps) && i <= |ps| && (i < |ps| ==> Less(x, ps[i].key))
    ensures AllAbove(x, MapFrom(ps, i))
    decreases |ps| - i
  {
    if i < |ps| {
      if i + 1 < |ps| {
        assert Linked(ps, i);
        LessTransitive(x, ps[i].key, ps[i + 1].key);
      }
      TailAbove(ps, i + 1, x);
    }
  }

  lemma RestAbove(ps: seq<Pair>, i: nat)
    requires Sorted(ps) && i < |ps|
    ensures AllAbove(ps[i].key, MapFrom(ps, i + 1))
  {
    assert i + 1 < |ps| ==> Linked(ps, i);
    TailAbove(ps, i + 1, ps[i].key);
  }

  lemma NotAboveItself(x: Bytes, m: Mapping)
    requires AllAbove(x, m)
    ensures x !in m
  {
    KeyCmpLaws(x, x);
  }

  /** A list that is sorted and stands for m. */
  ghost predicate Lists(ps: seq<Pair>, m: Mapping) {
    Sorted(ps) && MapOf(ps) == m
  }

  lemma ConsLists(p: Pair, ps: seq<Pair>, m: Mapping)
    requires Lists(ps, m) && AllAbove(p.key, m)
    ensures Lists([p] + ps, m[p.key := p.val])
  {
    var qs := [p] + ps;
    assert qs[1..] == ps;
    if ps != [] {
      assert ps[0].key in MapOf(ps);
    }
    forall i | 0 <= i < |qs| - 1
      ensures Linked(qs, i)
    {
      if i > 0 {
        assert Linked(ps, i - 1);
      }
    }
  }

  /** The comparison that steers the merge of two lists at i and j. */
  function Diff(a: seq<Pair>, i: nat, b: seq<Pair>, j: nat): int
    requires i <= |a| && j <= |b|
  {
    if i == |a| then 1 else if j == |b| then -1 else KeyCmp(a[i].key, b[j].key)
  }

  /** What the merge has still to write; on equal keys the second list's pair. */
  ghost function MergeFrom(a: seq<Pair>, i: nat, b: seq<Pair>, j: nat): seq<Pair>
    requires i <= |a| && j <= |b|
    decreases |a| - i + |b| - j
  {
    if i == |a| && j == |b| then []
    else if Diff(a, i, b, j) < 0 then [a[i]] + MergeFrom(a, i + 1, b, j)
    else [b[j]] + MergeFrom(a, if Diff(a, i, b, j) == 0 then i + 1 else i, b, j + 1)
  }

  lemma OverrideLeft(m: Mapping, n: Mapping, k: Bytes, v: Option<Bytes>)
    requires k !in n
    ensures (m + n)[k := v] == m[k := v] + n
  {
  }

  lemma OverrideRight(m: Mapping, n: Mapping, k: Bytes, v: Option<Bytes>)
    ensures (m + n)[k := v] == m + n[k := v]
  {
  }

  lemma OverrideBoth(m: Mapping, n: Mapping, k: Bytes, u: Option<Bytes>, v: Option<Bytes>)
    ensures (m + n)[k := v] == m[k := u] + n[k := v]
  {
  }

  /** Merging sorted lists is overriding one mapping by the other. */
  lemma {:induction false} MergeIsOverride(a: seq<Pair>, i: nat, b: seq<Pair>, j: nat)
    requires Sorted(a) && Sorted(b) && i <= |a| && j <= |b|
    ensures Lists(MergeFrom(a, i, b, j), MapFrom(a, i) + MapFrom(b, j))
    decreases |a| - i + |b| - j
  {
    if i == |a| && j == |b| {
    } else if Diff(a, i, b, j) < 0 {
      MergeLeft(a, i, b, j);
    } else if Diff(a, i, b, j) == 0 {
      MergeBoth(a, i, b, j);
    } else {
      MergeRight(a, i, b, j);
    }
  }

  lemma {:induction false} MergeLeft(a: seq<Pair>, i: nat, b: seq<Pair>, j: nat)
    requires Sorted(a) && Sorted(b) && i < |a| && j <= |b| && Diff(a, i, b, j) < 0
    ensures Lists(MergeFrom(a, i, b, j), MapFrom(a, i) + MapFrom(b, j))
    decreases |a| - i + |b| - j, 0
  {
    MergeIsOverride(a, i + 1, b, j);
    RestAbove(a, i);
    TailAbove(b, j, a[i].key);
    NotAboveItself(a[i].key, MapFrom(b, j));
    OverrideLeft(MapFrom(a, i + 1), MapFrom(b, j), a[i].key, a[i].val);
    ConsLists(a[i], MergeFrom(a, i + 1, b, j), MapFrom(a, i + 1) + MapFrom(b, j));
  }

  lemma {:induction false} MergeRight(a: seq<Pair>, i: nat, b: seq<Pair>, j: nat)
    requires Sorted(a) && Sorted(b) && i <= |a| && j < |b| && Diff(a, i, b, j) > 0
    ensures Lists(MergeFrom(a, i, b, j), MapFrom(a, i) + MapFrom(b, j))
    decreases |a| - i + |b| - j, 0
  {
    MergeIsOverride(a, i, b, j + 1);
    RestAbove(b, j);
    if i < |a| {
      KeyCmpLaws(a[i].key, b[j].key);
    }
    TailAbove(a, i, b[j].key);
    OverrideRight(MapFrom(a, i), MapFrom(b, j + 1), b[j].key, b[j].val);
    ConsLists(b[j], MergeFrom(a, i, b, j + 1), MapFrom(a, i) + MapFrom(b, j + 1));
  }

  lemma {:induction false} MergeBoth(a: seq<Pair>, i: nat, b: seq<Pair>, j: nat)
    requires Sorted(a) && Sorted(b) && i < |a| && j < |b| && Diff(a, i, b, j) == 0
    ensures Lists(MergeFrom(a, i, b, j), MapFrom(a, i) + MapFrom(b, j))
    decreases |a| - i + |b| - j, 0
  {
    MergeIsOverride(a, i + 1, b, j + 1);
    RestAbove(a, i);
    RestAbove(b, j);
    KeyCmpLaws(a[i].key, b[j].key);
    OverrideBoth(MapFrom(a, i + 1), MapFrom(b, j + 1), b[j].key, a[i].val, b[j].val);
    ConsLists(b[j], MergeFrom(a, i + 1, b, j + 1), MapFrom(a, i + 1) + MapFrom(b, j + 1));
  }

  /** What the sweep of the deletions has still to write: the pairs of a that b
      does not hit.  With byVal a hit must also agree on the value. */
  ghost function SubtractFrom(a: seq<Pair>, i: nat, b: seq<Pair>, j: nat, byVal: bool): seq<Pair>
    requires i <= |a| && j <= |b|
    decreases |a| - i + |b| - j
  {
    if i == |a| then []
    else if Diff(a, i, b, j) > 0 then SubtractFrom(a, i, b, j + 1, byVal)
    else if Diff(a, i, b, j) < 0 then [a[i]] + SubtractFrom(a, i + 1, b, j, byVal)
    else if byVal && a[i].val != b[j].val then [a[i]] + SubtractFrom(a, i + 1, b, j + 1, byVal)
    else SubtractFrom(a, i + 1, b, j + 1, byVal)
  }

  ghost predicate Hit(a: Mapping, b: Mapping, byVal: bool, k: Bytes)
    requires k in a
  {
    k in b && (byVal ==> a[k] == b[k])
  }

  /** A mapping without the keys, or the key-value pairs, of another. */
  ghost function Without(a: Mapping, b: Mapping, byVal: bool): Mapping {
    map k | k in a && !Hit(a, b, byVal, k) :: a[k]
  }

  lemma WithoutKept(a: Mapping, b: Mapping, byVal: bool, k: Bytes, v: Option<Bytes>)
    requires k !in a && k !in b
    ensures Without(a[k := v], b, byVal) == Without(a, b, byVal)[k := v]
  {
  }

  lemma WithoutOther(a: Mapping, b: Mapping, byVal: bool, k: Bytes, v: Option<Bytes>)
    requires k !in a
    ensures Without(a, b[k := v], byVal) == Without(a, b, byVal)
  {
  }

  lemma WithoutBoth(a: Mapping, b: Mapping, byVal: bool, k: Bytes, u: Option<Bytes>, v: Option<Bytes>)
    requires k !in a && k !in b
    ensures Without(a[k := u], b[k := v], byVal)
         == if byVal && u != v then Without(a, b, byVal)[k := u] else Without(a, b, byVal)
  {
  }

  lemma {:induction false} SubtractIsWithout(a: seq<Pair>, i: nat, b: seq<Pair>, j: nat, byVal: bool)
    requires Sorted(a) && Sorted(b) && i <= |a| && j <= |b|
    ensures Lists(SubtractFrom(a, i, b, j, byVal), Without(MapFrom(a, i), MapFrom(b, j), byVal))
    decreases |a| - i + |b| - j
  {
    if i == |a| {
    } else if Diff(a, i, b, j) > 0 {
      SubtractIsWithout(a, i, b, j + 1, byVal);
      KeyCmpLaws(a[i].key, b[j].key);
      TailAbove(a, i, b[j].key);
      NotAboveItself(b[j].key, MapFrom(a, i));
      WithoutOther(MapFrom(a, i), MapFrom(b, j + 1), byVal, b[j].key, b[j].val);
    } else {
      SubtractHead(a, i, b, j, byVal);
    }
  }

  lemma {:induction false} SubtractHead(a: seq<Pair>, i: nat, b: seq<Pair>, j: nat, byVal: bool)
    requires Sorted(a) && Sorted(b) && i < |a| && j <= |b| && Diff(a, i, b, j) <= 0
    ensures Lists(SubtractFrom(a, i, b, j, byVal), Without(MapFrom(a, i), MapFrom(b, j), byVal))
    decreases |a| - i + |b| - j, 0
  {
    var k := a[i].key;
    RestAbove(a, i);
    NotAboveItself(k, MapFrom(a, i + 1));
    if Diff(a, i, b, j) < 0 {
      SubtractIsWithout(a, i + 1, b, j, byVal);
      TailAbove(b, j, k);
      NotAboveItself(k, MapFrom(b, j));
      WithoutKept(MapFrom(a, i + 1), MapFrom(b, j), byVal, k, a[i].val);
      ConsLists(a[i], SubtractFrom(a, i + 1, b, j, byVal), Without(MapFrom(a, i + 1), MapFrom(b, j), byVal));
    } else {
      SubtractIsWithout(a, i + 1, b, j + 1, byVal);
      KeyCmpLaws(k, b[j].key);
      RestAbove(b, j);
      NotAboveItself(k, MapFrom(b, j + 1));
      WithoutBoth(MapFrom(a, i + 1), MapFrom(b, j + 1), byVal, k, a[i].val, b[j].val);
      if byVal && a[i].val != b[j].val {
        ConsLists(a[i], SubtractFrom(a, i + 1, b, j + 1, byVal), Without(MapFrom(a, i + 1), MapFrom(b, j + 1), byVal));
      }
    }
  }
}
