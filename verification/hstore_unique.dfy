/** Sorting and de-duplicating pairs before packing: comparePairs,
    hstoreUniquePairs, hstorePairs and hstoreArrayToPairs
    (contrib/hstore/hstore_io.c, hstore_op.c). */
module HStoreUnique {
  import opened Wrappers
  import opened HStoreBase
  import opened HStorePack
  import opened HStoreBuild

  /** A decompressed pair.  The value bytes of a null are ignored. */
  datatype PairRec = PairRec(key: Bytes, val: Bytes, isnull: bool, needfree: bool)

  function AsPair(r: PairRec): Pair {
    Pair(r.key, if r.isnull then None else Some(r.val))
  }

  function AsPairs(rs: seq<PairRec>): seq<Pair> {
    seq(|rs|, i requires 0 <= i < |rs| => AsPair(rs[i]))
  }

  function RecLen(r: PairRec): nat {
    |r.key| + (if r.isnull then 0 else |r.val|)
  }

  ghost function BufLen(rs: seq<PairRec>): nat {
    if rs == [] then 0 else BufLen(rs[..|rs| - 1]) + RecLen(rs[|rs| - 1])
  }

  /** comparePairs: by key, then pairs that need no freeing first. */
  function RecCmp(x: PairRec, y: PairRec): int {
    if KeyCmp(x.key, y.key) != 0 then KeyCmp(x.key, y.key)
    else if x.needfree == y.needfree then 0
    else if x.needfree then 1 else -1
  }

  predicate RecLeq(x: PairRec, y: PairRec) {
    RecCmp(x, y) <= 0
  }

  /** Among pairs with one key, one that needs no freeing is preferred. */
  lemma ChosenNeedsNoFree(r: PairRec, rs: seq<PairRec>, q: PairRec)
    requires Chosen(r, rs) && q in rs && q.key == r.key && !q.needfree
    ensures !r.needfree
  {
    KeyCmpLaws(r.key, q.key);
  }

  lemma RecLeqTotal(x: PairRec, y: PairRec)
    ensures RecLeq(x, y) || RecLeq(y, x)
  {
    KeyCmpLaws(x.key, y.key);
  }

  lemma RecLeqTransitive(x: PairRec, y: PairRec, z: PairRec)
    requires RecLeq(x, y) && RecLeq(y, z)
    ensures RecLeq(x, z)
  {
    KeyCmpLaws(x.key, y.key);
    KeyCmpLaws(y.key, z.key);
    if Less(x.key, y.key) && Less(y.key, z.key) {
      LessTransitive(x.key, y.key, z.key);
    }
  }

  ghost predicate Chain<T(!new)>(r: (T, T) -> bool, s: seq<T>) {
    forall i :: 0 <= i < |s| - 1 ==> r(s[i], s[i + 1])
  }

  ghost predicate Ordered(rs: seq<PairRec>) {
    Chain(RecLeq, rs)
  }

  lemma InsertAt<T(!new)>(r: (T, T) -> bool, rs: seq<T>, i: nat, x: T)
    requires Chain(r, rs) && i <= |rs|
    requires i > 0 ==> r(rs[i - 1], x)
    requires i < |rs| ==> r(x, rs[i])
    ensures Chain(r, rs[..i] + [x] + rs[i..])
  {
    var out := rs[..i] + [x] + rs[i..];
    forall k | 0 <= k < |out| - 1
      ensures r(out[k], out[k + 1])
    {
      if k < i - 1 {
        assert r(rs[k], rs[k + 1]);
      } else if k > i {
        assert r(rs[k - 1], rs[(k - 1) + 1]);
      }
    }
  }

  /** Insertion into an ordered list, below the elements it is smaller than. */
  method Insert(rs: seq<PairRec>, x: PairRec) returns (out: seq<PairRec>)
    requires Ordered(rs)
    ensures Ordered(out) && multiset(out) == multiset(rs) + multiset{x}
  {
    var i := |rs|;
    while i > 0 && !RecLeq(rs[i - 1], x)
      invariant 0 <= i <= |rs|
      invariant i < |rs| ==> RecLeq(x, rs[i])
    {
      RecLeqTotal(rs[i - 1], x);
      i := i - 1;
    }
    InsertAt(RecLeq, rs, i, x);
    out := rs[..i] + [x] + rs[i..];
    assert rs == rs[..i] + rs[i..];
  }

  /** The sort.  Its order of equal elements is not promised to callers. */
  method QSort(rs: seq<PairRec>) returns (out: seq<PairRec>)
    ensures Ordered(out) && multiset(out) == multiset(rs)
  {
    out := [];
    for i := 0 to |rs|
      invariant Ordered(out) && multiset(out) == multiset(rs[..i])
    {
      assert rs[..i + 1] == rs[..i] + [rs[i]];
      out := Insert(out, rs[i]);
    }
    assert rs[..|rs|] == rs;
  }

  /** The survivors among the first n of an ordered list: one per run of equal
      keys, the first of the run. */
  ghost function Uniq(s: seq<PairRec>, n: nat): seq<PairRec>
    requires 1 <= n <= |s|
    ensures 1 <= |Uniq(s, n)| <= n
  {
    if n == 1 then [s[0]]
    else
      var u := Uniq(s, n - 1);
      if s[n - 1].key == u[|u| - 1].key then u else u + [s[n - 1]]
  }

  ghost predicate Strict(rs: seq<PairRec>) {
    forall i :: 0 <= i < |rs| - 1 ==> Less(rs[i].key, rs[i + 1].key)
  }

  /** r is one of rs, and none with its key is preferable to it. */
  ghost predicate Chosen(r: PairRec, rs: seq<PairRec>) {
    r in rs && forall q :: q in rs && q.key == r.key ==> RecLeq(r, q)
  }

  ghost predicate Covered(rs: seq<PairRec>, k: Bytes) {
    exists i :: 0 <= i < |rs| && rs[i].key == k
  }

  /** u holds one pair per key of rs, in strictly increasing key order. */
  ghost predicate Survivors(u: seq<PairRec>, rs: seq<PairRec>) {
    && Strict(u)
    && (forall i :: 0 <= i < |u| ==> Chosen(u[i], rs))
    && (forall k: Bytes :: Covered(u, k) <==> Covered(rs, k))
  }

  /** Keys of an ordered list never decrease, and needfree not within a key. */
  lemma {:induction false} OrderedAny(s: seq<PairRec>, i: nat, j: nat)
    requires Ordered(s) && i <= j < |s|
    ensures RecLeq(s[i], s[j])
    decreases j - i
  {
    KeyCmpLaws(s[i].key, s[j].key);
    if i < j {
      OrderedAny(s, i, j - 1);
      assert RecLeq(s[j - 1], s[j]);
      RecLeqTransitive(s[i], s[j - 1], s[j]);
    }
  }

  lemma {:induction false} UniqLast(s: seq<PairRec>, n: nat)
    requires Ordered(s) && 1 <= n <= |s|
    ensures Strict(Uniq(s, n))
    ensures var u := Uniq(s, n); u[|u| - 1].key == s[n - 1].key
  {
    if n > 1 {
      UniqLast(s, n - 1);
      assert RecLeq(s[n - 2], s[n - 1]);
      KeyCmpLaws(s[n - 2].key, s[n - 1].key);
    }
  }

  lemma {:induction false} UniqCovers(s: seq<PairRec>, n: nat, k: Bytes)
    requires 1 <= n <= |s|
    ensures Covered(Uniq(s, n), k) <==> Covered(s[..n], k)
  {
    if n == 1 {
      assert Uniq(s, 1) == s[..1];
    } else {
      UniqCovers(s, n - 1, k);
      assert s[..n] == s[..n - 1] + [s[n - 1]];
      var u, v := Uniq(s, n), Uniq(s, n - 1);
      CoveredAppend(s[..n - 1], s[n - 1], k);
      CoveredAppend(v, s[n - 1], k);
      if s[n - 1].key == k && u == v {
        assert u[|u| - 1].key == k;
      }
    }
  }

  lemma CoveredAppend(rs: seq<PairRec>, x: PairRec, k: Bytes)
    ensures Covered(rs + [x], k) <==> Covered(rs, k) || x.key == k
  {
    if Covered(rs, k) {
      var i :| 0 <= i < |rs| && rs[i].key == k;
      assert (rs + [x])[i].key == k;
    }
    assert (rs + [x])[|rs|] == x;
  }

  /** Every survivor is the first of its key in the ordered list. */
  lemma {:induction false} UniqFirst(s: seq<PairRec>, n: nat, i: nat) returns (k: nat)
    requires Ordered(s) && 1 <= n <= |s| && i < |Uniq(s, n)|
    ensures k < n && Uniq(s, n)[i] == s[k]
    ensures forall m :: 0 <= m < k ==> s[m].key != s[k].key
  {
    if n == 1 {
      k := 0;
    } else {
      var v := Uniq(s, n - 1);
      if i < |v| {
        k := UniqFirst(s, n - 1, i);
      } else {
        k := n - 1;
        UniqLast(s, n - 1);
        NewKey(s, n);
      }
    }
  }

  lemma NewKey(s: seq<PairRec>, n: nat)
    requires Ordered(s) && 2 <= n <= |s| && s[n - 1].key != s[n - 2].key
    ensures forall m :: 0 <= m < n - 1 ==> s[m].key != s[n - 1].key
  {
    forall m | 0 <= m < n - 1
      ensures s[m].key != s[n - 1].key
    {
      OrderedAny(s, m, n - 2);
      assert RecLeq(s[n - 2], s[n - 1]);
      KeyCmpLaws(s[m].key, s[n - 2].key);
      KeyCmpLaws(s[n - 2].key, s[n - 1].key);
    }
  }

  lemma UniqChosen(s: seq<PairRec>, i: nat)
    requires Ordered(s) && |s| >= 1 && i < |Uniq(s, |s|)|
    ensures Chosen(Uniq(s, |s|)[i], s)
  {
    var k := UniqFirst(s, |s|, i);
    forall q | q in s && q.key == s[k].key
      ensures RecLeq(s[k], q)
    {
      var m :| 0 <= m < |s| && s[m] == q;
      OrderedAny(s, k, m);
    }
  }

  lemma SameElements(a: seq<PairRec>, b: seq<PairRec>)
    requires multiset(a) == multiset(b)
    ensures forall r :: r in a <==> r in b
  {
    assert forall r :: r in a <==> r in multiset(a);
    assert forall r :: r in b <==> r in multiset(b);
  }

  lemma CoveredSame(a: seq<PairRec>, b: seq<PairRec>, k: Bytes)
    requires forall r :: r in a ==> r in b
    requires Covered(a, k)
    ensures Covered(b, k)
  {
    var i :| 0 <= i < |a| && a[i].key == k;
    assert a[i] in b;
  }

  lemma UniqSurvives(rs: seq<PairRec>, s: seq<PairRec>)
    requires Ordered(s) && multiset(s) == multiset(rs) && |s| >= 1
    ensures Survivors(Uniq(s, |s|), rs)
  {
    UniqLast(s, |s|);
    SameElements(s, rs);
    assert s[..|s|] == s;
    var u := Uniq(s, |s|);
    forall i | 0 <= i < |u|
      ensures Chosen(u[i], rs)
    {
      UniqChosen(s, i);
    }
    forall k: Bytes
      ensures Covered(u, k) <==> Covered(rs, k)
    {
      UniqCovers(s, |s|, k);
      if Covered(s, k) {
        CoveredSame(s, rs, k);
      }
      if Covered(rs, k) {
        CoveredSame(rs, s, k);
      }
    }
  }

  /** hstoreUniquePairs: sorts and compacts in place.  What is left has exactly
      the keys of the input, strictly increasing, each with a most preferable
      one of its pairs, and buflen is the room their strings take. */
  method UniquePairs(a: array<PairRec>) returns (n: nat, buflen: nat)
    modifies a
    ensures n <= a.Length && Survivors(a[..n], old(a[..]))
    ensures buflen == BufLen(a[..n])
  {
    var l := a.Length;
    buflen := 0;
    if l < 2 {
      ghost var rs := a[..];
      assert a[..l] == rs;
      if l == 1 {
        buflen := RecLen(a[0]);
        KeyCmpLaws(a[0].key, a[0].key);
        assert rs == [a[0]];
      }
      return l, buflen;
    }
    var sorted := QSort(a[..]);
    assert |sorted| == |multiset(sorted)| == |multiset(a[..])| == l;
    forall i | 0 <= i < l {
      a[i] := sorted[i];
    }
    assert a[..] == sorted;
    n, buflen := Compact(a, sorted);
    UniqSurvives(old(a[..]), sorted);
  }

  lemma UniqNext(s: seq<PairRec>, n: nat)
    requires 1 <= n < |s|
    ensures var u := Uniq(s, n);
            Uniq(s, n + 1) == if s[n].key == u[|u| - 1].key then u else u + [s[n]]
  {
  }

  lemma BufLenStep(u: seq<PairRec>, x: PairRec)
    ensures BufLen(u + [x]) == BufLen(u) + RecLen(x)
  {
    assert (u + [x])[..|u|] == u;
  }

  /** res++ and, unless it is already in place, copy the pair at ptr there. */
  method Keep(a: array<PairRec>, res: nat, ptr: nat)
    requires res < ptr < a.Length
    modifies a
    ensures a[..res + 2] == old(a[..res + 1]) + [old(a[ptr])]
    ensures a[ptr + 1..] == old(a[ptr + 1..])
  {
    if res + 1 != ptr {
      a[res + 1] := a[ptr];
    }
  }

  /** One round of the compaction loop. */
  method CompactOne(a: array<PairRec>, ghost s: seq<PairRec>, ptr: nat, res: nat, buflen: nat)
    returns (res': nat, buflen': nat)
    requires res < ptr < a.Length == |s|
    requires a[..res + 1] == Uniq(s, ptr)
    requires a[ptr..] == s[ptr..]
    requires buflen == BufLen(Uniq(s, ptr)[..res])
    modifies a
    ensures res' <= ptr && a[..res' + 1] == Uniq(s, ptr + 1)
    ensures a[ptr + 1..] == s[ptr + 1..]
    ensures buflen' == BufLen(Uniq(s, ptr + 1)[..res'])
  {
    ghost var u := Uniq(s, ptr);
    assert a[ptr] == a[ptr..][0] == s[ptr] && a[res] == a[..res + 1][res] == u[res];
    assert s[ptr..][1..] == s[ptr + 1..] && a[ptr..][1..] == a[ptr + 1..];
    UniqNext(s, ptr);
    if a[ptr].key != a[res].key {
      buflen' := buflen + RecLen(a[res]);
      Keep(a, res, ptr);
      assert (u + [s[ptr]])[..res + 1] == u;
      res' := res + 1;
    } else {
      res', buflen' := res, buflen;
    }
  }

  /** The compaction loop over an ordered array. */
  method Compact(a: array<PairRec>, ghost s: seq<PairRec>) returns (n: nat, buflen: nat)
    requires a.Length >= 2 && a[..] == s
    modifies a
    ensures n <= a.Length && a[..n] == Uniq(s, |s|)
    ensures buflen == BufLen(a[..n])
  {
    var ptr, res := 1, 0;
    buflen := 0;
    while ptr < a.Length
      invariant 0 <= res < ptr <= a.Length
      invariant a[..res + 1] == Uniq(s, ptr)
      invariant a[ptr..] == s[ptr..]
      invariant buflen == BufLen(Uniq(s, ptr)[..res])
    {
      res, buflen := CompactOne(a, s, ptr, res, buflen);
      ptr := ptr + 1;
    }
    buflen := buflen + RecLen(a[res]);
    n := res + 1;
  }

  lemma {:induction false} BufLenIsStrings(rs: seq<PairRec>)
    ensures BufLen(rs) == |Strings(AsPairs(rs))|
  {
    if rs != [] {
      var n := |rs| - 1;
      BufLenIsStrings(rs[..n]);
      AppendPair(AsPairs(rs[..n]), AsPair(rs[n]));
      assert AsPairs(rs) == AsPairs(rs[..n]) + [AsPair(rs[n])];
    }
  }

  lemma {:induction false} BufLenPrefix(rs: seq<PairRec>, n: nat)
    requires n < |rs|
    ensures BufLen(rs[..n]) + RecLen(rs[n]) <= BufLen(rs)
  {
    if n < |rs| - 1 {
      var m := |rs| - 1;
      BufLenPrefix(rs[..m], n);
      assert rs[..m][..n] == rs[..n];
    }
  }

  lemma AsPairsStep(rs: seq<PairRec>, i: nat)
    requires i < |rs|
    ensures AsPairs(rs[..i + 1]) == AsPairs(rs[..i]) + [AsPair(rs[i])]
    ensures |Strings(AsPairs(rs[..i]))| + RecLen(rs[i]) <= BufLen(rs)
  {
    BufLenIsStrings(rs[..i]);
    BufLenPrefix(rs, i);
  }

  method AddAll(rs: seq<PairRec>, buflen: nat) returns (b: Builder)
    requires buflen == BufLen(rs) <= POSMASK
    ensures fresh(b) && fresh(b.cells) && b.Valid() && b.items == AsPairs(rs)
  {
    b := new Builder(|rs|, buflen);
    var i := 0;
    while i < |rs|
      invariant 0 <= i <= |rs| && fresh(b) && fresh(b.cells) && b.Valid()
      invariant b.prov == |rs| && b.cells.Length == |rs| + buflen
      invariant b.items == AsPairs(rs[..i])
    {
      AsPairsStep(rs, i);
      b.AddItem(rs[i].key, rs[i].val, rs[i].isnull);
      i := i + 1;
    }
    assert rs[..i] == rs;
  }

  lemma StrictSorted(rs: seq<PairRec>)
    requires Strict(rs)
    ensures Sorted(AsPairs(rs))
  {
    var ps := AsPairs(rs);
    forall i | 0 <= i < |ps| - 1
      ensures Less(ps[i].key, ps[i + 1].key)
    {
      assert Less(rs[i].key, rs[i + 1].key);
    }
  }

  /** hstorePairs: packs strictly sorted pairs into an allocation of exactly the
      computed size; too large a size is refused by the allocator. */
  method HStorePairs(rs: seq<PairRec>, buflen: nat) returns (out: Option<HStore>)
    requires Strict(rs) && buflen == BufLen(rs)
    ensures out.Some? <==> CalcDataSize(|rs|, buflen) <= MAX_ALLOC
    ensures out.Some? ==> Represents(out.value, AsPairs(rs))
  {
    if CalcDataSize(|rs|, buflen) > MAX_ALLOC {
      return None;
    }
    BufLenIsStrings(rs);
    StrictSorted(rs);
    var b := AddAll(rs, buflen);
    var h := b.Finalize();
    out := Some(h);
  }

  ghost predicate InArray(k: Bytes, keys: seq<Option<Bytes>>) {
    Some(k) in keys
  }

  /** hstoreArrayToPairs: the non-null elements of a text array, sorted and
      without duplicates. */
  method ArrayToPairs(keys: seq<Option<Bytes>>) returns (out: seq<PairRec>)
    ensures Strict(out)
    ensures forall k :: Covered(out, k) <==> InArray(k, keys)
  {
    var rs: seq<PairRec> := [];
    for i := 0 to |keys|
      invariant forall k :: Covered(rs, k) <==> InArray(k, keys[..i])
    {
      assert keys[..i + 1] == keys[..i] + [keys[i]];
      if keys[i].Some? {
        var r := PairRec(keys[i].value, [], true, false);
        forall k: Bytes
          ensures Covered(rs + [r], k) <==> Covered(rs, k) || k == keys[i].value
        {
          CoveredAppend(rs, r, k);
        }
        rs := rs + [r];
      }
    }
    assert keys[..|keys|] == keys;
    var a := new PairRec[|rs|](i requires 0 <= i < |rs| => rs[i]);
    assert a[..] == rs;
    var n, _ := UniquePairs(a);
    out := a[..n];
  }
}
