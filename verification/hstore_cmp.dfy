/** The ordering of hstores used by its btree operator class
    (contrib/hstore/hstore_op.c). */
module HStoreCmp {
  import opened HStoreBase
  import opened HStorePack

  function Sign(a: int, b: int): int {
    if a < b then -1 else if a > b then 1 else 0
  }

  /** Lexicographic order of byte strings of any length. */
  ghost function Lex(a: Bytes, b: Bytes): int {
    if a == [] || b == [] then Sign(|a|, |b|)
    else if a[0] != b[0] then Sign(a[0], b[0])
    else Lex(a[1..], b[1..])
  }

  /** memcmp over the common length, then the lengths, is that order. */
  lemma {:induction false} MemCmpThenLength(a: Bytes, b: Bytes, n: nat)
    requires n <= |a| && n <= |b| && (n == |a| || n == |b|)
    ensures Lex(a, b) == if MemCmp(a[..n], b[..n]) != 0 then MemCmp(a[..n], b[..n]) else Sign(|a|, |b|)
  {
    if n > 0 {
      MemCmpThenLength(a[1..], b[1..], n - 1);
      assert a[..n][1..] == a[1..][..n - 1] && b[..n][1..] == b[1..][..n - 1];
    }
  }

  /** a is a proper beginning of b, or smaller where they first differ. */
  ghost predicate LexBefore(a: Bytes, b: Bytes) {
    a < b || FirstLess(a, b)
  }

  lemma {:induction false} LexIff(a: Bytes, b: Bytes)
    ensures Lex(a, b) < 0 <==> LexBefore(a, b)
  {
    if a != [] && b != [] {
      if a[0] == b[0] {
        LexIff(a[1..], b[1..]);
        FirstLessTail(a, b);
        assert a == [a[0]] + a[1..] && b == [b[0]] + b[1..];
      } else {
        FirstLessHead(a, b);
      }
    }
  }

  /** One entry: end offset, then null above non-null. */
  function EntryCmp(x: HEntry, y: HEntry): int {
    if x.endpos != y.endpos then Sign(x.endpos, y.endpos)
    else if x.isnull == y.isnull then 0
    else if x.isnull then 1 else -1
  }

  function PairCmp(x: EntryPair, y: EntryPair): int {
    if EntryCmp(x.key, y.key) != 0 then EntryCmp(x.key, y.key) else EntryCmp(x.val, y.val)
  }

  /** Entry arrays of equal length, from i on. */
  function EntriesCmp(a: seq<EntryPair>, b: seq<EntryPair>, i: nat): int
    requires i <= |a| == |b|
    decreases |a| - i
  {
    if i == |a| then 0
    else if PairCmp(a[i], b[i]) != 0 then PairCmp(a[i], b[i])
    else EntriesCmp(a, b, i + 1)
  }

  ghost predicate Shaped(h: HStore) {
    |h.entries| == h.count
  }

  /** The order: empty first, then string areas, counts and entry arrays. */
  ghost function Cmp(a: HStore, b: HStore): int
    requires Shaped(a) && Shaped(b)
  {
    if a.count == 0 || b.count == 0 then Sign(if a.count > 0 then 1 else 0, if b.count > 0 then 1 else 0)
    else if Lex(a.str, b.str) != 0 then Lex(a.str, b.str)
    else if a.count != b.count then Sign(a.count, b.count)
    else EntriesCmp(a.entries, b.entries, 0)
  }

  lemma LastEnd(h: HStore)
    requires WF(h)
    ensures Shaped(h) && (h.count > 0 ==> h.entries[h.count - 1].val.endpos == |h.str|)
  {
    var ps := PairsOf(h);
    if |ps| > 0 {
      assert h.entries[|ps| - 1].val == PlainEntries(ps, |ps| - 1).val;
    }
  }

  /** hstore_cmp. */
  method HStoreCompare(hs1: HStore, hs2: HStore) returns (res: int)
    requires WF(hs1) && WF(hs2)
    ensures Shaped(hs1) && Shaped(hs2) && res == Cmp(hs1, hs2)
  {
    LastEnd(hs1);
    LastEnd(hs2);
    if hs1.count == 0 || hs2.count == 0 {
      return if hs1.count > 0 then 1 else if hs2.count > 0 then -1 else 0;
    }
    var len1, len2 := hs1.entries[hs1.count - 1].val.endpos, hs2.entries[hs2.count - 1].val.endpos;
    var n := if len1 <= len2 then len1 else len2;
    MemCmpThenLength(hs1.str, hs2.str, n);
    res := MemCmp(hs1.str[..n], hs2.str[..n]);
    if res != 0 {
      return;
    }
    if len1 > len2 {
      return 1;
    } else if len1 < len2 {
      return -1;
    } else if hs1.count > hs2.count {
      return 1;
    } else if hs2.count > hs1.count {
      return -1;
    }
    res := CompareEntries(hs1.entries, hs2.entries);
  }

  /** The loop over the entries, stopping at the first difference. */
  method CompareEntries(a: seq<EntryPair>, b: seq<EntryPair>) returns (res: int)
    requires |a| == |b|
    ensures res == EntriesCmp(a, b, 0)
  {
    var i := 0;
    while i < |a|
      invariant 0 <= i <= |a|
      invariant EntriesCmp(a, b, 0) == EntriesCmp(a, b, i)
    {
      if PairCmp(a[i], b[i]) != 0 {
        break;
      }
      i := i + 1;
    }
    res := if i < |a| then PairCmp(a[i], b[i]) else 0;
  }

  // ---------------------------------------------------------------- order laws

  lemma {:induction false} LexLaws(a: Bytes, b: Bytes)
    ensures Lex(a, b) == -Lex(b, a) && -1 <= Lex(a, b) <= 1
    ensures Lex(a, b) == 0 <==> a == b
  {
    if a != [] && b != [] && a[0] == b[0] {
      LexLaws(a[1..], b[1..]);
      assert a == [a[0]] + a[1..] && b == [b[0]] + b[1..];
    }
  }

  lemma {:induction false} LexTransitive(a: Bytes, b: Bytes, c: Bytes)
    requires Lex(a, b) <= 0 && Lex(b, c) <= 0
    ensures Lex(a, c) <= 0 && (Lex(a, c) == 0 ==> Lex(a, b) == 0 && Lex(b, c) == 0)
  {
    if a != [] && b != [] && c != [] && a[0] == b[0] == c[0] {
      LexTransitive(a[1..], b[1..], c[1..]);
    }
  }

  lemma {:induction false} EntriesLaws(a: seq<EntryPair>, b: seq<EntryPair>, i: nat)
    requires i <= |a| == |b|
    ensures EntriesCmp(a, b, i) == -EntriesCmp(b, a, i)
    ensures EntriesCmp(a, b, i) == 0 <==> forall k :: i <= k < |a| ==> PairCmp(a[k], b[k]) == 0
    decreases |a| - i
  {
    if i < |a| {
      EntriesLaws(a, b, i + 1);
    }
  }

  lemma {:induction false} EntriesTransitive(a: seq<EntryPair>, b: seq<EntryPair>, c: seq<EntryPair>, i: nat)
    requires i <= |a| == |b| == |c| && EntriesCmp(a, b, i) <= 0 && EntriesCmp(b, c, i) <= 0
    ensures EntriesCmp(a, c, i) <= 0
    decreases |a| - i
  {
    if i < |a| && PairCmp(a[i], b[i]) == 0 && PairCmp(b[i], c[i]) == 0 {
      EntriesTransitive(a, b, c, i + 1);
    }
  }

  lemma CmpAntisymmetric(a: HStore, b: HStore)
    requires Shaped(a) && Shaped(b)
    ensures Cmp(a, b) == -Cmp(b, a)
  {
    LexLaws(a.str, b.str);
    if a.count == b.count {
      EntriesLaws(a.entries, b.entries, 0);
    }
  }

  lemma CmpTransitive(a: HStore, b: HStore, c: HStore)
    requires Shaped(a) && Shaped(b) && Shaped(c) && Cmp(a, b) <= 0 && Cmp(b, c) <= 0
    ensures Cmp(a, c) <= 0
  {
    if a.count > 0 && b.count > 0 && c.count > 0 {
      LexTransitive(a.str, b.str, c.str);
      LexLaws(a.str, c.str);
      if a.count == b.count == c.count && Lex(a.str, b.str) == 0 && Lex(b.str, c.str) == 0 {
        EntriesTransitive(a.entries, b.entries, c.entries, 0);
      }
    }
  }

  /** The flags of a well-formed entry array: only the first entry is first. */
  lemma FlagsOf(h: HStore, i: nat)
    requires WF(h) && i < |h.entries|
    ensures h.entries[i].key.isfirst == (i == 0) && !h.entries[i].val.isfirst && !h.entries[i].key.isnull
  {
    var ps := PairsOf(h);
    assert h.entries[i].val == PlainEntries(ps, i).val;
  }

  lemma SameEntries(a: HStore, b: HStore, i: nat)
    requires WF(a) && WF(b) && i < |a.entries| && i < |b.entries|
    requires PairCmp(a.entries[i], b.entries[i]) == 0
    ensures a.entries[i] == b.entries[i]
  {
    FlagsOf(a, i);
    FlagsOf(b, i);
  }

  lemma Header(h: HStore)
    requires WF(h)
    ensures h.varsize == CalcDataSize(h.count, |h.str|) && |h.entries| == h.count
    ensures h.count == 0 ==> h.str == []
  {
    var ps := PairsOf(h);
  }

  lemma EqualIfZero(a: HStore, b: HStore)
    requires WF(a) && WF(b) && Shaped(a) && Shaped(b) && Cmp(a, b) == 0
    ensures a == b
  {
    Header(a);
    Header(b);
    if a.count > 0 {
      LexLaws(a.str, b.str);
      EntriesLaws(a.entries, b.entries, 0);
      assert a.entries == b.entries by {
        forall i | 0 <= i < |a.entries|
          ensures a.entries[i] == b.entries[i]
        {
          SameEntries(a, b, i);
        }
      }
    }
  }

  /** Of two pairs with the same strings before them: the shorter key first, then the
      shorter value, then a value before a null. */
  ghost predicate PairBefore(x: EntryPair, y: EntryPair) {
    || x.key.endpos < y.key.endpos
    || (x.key.endpos == y.key.endpos && x.val.endpos < y.val.endpos)
    || (x.key.endpos == y.key.endpos && x.val.endpos == y.val.endpos && !x.val.isnull && y.val.isnull)
  }

  /** The entries agree before i, and those of a come first at i. */
  ghost predicate EntryFirst(a: seq<EntryPair>, b: seq<EntryPair>, i: nat) {
    i < |a| && i < |b| && PairBefore(a[i], b[i]) && forall k :: 0 <= k < i ==> a[k] == b[k]
  }

  /** Only the first entry is flagged as first, and no key is null. */
  ghost predicate Flagged(es: seq<EntryPair>) {
    forall i :: 0 <= i < |es| ==> es[i].key.isfirst == (i == 0) && !es[i].val.isfirst && !es[i].key.isnull
  }

  lemma PairIff(a: seq<EntryPair>, b: seq<EntryPair>, i: nat)
    requires Flagged(a) && Flagged(b) && i < |a| && i < |b|
    ensures PairCmp(a[i], b[i]) < 0 <==> PairBefore(a[i], b[i])
    ensures PairCmp(a[i], b[i]) == 0 <==> a[i] == b[i]
  {
  }

  lemma {:induction false} EntriesIff(a: seq<EntryPair>, b: seq<EntryPair>, i: nat)
    requires Flagged(a) && Flagged(b) && i <= |a| == |b| && forall k :: 0 <= k < i ==> a[k] == b[k]
    ensures EntriesCmp(a, b, i) < 0 <==> exists j: nat :: i <= j && EntryFirst(a, b, j)
    decreases |a| - i
  {
    if i < |a| {
      PairIff(a, b, i);
      hide PairCmp, Flagged;
      if a[i] == b[i] {
        EntriesIff(a, b, i + 1);
        assert !EntryFirst(a, b, i);
      } else {
        forall j: nat | i < j
          ensures !EntryFirst(a, b, j)
        {
        }
        assert EntryFirst(a, b, i) <==> PairBefore(a[i], b[i]);
      }
    }
  }

  lemma FlaggedOf(h: HStore)
    requires WF(h)
    ensures Flagged(h.entries)
  {
    forall i | 0 <= i < |h.entries|
      ensures h.entries[i].key.isfirst == (i == 0) && !h.entries[i].val.isfirst && !h.entries[i].key.isnull
    {
      FlagsOf(h, i);
    }
  }

  /** When a value comes before another: the empty one first; then by the strings, as
      in a dictionary; then by the number of pairs; then by the first entry in which
      they differ. */
  lemma CmpIff(a: HStore, b: HStore)
    requires WF(a) && WF(b)
    ensures Shaped(a) && Shaped(b)
    ensures a.count == 0 ==> (Cmp(a, b) < 0 <==> b.count > 0)
    ensures a.count > 0 && b.count == 0 ==> Cmp(a, b) > 0
    ensures a.count > 0 && b.count > 0 ==>
              (Cmp(a, b) < 0 <==>
               || LexBefore(a.str, b.str)
               || (a.str == b.str && a.count < b.count)
               || (a.str == b.str && a.count == b.count && exists i: nat :: EntryFirst(a.entries, b.entries, i)))
  {
    LastEnd(a);
    LastEnd(b);
    LexLaws(a.str, b.str);
    LexIff(a.str, b.str);
    if a.count == b.count {
      FlaggedOf(a);
      FlaggedOf(b);
      EntriesIff(a.entries, b.entries, 0);
    }
    if LexBefore(a.str, b.str) && a.str == b.str {
      assert Lex(a.str, b.str) == 0;
    }
  }

  /** hstore_cmp is a total order on well-formed values, and its zeros are
      exactly the pairs of values with the same mapping. */
  lemma CmpIsTotalOrder(a: HStore, b: HStore, c: HStore)
    requires WF(a) && WF(b) && WF(c)
    ensures Shaped(a) && Shaped(b) && Shaped(c)
    ensures Cmp(a, b) == -Cmp(b, a)
    ensures Cmp(a, b) <= 0 && Cmp(b, c) <= 0 ==> Cmp(a, c) <= 0
    ensures Cmp(a, b) == 0 <==> Decode(a) == Decode(b)
  {
    LastEnd(a);
    LastEnd(b);
    LastEnd(c);
    CmpAntisymmetric(a, b);
    if Cmp(a, b) <= 0 && Cmp(b, c) <= 0 {
      CmpTransitive(a, b, c);
    }
    DecodeInjective(a, b);
    if Cmp(a, b) == 0 {
      EqualIfZero(a, b);
    } else if a == b {
      CmpAntisymmetric(a, a);
    }
  }
}
