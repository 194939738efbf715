/** The hstore operators that build a new value: concatenation, deletion by
    key, by key array and by hstore, and the slice.  Each is proved against its
    operation on mappings, and its result is well formed again
    (contrib/hstore/hstore_op.c). */
module HStoreOps {
  import opened Wrappers
  import opened HStoreBase
  import opened HStorePack
  import opened HStoreBuild
  import opened HStoreUnique
  import opened HStoreFind
  import opened HStoreMerge

  // ------------------------------------------------------------------ copying

  lemma ItemBytes(ps: seq<Pair>, i: nat)
    requires Fits(ps) && i < |ps|
    ensures PairIn(Pack(ps), i)
    ensures var h := Pack(ps);
            && h.str[KeyOff(h, i)..ValEnd(h, i)] == Item(ps[i])
            && KeyEnd(h, i) - KeyOff(h, i) == |ps[i].key|
            && ValEnd(h, i) - KeyEnd(h, i) == |ValBytes(ps[i])|
            && (ValIsNull(h, i) <==> ps[i].val.None?)
  {
    Access(ps, i);
    Join(Pack(ps).str, KeyOff(Pack(ps), i), KeyEnd(Pack(ps), i), ValEnd(Pack(ps), i));
  }

  lemma Join(s: Bytes, i: nat, j: nat, k: nat)
    requires i <= j <= k <= |s|
    ensures s[i..k] == s[i..j] + s[j..k]
  {
  }

  /** Copies pair i of h behind the items written so far. */
  method CopyFrom(b: Builder, h: HStore, i: nat)
    requires WF(h) && i < h.count && b.Valid() && b.ed < b.prov
    requires b.prov + b.pd + Size(PairsOf(h)[i]) <= b.cells.Length && b.pd + Size(PairsOf(h)[i]) <= POSMASK
    modifies b, b.cells
    ensures b.Valid() && b.items == old(b.items) + [PairsOf(h)[i]]
    ensures b.pd == old(b.pd) + Size(PairsOf(h)[i])
  {
    ghost var ps := PairsOf(h);
    ItemBytes(ps, i);
    AppendPair(b.items, ps[i]);
    b.CopyItem(h.str[KeyOff(h, i)..ValEnd(h, i)], KeyEnd(h, i) - KeyOff(h, i), ValEnd(h, i) - KeyEnd(h, i),
               ValIsNull(h, i), ps[i]);
  }

  /** HS_FIXSIZE: the total size recomputed from the last entry. */
  function FixSize(h: HStore): HStore
    requires |h.entries| == h.count
  {
    h.(varsize := CalcDataSize(h.count, if h.count > 0 then h.entries[h.count - 1].val.endpos else 0))
  }

  lemma FixSizeKeeps(h: HStore)
    requires WF(h)
    ensures |h.entries| == h.count && FixSize(h) == h
  {
    var ps := PairsOf(h);
    if |ps| > 0 {
      assert h.entries[|ps| - 1].val == PlainEntries(ps, |ps| - 1).val;
    }
  }

  /** The comparison of key i of h1 with key j of h2 in the merge loops. */
  method Compare(h1: HStore, i: nat, h2: HStore, j: nat) returns (difference: int)
    requires WF(h1) && WF(h2) && i <= h1.count && j <= h2.count
    ensures difference == Diff(PairsOf(h1), i, PairsOf(h2), j)
  {
    if i >= h1.count {
      return 1;
    } else if j >= h2.count {
      return -1;
    }
    var key1 := ReadKey(h1, i);
    var key2 := ReadKey(h2, j);
    difference := KeyCmp(key1, key2);
  }

  // ------------------------------------------------------------ concatenation

  lemma EndBound(ps: seq<Pair>, i: nat)
    requires i <= |ps|
    ensures End(ps, i) <= |Strings(ps)|
  {
    StringsPrefix(ps, i, |ps|);
  }

  /** The buffer has room for the pairs and strings of both operands. */
  ghost predicate Roomy(b: Builder, s1: HStore, s2: HStore) {
    && b.prov == s1.count + s2.count && b.cells.Length == b.prov + |s1.str| + |s2.str|
    && |s1.str| + |s2.str| <= POSMASK
  }

  /** What has been written when the merge stands at i and j. */
  ghost predicate Merged(items: seq<Pair>, p1: seq<Pair>, i: nat, p2: seq<Pair>, j: nat) {
    && i <= |p1| && j <= |p2|
    && items + MergeFrom(p1, i, p2, j) == MergeFrom(p1, 0, p2, 0)
    && |items| <= i + j && |Strings(items)| <= End(p1, i) + End(p2, j)
  }

  lemma MoveOver(items: seq<Pair>, x: Pair, rest: seq<Pair>, all: seq<Pair>)
    requires items + ([x] + rest) == all
    ensures (items + [x]) + rest == all
  {
  }

  lemma MergedFirst(items: seq<Pair>, p1: seq<Pair>, i: nat, p2: seq<Pair>, j: nat)
    requires Merged(items, p1, i, p2, j) && i < |p1| && Diff(p1, i, p2, j) < 0
    ensures Merged(items + [p1[i]], p1, i + 1, p2, j)
    ensures |Strings(items)| + Size(p1[i]) <= |Strings(p1)| + |Strings(p2)| && |items| < |p1| + |p2|
  {
    EndStep(p1, i);
    EndBound(p2, j);
    AppendPair(items, p1[i]);
    MoveOver(items, p1[i], MergeFrom(p1, i + 1, p2, j), MergeFrom(p1, 0, p2, 0));
  }

  lemma MergedSecond(items: seq<Pair>, p1: seq<Pair>, i: nat, p2: seq<Pair>, j: nat, i': nat)
    requires Merged(items, p1, i, p2, j) && j < |p2| && Diff(p1, i, p2, j) >= 0
    requires i' == if Diff(p1, i, p2, j) == 0 then i + 1 else i
    ensures Merged(items + [p2[j]], p1, i', p2, j + 1)
    ensures |Strings(items)| + Size(p2[j]) <= |Strings(p1)| + |Strings(p2)| && |items| < |p1| + |p2|
  {
    EndStep(p2, j);
    EndBound(p1, i);
    if i < i' {
      EndStep(p1, i);
    }
    AppendPair(items, p2[j]);
    MoveOver(items, p2[j], MergeFrom(p1, i', p2, j + 1), MergeFrom(p1, 0, p2, 0));
  }

  method TakeFirst(b: Builder, s1: HStore, i: nat, s2: HStore, j: nat) returns (i': nat, j': nat)
    requires WF(s1) && WF(s2) && Roomy(b, s1, s2) && b.Valid()
    requires Merged(b.items, PairsOf(s1), i, PairsOf(s2), j)
    requires i < s1.count && Diff(PairsOf(s1), i, PairsOf(s2), j) < 0
    modifies b, b.cells
    ensures b.Valid() && Merged(b.items, PairsOf(s1), i', PairsOf(s2), j') && i < i' && j <= j'
  {
    hide Strings, End;
    MergedFirst(b.items, PairsOf(s1), i, PairsOf(s2), j);
    CopyFrom(b, s1, i);
    i', j' := i + 1, j;
  }

  method TakeSecond(b: Builder, s1: HStore, i: nat, s2: HStore, j: nat, d: int) returns (i': nat, j': nat)
    requires WF(s1) && WF(s2) && Roomy(b, s1, s2) && b.Valid()
    requires Merged(b.items, PairsOf(s1), i, PairsOf(s2), j)
    requires j < s2.count && d == Diff(PairsOf(s1), i, PairsOf(s2), j) >= 0
    modifies b, b.cells
    ensures b.Valid() && Merged(b.items, PairsOf(s1), i', PairsOf(s2), j') && i <= i' && j < j'
  {
    hide Strings, End;
    i', j' := if d == 0 then i + 1 else i, j + 1;
    MergedSecond(b.items, PairsOf(s1), i, PairsOf(s2), j, i');
    CopyFrom(b, s2, j);
  }

  /** One round of the merge loop. */
  method MergeOne(b: Builder, s1: HStore, i: nat, s2: HStore, j: nat) returns (i': nat, j': nat)
    requires WF(s1) && WF(s2) && Roomy(b, s1, s2) && b.Valid()
    requires Merged(b.items, PairsOf(s1), i, PairsOf(s2), j) && (i < s1.count || j < s2.count)
    modifies b, b.cells
    ensures b.Valid() && Merged(b.items, PairsOf(s1), i', PairsOf(s2), j')
    ensures i <= i' && j <= j' && i + j < i' + j'
  {
    hide Strings, End;
    var difference := Compare(s1, i, s2, j);
    if difference >= 0 {
      i', j' := TakeSecond(b, s1, i, s2, j, difference);
    } else {
      i', j' := TakeFirst(b, s1, i, s2, j);
    }
  }

  /** The merge loop, into a buffer sized for the pairs of both operands. */
  method MergeInto(b: Builder, s1: HStore, s2: HStore)
    requires WF(s1) && WF(s2) && Roomy(b, s1, s2) && b.Valid() && b.items == []
    modifies b, b.cells
    ensures b.Valid() && b.items == MergeFrom(PairsOf(s1), 0, PairsOf(s2), 0)
    ensures |b.items| <= s1.count + s2.count && |Strings(b.items)| <= |s1.str| + |s2.str|
  {
    ghost var p1, p2 := PairsOf(s1), PairsOf(s2);
    assert Merged([], p1, 0, p2, 0) by {
      assert [] + MergeFrom(p1, 0, p2, 0) == MergeFrom(p1, 0, p2, 0);
    }
    var s1idx, s2idx := 0, 0;
    while s1idx < s1.count || s2idx < s2.count
      invariant 0 <= s1idx <= s1.count && 0 <= s2idx <= s2.count
      invariant b.Valid() && Merged(b.items, p1, s1idx, p2, s2idx)
      decreases s1.count - s1idx + s2.count - s2idx
    {
      s1idx, s2idx := MergeOne(b, s1, s1idx, s2, s2idx);
    }
    assert b.items + [] == b.items;
  }

  lemma ConcatDecodes(h: HStore, s1: HStore, s2: HStore)
    requires WF(s1) && WF(s2) && Fits(MergeFrom(PairsOf(s1), 0, PairsOf(s2), 0))
    requires h == Pack(MergeFrom(PairsOf(s1), 0, PairsOf(s2), 0))
    ensures WF(h) && Decode(h) == Decode(s1) + Decode(s2)
  {
    var p1, p2 := PairsOf(s1), PairsOf(s2);
    MergeIsOverride(p1, 0, p2, 0);
    MapFromIsMapOf(p1, 0);
    MapFromIsMapOf(p2, 0);
    assert p1[0..] == p1 && p2[0..] == p2;
    RepresentsUnique(h, MergeFrom(p1, 0, p2, 0));
  }

  lemma TooBigOrRoom(s1: HStore, s2: HStore)
    requires WF(s1) && WF(s2)
    ensures s1.varsize + s2.varsize == 8 * (s1.count + s2.count) + 16 + |s1.str| + |s2.str|
  {
  }

  lemma FitsBoth(items: seq<Pair>, s1: HStore, s2: HStore)
    requires WF(s1) && WF(s2) && s1.varsize + s2.varsize <= MAX_ALLOC
    requires |items| <= s1.count + s2.count && |Strings(items)| <= |s1.str| + |s2.str|
    ensures Fits(items)
  {
    TooBigOrRoom(s1, s2);
  }

  /** Both operands have pairs. */
  method ConcatPairs(s1: HStore, s2: HStore) returns (h: HStore)
    requires WF(s1) && WF(s2) && s1.varsize + s2.varsize <= MAX_ALLOC
    ensures WF(h) && Decode(h) == Decode(s1) + Decode(s2)
  {
    hide Strings, End;
    TooBigOrRoom(s1, s2);
    var b := new Builder(s1.count + s2.count, |s1.str| + |s2.str|);
    MergeInto(b, s1, s2);
    FitsBoth(b.items, s1, s2);
    h := b.Finalize();
    ConcatDecodes(h, s1, s2);
  }

  lemma NoPairs(h: HStore)
    requires WF(h) && h.count == 0
    ensures Decode(h) == map[]
  {
  }

  /** hstore_concat: the right operand overrides the left one. */
  method Concat(s1: HStore, s2: HStore) returns (out: Option<HStore>)
    requires WF(s1) && WF(s2)
    ensures out.Some? <==> s1.varsize + s2.varsize <= MAX_ALLOC
    ensures out.Some? ==> WF(out.value) && Decode(out.value) == Decode(s1) + Decode(s2)
  {
    if s1.varsize + s2.varsize > MAX_ALLOC {
      return None;
    }
    if s1.count == 0 {
      NoPairs(s1);
      FixSizeKeeps(s2);
      return Some(FixSize(s2));
    }
    if s2.count == 0 {
      NoPairs(s2);
      FixSizeKeeps(s1);
      return Some(FixSize(s1));
    }
    var h := ConcatPairs(s1, s2);
    out := Some(h);
  }

  // ----------------------------------------------------------------- deletion

  /** What has been written when the sweep stands at i and j. */
  ghost predicate Swept(items: seq<Pair>, a: seq<Pair>, i: nat, b: seq<Pair>, j: nat, byVal: bool) {
    && i <= |a| && j <= |b|
    && items + SubtractFrom(a, i, b, j, byVal) == SubtractFrom(a, 0, b, 0, byVal)
    && |items| <= i && |Strings(items)| <= End(a, i)
  }

  lemma SweptStart(a: seq<Pair>, b: seq<Pair>, byVal: bool)
    ensures Swept([], a, 0, b, 0, byVal)
  {
    assert [] + SubtractFrom(a, 0, b, 0, byVal) == SubtractFrom(a, 0, b, 0, byVal);
  }

  /** The sweep keeps pair i, and goes on at j'. */
  ghost predicate Keeps(a: seq<Pair>, i: nat, b: seq<Pair>, j: nat, j': nat, byVal: bool)
    requires i < |a| && j <= |b|
  {
    if Diff(a, i, b, j) < 0 then j' == j
    else Diff(a, i, b, j) == 0 && byVal && a[i].val != b[j].val && j' == j + 1
  }

  /** The sweep drops pair i. */
  ghost predicate Drops(a: seq<Pair>, i: nat, b: seq<Pair>, j: nat, byVal: bool)
    requires i < |a| && j <= |b|
  {
    Diff(a, i, b, j) == 0 && !(byVal && a[i].val != b[j].val)
  }

  lemma SweptSkip(items: seq<Pair>, a: seq<Pair>, i: nat, b: seq<Pair>, j: nat, byVal: bool)
    requires Swept(items, a, i, b, j, byVal) && i < |a| && Diff(a, i, b, j) > 0
    ensures j < |b| && Swept(items, a, i, b, j + 1, byVal)
  {
  }

  /** By keys alone, nothing is kept unless key i is the smaller one. */
  lemma SweptPast(items: seq<Pair>, a: seq<Pair>, i: nat, b: seq<Pair>, j: nat, i': nat)
    requires Swept(items, a, i, b, j, false) && i < |a| && Diff(a, i, b, j) >= 0
    requires i' == if Diff(a, i, b, j) == 0 then i + 1 else i
    ensures j < |b| && Swept(items, a, i', b, j + 1, false)
  {
    if Diff(a, i, b, j) == 0 {
      SweptDrop(items, a, i, b, j, false);
    } else {
      SweptSkip(items, a, i, b, j, false);
    }
  }

  lemma SweptKeep(items: seq<Pair>, a: seq<Pair>, i: nat, b: seq<Pair>, j: nat, j': nat, byVal: bool)
    requires Swept(items, a, i, b, j, byVal) && i < |a| && Keeps(a, i, b, j, j', byVal)
    ensures Swept(items + [a[i]], a, i + 1, b, j', byVal)
    ensures |Strings(items)| + Size(a[i]) <= |Strings(a)| && |items| < |a|
  {
    EndStep(a, i);
    AppendPair(items, a[i]);
    var rest := SubtractFrom(a, i + 1, b, j', byVal);
    assert items + [a[i]] + rest == items + ([a[i]] + rest);
  }

  lemma SweptDrop(items: seq<Pair>, a: seq<Pair>, i: nat, b: seq<Pair>, j: nat, byVal: bool)
    requires Swept(items, a, i, b, j, byVal) && i < |a| && Drops(a, i, b, j, byVal)
    ensures j < |b| && Swept(items, a, i + 1, b, j + 1, byVal)
  {
    EndStep(a, i);
  }

  ghost predicate RoomFor(b: Builder, h: HStore) {
    b.prov == h.count && b.cells.Length == h.count + |h.str| && |h.str| <= POSMASK
  }

  /** What fits into the buffer of a value fits into a value. */
  lemma FitsLike(items: seq<Pair>, h: HStore)
    requires WF(h)
    ensures |h.str| <= POSMASK
    ensures |items| <= h.count && |Strings(items)| <= |h.str| ==> Fits(items)
  {
  }

  /** Copies pair i; the sweep goes on at i + 1 and j'. */
  method KeepPair(out: Builder, h: HStore, i: nat, ghost b: seq<Pair>, ghost j: nat, ghost j': nat, ghost byVal: bool)
    requires WF(h) && RoomFor(out, h) && out.Valid() && i < h.count
    requires Swept(out.items, PairsOf(h), i, b, j, byVal) && Keeps(PairsOf(h), i, b, j, j', byVal)
    modifies out, out.cells
    ensures out.Valid() && Swept(out.items, PairsOf(h), i + 1, b, j', byVal)
  {
    hide Strings, End;
    SweptKeep(out.items, PairsOf(h), i, b, j, j', byVal);
    CopyFrom(out, h, i);
  }

  method SameValueAt(h: HStore, i: nat, h2: HStore, j: nat) returns (same: bool)
    requires WF(h) && WF(h2) && i < h.count && j < h2.count
    ensures same <==> PairsOf(h)[i].val == PairsOf(h2)[j].val
  {
    var isnull, val := ReadVal(h, i);
    var isnull2, val2 := ReadVal(h2, j);
    SameValueIff(PairsOf(h)[i], PairsOf(h2)[j]);
    same := SameValue(isnull, val, isnull2, val2);
  }

  /** The equal-key case: the pair survives if the values differ. */
  method KeepUnlessSame(out: Builder, h: HStore, i: nat, h2: HStore, j: nat)
    requires WF(h) && WF(h2) && RoomFor(out, h) && out.Valid() && i < h.count && j < h2.count
    requires Swept(out.items, PairsOf(h), i, PairsOf(h2), j, true)
    requires Diff(PairsOf(h), i, PairsOf(h2), j) == 0
    modifies out, out.cells
    ensures out.Valid() && Swept(out.items, PairsOf(h), i + 1, PairsOf(h2), j + 1, true)
  {
    hide Strings, End;
    var same := SameValueAt(h, i, h2, j);
    if same {
      SweptDrop(out.items, PairsOf(h), i, PairsOf(h2), j, true);
    } else {
      KeepPair(out, h, i, PairsOf(h2), j, j + 1, true);
    }
  }

  /** One round of the loop of hstore_delete_hstore. */
  method SweepPair(out: Builder, h: HStore, i: nat, h2: HStore, j: nat) returns (i': nat, j': nat)
    requires WF(h) && WF(h2) && RoomFor(out, h) && out.Valid() && i < h.count && j <= h2.count
    requires Swept(out.items, PairsOf(h), i, PairsOf(h2), j, true)
    modifies out, out.cells
    ensures out.Valid() && Swept(out.items, PairsOf(h), i', PairsOf(h2), j', true)
    ensures i <= i' <= h.count && j <= j' <= h2.count && i + j < i' + j'
  {
    hide Strings, End;
    var difference := Compare(h, i, h2, j);
    if difference > 0 {
      SweptSkip(out.items, PairsOf(h), i, PairsOf(h2), j, true);
      return i, j + 1;
    } else if difference == 0 {
      KeepUnlessSame(out, h, i, h2, j);
      return i + 1, j + 1;
    } else {
      KeepPair(out, h, i, PairsOf(h2), j, j, true);
      return i + 1, j;
    }
  }

  /** The loop of hstore_delete_hstore. */
  method SweepHStore(out: Builder, h: HStore, h2: HStore)
    requires WF(h) && WF(h2) && RoomFor(out, h) && out.Valid() && out.items == []
    modifies out, out.cells
    ensures out.Valid() && out.items == SubtractFrom(PairsOf(h), 0, PairsOf(h2), 0, true)
    ensures |out.items| <= h.count && |Strings(out.items)| <= |h.str|
  {
    ghost var a, b := PairsOf(h), PairsOf(h2);
    SweptStart(a, b, true);
    var i, j := 0, 0;
    while i < h.count
      invariant 0 <= i <= |a| && 0 <= j <= |b|
      invariant out.Valid() && Swept(out.items, a, i, b, j, true)
      decreases |a| - i + |b| - j
    {
      i, j := SweepPair(out, h, i, h2, j);
    }
    assert out.items + [] == out.items;
  }

  lemma SweepDecodes(out: HStore, h: HStore, b: seq<Pair>, byVal: bool)
    requires WF(h) && Sorted(b) && Fits(SubtractFrom(PairsOf(h), 0, b, 0, byVal))
    requires out == Pack(SubtractFrom(PairsOf(h), 0, b, 0, byVal))
    ensures WF(out) && Decode(out) == Without(Decode(h), MapOf(b), byVal)
  {
    var a := PairsOf(h);
    SubtractIsWithout(a, 0, b, 0, byVal);
    MapFromIsMapOf(a, 0);
    MapFromIsMapOf(b, 0);
    assert a[0..] == a && b[0..] == b;
    RepresentsUnique(out, SubtractFrom(a, 0, b, 0, byVal));
  }

  /** hstore_delete_hstore: removes the pairs that h2 has with an equal value. */
  method DeleteHStore(h: HStore, h2: HStore) returns (out: HStore)
    requires WF(h) && WF(h2)
    ensures WF(out) && Decode(out) == Without(Decode(h), Decode(h2), true)
  {
    if h2.count == 0 {
      FixSizeKeeps(h);
      assert Decode(h2) == map[];
      assert Without(Decode(h), Decode(h2), true) == Decode(h);
      return FixSize(h);
    }
    hide Strings, End;
    FitsLike([], h);
    var b := new Builder(h.count, |h.str|);
    SweepHStore(b, h, h2);
    FitsLike(b.items, h);
    out := b.Finalize();
    SweepDecodes(out, h, PairsOf(h2), true);
  }

  /** The comparison of key i of h with key j of the sorted array. */
  method CompareKey(h: HStore, i: nat, rs: seq<PairRec>, j: nat) returns (difference: int)
    requires WF(h) && i < h.count && j <= |rs|
    ensures difference == Diff(PairsOf(h), i, AsPairs(rs), j)
  {
    if j >= |rs| {
      return -1;
    }
    var key := ReadKey(h, i);
    difference := KeyCmp(key, rs[j].key);
  }

  /** One round of the loop of hstore_delete_array. */
  method SweepKey(out: Builder, h: HStore, i: nat, rs: seq<PairRec>, j: nat) returns (i': nat, j': nat)
    requires WF(h) && RoomFor(out, h) && out.Valid() && i < h.count && j <= |rs|
    requires Swept(out.items, PairsOf(h), i, AsPairs(rs), j, false)
    modifies out, out.cells
    ensures out.Valid() && Swept(out.items, PairsOf(h), i', AsPairs(rs), j', false)
    ensures i <= i' <= h.count && j <= j' <= |rs| && i + j < i' + j'
  {
    hide Strings, End;
    ghost var a, b := PairsOf(h), AsPairs(rs);
    var difference := CompareKey(h, i, rs, j);
    if difference < 0 {
      KeepPair(out, h, i, b, j, j, false);
      return i + 1, j;
    }
    i', j' := if difference == 0 then i + 1 else i, j + 1;
    SweptPast(out.items, a, i, b, j, i');
  }

  /** The loop of hstore_delete_array. */
  method SweepKeys(out: Builder, h: HStore, rs: seq<PairRec>)
    requires WF(h) && RoomFor(out, h) && out.Valid() && out.items == []
    modifies out, out.cells
    ensures out.Valid() && out.items == SubtractFrom(PairsOf(h), 0, AsPairs(rs), 0, false)
    ensures |out.items| <= h.count && |Strings(out.items)| <= |h.str|
  {
    ghost var a, b := PairsOf(h), AsPairs(rs);
    SweptStart(a, b, false);
    var i, j := 0, 0;
    while i < h.count
      invariant 0 <= i <= |a| && 0 <= j <= |b|
      invariant out.Valid() && Swept(out.items, a, i, b, j, false)
      decreases |a| - i + |b| - j
    {
      i, j := SweepKey(out, h, i, rs, j);
    }
    assert out.items + [] == out.items;
  }

  ghost function WithoutArray(m: Mapping, keys: seq<Option<Bytes>>): Mapping {
    map k | k in m && !InArray(k, keys) :: m[k]
  }

  lemma KeysOfArray(rs: seq<PairRec>, keys: seq<Option<Bytes>>, m: Mapping)
    requires forall k :: Covered(rs, k) <==> InArray(k, keys)
    ensures Without(m, MapOf(AsPairs(rs)), false) == WithoutArray(m, keys)
  {
    var ps := AsPairs(rs);
    forall k: Bytes
      ensures k in MapOf(ps) <==> InArray(k, keys)
    {
      MapOfKeys(ps, k);
      if Covered(rs, k) {
        var i :| 0 <= i < |rs| && rs[i].key == k;
        assert ps[i].key == k;
      }
      if HasKey(ps, k) {
        var i :| 0 <= i < |ps| && ps[i].key == k;
        assert rs[i].key == k;
      }
    }
  }

  /** hstore_delete_array: removes the keys of a text array. */
  method DeleteArray(h: HStore, keys: seq<Option<Bytes>>) returns (out: HStore)
    requires WF(h)
    ensures WF(out) && Decode(out) == WithoutArray(Decode(h), keys)
  {
    var rs := ArrayToPairs(keys);
    KeysOfArray(rs, keys, Decode(h));
    if |rs| == 0 {
      FixSizeKeeps(h);
      assert Without(Decode(h), MapOf(AsPairs(rs)), false) == Decode(h);
      return FixSize(h);
    }
    StrictSorted(rs);
    hide Strings, End;
    FitsLike([], h);
    var b := new Builder(h.count, |h.str|);
    SweepKeys(b, h, rs);
    FitsLike(b.items, h);
    out := b.Finalize();
    SweepDecodes(out, h, AsPairs(rs), false);
  }

  // ------------------------------------------------------------- single keys

  /** The pairs from i on without the given key. */
  ghost function DropFrom(ps: seq<Pair>, i: nat, key: Bytes): seq<Pair>
    requires i <= |ps|
    decreases |ps| - i
  {
    if i == |ps| then []
    else if ps[i].key == key then DropFrom(ps, i + 1, key)
    else [ps[i]] + DropFrom(ps, i + 1, key)
  }

  lemma RemoveLater(m: Mapping, k: Bytes, v: Option<Bytes>, key: Bytes)
    ensures m[k := v] - {key} == if k == key then m - {key} else (m - {key})[k := v]
  {
  }

  lemma {:induction false} DropIsRemoval(ps: seq<Pair>, i: nat, key: Bytes)
    requires Sorted(ps) && i <= |ps|
    ensures Lists(DropFrom(ps, i, key), MapFrom(ps, i) - {key})
    decreases |ps| - i
  {
    if i < |ps| {
      DropIsRemoval(ps, i + 1, key);
      RestAbove(ps, i);
      RemoveLater(MapFrom(ps, i + 1), ps[i].key, ps[i].val, key);
      if ps[i].key != key {
        ConsLists(ps[i], DropFrom(ps, i + 1, key), MapFrom(ps, i + 1) - {key});
      }
    }
  }

  ghost predicate Dropped(items: seq<Pair>, ps: seq<Pair>, i: nat, key: Bytes) {
    && i <= |ps| && items + DropFrom(ps, i, key) == DropFrom(ps, 0, key)
    && |items| <= i && |Strings(items)| <= End(ps, i)
  }

  lemma DroppedStart(ps: seq<Pair>, key: Bytes)
    ensures Dropped([], ps, 0, key)
  {
    assert [] + DropFrom(ps, 0, key) == DropFrom(ps, 0, key);
  }

  lemma DroppedEnd(items: seq<Pair>, ps: seq<Pair>, key: Bytes)
    requires Dropped(items, ps, |ps|, key)
    ensures items == DropFrom(ps, 0, key) && |items| <= |ps| && |Strings(items)| <= |Strings(ps)|
  {
    assert items + [] == items;
  }

  lemma DroppedKeep(items: seq<Pair>, ps: seq<Pair>, i: nat, key: Bytes)
    requires Dropped(items, ps, i, key) && i < |ps|
    ensures ps[i].key == key ==> Dropped(items, ps, i + 1, key)
    ensures ps[i].key != key ==> Dropped(items + [ps[i]], ps, i + 1, key)
    ensures |Strings(items)| + Size(ps[i]) <= |Strings(ps)| && |items| < |ps|
  {
    EndStep(ps, i);
    AppendPair(items, ps[i]);
    var rest := DropFrom(ps, i + 1, key);
    assert items + [ps[i]] + rest == items + ([ps[i]] + rest);
  }

  /** One round of the loop of hstore_delete. */
  method DropOne(b: Builder, h: HStore, i: nat, key: Bytes)
    requires WF(h) && RoomFor(b, h) && b.Valid() && i < h.count && Dropped(b.items, PairsOf(h), i, key)
    modifies b, b.cells
    ensures b.Valid() && Dropped(b.items, PairsOf(h), i + 1, key)
  {
    hide Strings, End;
    var k := ReadKey(h, i);
    DroppedKeep(b.items, PairsOf(h), i, key);
    KeyCmpLaws(k, key);
    if KeyCmp(k, key) != 0 {
      CopyFrom(b, h, i);
    }
  }

  method DropInto(b: Builder, h: HStore, key: Bytes)
    requires WF(h) && RoomFor(b, h) && b.Valid() && b.items == []
    modifies b, b.cells
    ensures b.Valid() && b.items == DropFrom(PairsOf(h), 0, key)
    ensures |b.items| <= h.count && |Strings(b.items)| <= |h.str|
  {
    hide Dropped, Strings, End;
    ghost var ps := PairsOf(h);
    DroppedStart(ps, key);
    for i := 0 to h.count
      invariant b.Valid() && Dropped(b.items, ps, i, key)
    {
      DropOne(b, h, i, key);
    }
    DroppedEnd(b.items, ps, key);
  }

  /** hstore_delete: removes one key. */
  method Delete(h: HStore, key: Bytes) returns (out: HStore)
    requires WF(h)
    ensures WF(out) && Decode(out) == Decode(h) - {key}
  {
    ghost var ps := PairsOf(h);
    var b := new Builder(h.count, |h.str|);
    DropInto(b, h, key);
    out := b.Finalize();
    DropIsRemoval(ps, 0, key);
    MapFromIsMapOf(ps, 0);
    assert ps[0..] == ps;
    RepresentsUnique(out, DropFrom(ps, 0, key));
  }

  /** Deleting the non-null keys of an array one at a time. */
  ghost function DeleteEach(m: Mapping, keys: seq<Option<Bytes>>): Mapping {
    if keys == [] then m
    else if keys[0].None? then DeleteEach(m, keys[1..])
    else DeleteEach(m - {keys[0].value}, keys[1..])
  }

  /** The array deletion agrees with repeated single deletions. */
  lemma {:induction false} DeleteArrayIsRepeated(m: Mapping, keys: seq<Option<Bytes>>)
    ensures WithoutArray(m, keys) == DeleteEach(m, keys)
    decreases |keys|
  {
    if keys != [] {
      assert keys == [keys[0]] + keys[1..];
      assert forall k: Bytes :: InArray(k, keys) <==> keys[0] == Some(k) || InArray(k, keys[1..]);
      var m' := if keys[0].None? then m else m - {keys[0].value};
      DeleteArrayIsRepeated(m', keys[1..]);
      assert WithoutArray(m, keys) == WithoutArray(m', keys[1..]);
    }
  }

  /** Single deletions, one for each non-null key of the array. */
  method DeleteRepeatedly(h: HStore, keys: seq<Option<Bytes>>) returns (out: HStore)
    requires WF(h)
    ensures WF(out) && Decode(out) == DeleteEach(Decode(h), keys)
  {
    out := h;
    var i := 0;
    assert keys[0..] == keys;
    while i < |keys|
      invariant 0 <= i <= |keys| && WF(out)
      invariant DeleteEach(Decode(out), keys[i..]) == DeleteEach(Decode(h), keys)
    {
      assert keys[i..][0] == keys[i] && keys[i..][1..] == keys[i + 1..];
      if keys[i].Some? {
        out := Delete(out, keys[i].value);
      }
      i := i + 1;
    }
  }

  /** Deleting an array of keys and deleting its keys one by one give the
      identical value. */
  method DeleteBothWays(h: HStore, keys: seq<Option<Bytes>>) returns (atOnce: HStore, oneByOne: HStore)
    requires WF(h)
    ensures atOnce == oneByOne && WF(atOnce) && Decode(atOnce) == WithoutArray(Decode(h), keys)
  {
    atOnce := DeleteArray(h, keys);
    oneByOne := DeleteRepeatedly(h, keys);
    DeleteArrayIsRepeated(Decode(h), keys);
    DecodeInjective(atOnce, oneByOne);
  }

  // -------------------------------------------------------------------- slice

  ghost function Restrict(m: Mapping, keys: seq<Option<Bytes>>): Mapping {
    map k | k in m && InArray(k, keys) :: m[k]
  }

  /** The pairs of h at the first n of the sorted keys. */
  ghost predicate SliceSoFar(outs: seq<PairRec>, m: Mapping, rs: seq<PairRec>, n: nat) {
    && n <= |rs| && Strict(outs)
    && (outs != [] ==> n > 0 && (Less(outs[|outs| - 1].key, rs[n - 1].key) || outs[|outs| - 1].key == rs[n - 1].key))
    && (forall i :: 0 <= i < |outs| ==> outs[i].key in m && m[outs[i].key] == AsPair(outs[i]).val && Covered(rs, outs[i].key))
    && (forall i :: 0 <= i < n && rs[i].key in m ==> Covered(outs, rs[i].key))
  }

  lemma SliceSkip(outs: seq<PairRec>, m: Mapping, rs: seq<PairRec>, n: nat)
    requires SliceSoFar(outs, m, rs, n) && Strict(rs) && n < |rs| && rs[n].key !in m
    ensures SliceSoFar(outs, m, rs, n + 1)
  {
    if outs != [] && Less(outs[|outs| - 1].key, rs[n - 1].key) {
      LessTransitive(outs[|outs| - 1].key, rs[n - 1].key, rs[n].key);
    }
    if outs != [] {
      assert Less(rs[n - 1].key, rs[(n - 1) + 1].key);
    }
  }

  lemma SliceAdd(outs: seq<PairRec>, m: Mapping, rs: seq<PairRec>, n: nat, r: PairRec)
    requires SliceSoFar(outs, m, rs, n) && Strict(rs) && n < |rs|
    requires r.key == rs[n].key && r.key in m && m[r.key] == AsPair(r).val
    ensures SliceSoFar(outs + [r], m, rs, n + 1)
  {
    var o := outs + [r];
    if outs != [] {
      assert Less(rs[n - 1].key, rs[(n - 1) + 1].key);
      if Less(outs[|outs| - 1].key, rs[n - 1].key) {
        LessTransitive(outs[|outs| - 1].key, rs[n - 1].key, r.key);
      }
    }
    forall i | 0 <= i < |o| - 1
      ensures Less(o[i].key, o[i + 1].key)
    {
      if i < |outs| - 1 {
        assert Less(outs[i].key, outs[i + 1].key);
      }
    }
    forall i | 0 <= i < n + 1 && rs[i].key in m
      ensures Covered(o, rs[i].key)
    {
      CoveredAppend(outs, r, rs[i].key);
    }
  }

  lemma SliceIsRestrict(outs: seq<PairRec>, m: Mapping, rs: seq<PairRec>, keys: seq<Option<Bytes>>)
    requires SliceSoFar(outs, m, rs, |rs|) && forall k :: Covered(rs, k) <==> InArray(k, keys)
    ensures Sorted(AsPairs(outs)) && MapOf(AsPairs(outs)) == Restrict(m, keys)
  {
    StrictSorted(outs);
    var ps := AsPairs(outs);
    forall k | k in MapOf(ps)
      ensures k in Restrict(m, keys) && MapOf(ps)[k] == m[k]
    {
      MapOfKeys(ps, k);
      var i :| 0 <= i < |ps| && ps[i].key == k;
      MapOfAt(ps, i);
      assert outs[i].key == k;
    }
    forall k | k in Restrict(m, keys)
      ensures k in MapOf(ps)
    {
      assert Covered(rs, k);
      var j :| 0 <= j < |rs| && rs[j].key == k;
      assert Covered(outs, rs[j].key);
      var i :| 0 <= i < |outs| && outs[i].key == k;
      MapOfAt(ps, i);
    }
  }

  /** What the lookups keep: the pairs found so far lie within the first bound
      pairs of the value. */
  ghost predicate LookedUp(ps: seq<Pair>, bound: nat, outs: seq<PairRec>, bufsiz: nat) {
    bound <= |ps| && |outs| <= bound && bufsiz == BufLen(outs) <= End(ps, bound)
  }

  lemma LookedUpSkip(ps: seq<Pair>, bound: nat, outs: seq<PairRec>, bufsiz: nat, bound': nat)
    requires LookedUp(ps, bound, outs, bufsiz) && bound <= bound' <= |ps|
    ensures LookedUp(ps, bound', outs, bufsiz)
  {
    StringsPrefix(ps, bound, bound');
  }

  lemma LookedUpAdd(ps: seq<Pair>, bound: nat, outs: seq<PairRec>, bufsiz: nat, idx: nat, r: PairRec)
    requires LookedUp(ps, bound, outs, bufsiz) && bound <= idx < |ps|
    requires AsPair(r) == ps[idx] && r.val == ValBytes(ps[idx])
    ensures LookedUp(ps, idx + 1, outs + [r], bufsiz + |r.key| + |r.val|)
  {
    LookedUpSkip(ps, bound, outs, bufsiz, idx);
    EndStep(ps, idx);
    BufLenStep(outs, r);
  }

  /** One lookup, with the carried bound. */
  method LookupOne(h: HStore, rs: seq<PairRec>, i: nat, lowbound: nat, outs: seq<PairRec>, bufsiz: nat)
    returns (bound: nat, outs': seq<PairRec>, bufsiz': nat)
    requires WF(h) && Strict(rs) && i < |rs| && Below(PairsOf(h), lowbound, rs[i].key)
    requires SliceSoFar(outs, Decode(h), rs, i) && LookedUp(PairsOf(h), lowbound, outs, bufsiz)
    ensures AtMost(PairsOf(h), bound, rs[i].key)
    ensures SliceSoFar(outs', Decode(h), rs, i + 1)
    ensures LookedUp(PairsOf(h), bound, outs', bufsiz')
  {
    hide Strings, End;
    ghost var ps := PairsOf(h);
    var idx;
    idx, bound := FindKey(h, lowbound, rs[i].key);
    if idx >= 0 {
      var isnull, val := ReadVal(h, idx);
      var r := PairRec(rs[i].key, val, isnull, false);
      SliceAdd(outs, Decode(h), rs, i, r);
      LookedUpAdd(ps, lowbound, outs, bufsiz, idx, r);
      outs', bufsiz' := outs + [r], bufsiz + |r.key| + |r.val|;
    } else {
      SliceSkip(outs, Decode(h), rs, i);
      LookedUpSkip(ps, lowbound, outs, bufsiz, bound);
      outs', bufsiz' := outs, bufsiz;
    }
  }

  /** The lookups of hstore_slice_to_hstore. */
  method Lookups(h: HStore, rs: seq<PairRec>) returns (outs: seq<PairRec>, bufsiz: nat)
    requires WF(h) && Strict(rs)
    ensures SliceSoFar(outs, Decode(h), rs, |rs|) && bufsiz == BufLen(outs)
    ensures |outs| <= h.count && bufsiz <= |h.str|
  {
    ghost var ps := PairsOf(h);
    var lastidx, i := 0, 0;
    outs, bufsiz := [], 0;
    while i < |rs|
      invariant 0 <= i <= |rs| && (i < |rs| ==> Below(ps, lastidx, rs[i].key))
      invariant SliceSoFar(outs, Decode(h), rs, i)
      invariant LookedUp(ps, lastidx, outs, bufsiz)
    {
      lastidx, outs, bufsiz := LookupOne(h, rs, i, lastidx, outs, bufsiz);
      if i + 1 < |rs| {
        BoundCarries(ps, lastidx, rs[i].key, rs[i + 1].key);
      }
      i := i + 1;
    }
    LookedUpSkip(ps, lastidx, outs, bufsiz, |ps|);
  }

  /** hstore_slice_to_hstore: the mapping restricted to the keys of an array. */
  method Slice(h: HStore, keys: seq<Option<Bytes>>) returns (out: HStore)
    requires WF(h)
    ensures WF(out) && Decode(out) == Restrict(Decode(h), keys)
  {
    var rs := ArrayToPairs(keys);
    var outs, bufsiz := Lookups(h, rs);
    SliceIsRestrict(outs, Decode(h), rs, keys);
    var packed := HStorePairs(outs, bufsiz);
    out := packed.value;
    RepresentsUnique(out, AsPairs(outs));
  }

  // ------------------------------------------------------------ laws of values

  /** Cutting a value in two along some keys and joining the parts gives it back. */
  method CutAndJoin(h: HStore, keys: seq<Option<Bytes>>) returns (out: Option<HStore>)
    requires WF(h)
    ensures out.Some? ==> out.value == h
  {
    var inside := Slice(h, keys);
    var outside := DeleteArray(h, keys);
    out := Concat(inside, outside);
    if out.Some? {
      ghost var m := Decode(h);
      assert Restrict(m, keys) + WithoutArray(m, keys) == m;
      DecodeInjective(out.value, h);
    }
  }

  /** Deleting a value from itself leaves nothing, and deleting the empty value leaves
      everything. */
  method DeleteSelf(h: HStore, empty: HStore) returns (none: HStore, same: HStore)
    requires WF(h) && WF(empty) && empty.count == 0
    ensures none == empty && same == h
  {
    NoPairs(empty);
    none := DeleteHStore(h, h);
    assert Decode(none) == map[];
    DecodeInjective(none, empty);
    same := DeleteHStore(h, empty);
    assert Without(Decode(h), Decode(empty), true) == Decode(h);
    DecodeInjective(same, h);
  }

  /** A pair that was put in is found, and one that was deleted is not. */
  method PutAndDelete(h: HStore, key: Bytes, one: HStore) returns (there: bool, gone: bool)
    requires WF(h) && WF(one) && key in Decode(one) && h.varsize + one.varsize <= MAX_ALLOC
    ensures there && !gone
  {
    var put := Concat(h, one);
    there := Exists(put.value, key);
    var less := Delete(put.value, key);
    gone := Exists(less, key);
  }
}
