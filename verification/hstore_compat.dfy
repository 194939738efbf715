/** Upgrading hstore values of the old on-disk format in place
    (contrib/hstore/hstore_compat.c).  Old and new entries share their memory: a
    slot is the eight bytes that are one old entry or two new ones. */
module HStoreCompat {
  import opened Wrappers
  import opened HStoreBase
  import opened HStorePack

  type Word = x: int | 0 <= x < 0x1_0000_0000

  datatype Slot = Slot(lo: Word, hi: Word)

  /** An entry of the old format. */
  datatype OldEntry = OldEntry(keylen: nat, rawlen: nat, isnull: bool, pos: nat) {
    /** The length of the value; that of a null does not count. */
    function Vallen(): nat {
      if isnull then 0 else rawlen
    }
  }

  /** The old reading of a slot: two 16-bit lengths, then the null bit and the
      31-bit position, in the usual little-endian layout. */
  function OldView(s: Slot): OldEntry {
    OldEntry(s.lo % 0x1_0000, s.lo / 0x1_0000, s.hi % 2 == 1, s.hi / 2)
  }

  /** The new reading of a word: two flag bits and a 30-bit position. */
  function Entry(w: Word): HEntry {
    HEntry(w >= 0x8000_0000, (w / 0x4000_0000) % 2 == 1, w % 0x4000_0000)
  }

  function NewView(s: Slot): EntryPair {
    EntryPair(Entry(s.lo), Entry(s.hi))
  }

  function OldViews(ss: seq<Slot>): (os: seq<OldEntry>)
    ensures |os| == |ss| && forall i :: 0 <= i < |ss| ==> os[i] == OldView(ss[i])
  {
    seq(|ss|, i requires 0 <= i < |ss| => OldView(ss[i]))
  }

  function NewViews(ss: seq<Slot>): (es: seq<EntryPair>)
    ensures |es| == |ss| && forall i :: 0 <= i < |ss| ==> es[i] == NewView(ss[i])
  {
    seq(|ss|, i requires 0 <= i < |ss| => NewView(ss[i]))
  }

  // ------------------------------------------------------ what old values mean

  /** Where the strings of the first n old entries end. */
  ghost function OldEnd(os: seq<OldEntry>, n: nat): nat
    requires n <= |os|
  {
    if n == 0 then 0 else OldEnd(os, n - 1) + os[n - 1].keylen + os[n - 1].Vallen()
  }

  ghost predicate AtEnd(os: seq<OldEntry>, i: nat)
    requires i < |os|
  {
    os[i].pos == OldEnd(os, i)
  }

  /** Positions are contiguous and key lengths do not decrease. */
  ghost predicate OldShape(os: seq<OldEntry>) {
    && (forall i :: 0 <= i < |os| ==> AtEnd(os, i))
    && (forall i :: 1 <= i < |os| ==> os[i - 1].keylen <= os[i].keylen)
  }

  lemma {:induction false} OldEndMonotone(os: seq<OldEntry>, i: nat, j: nat)
    requires i <= j <= |os|
    ensures OldEnd(os, i) <= OldEnd(os, j)
  {
    if i < j {
      OldEndMonotone(os, i, j - 1);
    }
  }

  /** The pair of old entry i. */
  ghost function OldPair(os: seq<OldEntry>, str: Bytes, i: nat): (p: Pair)
    requires i < |os| && OldEnd(os, |os|) <= |str|
    ensures |p.key| == os[i].keylen && |ValBytes(p)| == os[i].Vallen() && (p.val.None? <==> os[i].isnull)
  {
    OldEndMonotone(os, i + 1, |os|);
    var p, k := OldEnd(os, i), OldEnd(os, i) + os[i].keylen;
    Pair(str[p..k], if os[i].isnull then None else Some(str[k..k + os[i].rawlen]))
  }

  /** The pairs an old value stands for. */
  ghost function OldPairs(os: seq<OldEntry>, str: Bytes): seq<Pair>
    requires OldEnd(os, |os|) <= |str|
  {
    seq(|os|, i requires 0 <= i < |os| => OldPair(os, str, i))
  }

  lemma Splice(s: Bytes, a: nat, k: nat, b: nat)
    requires a <= k <= b <= |s|
    ensures s[..a] + (s[a..k] + s[k..b]) == s[..b]
  {
  }

  lemma OldStringsStep(os: seq<OldEntry>, str: Bytes, n: nat)
    requires n < |os| && OldEnd(os, |os|) <= |str|
    ensures OldEnd(os, n) <= OldEnd(os, n + 1) <= |str|
    ensures var p := OldPairs(os, str)[n];
            str[..OldEnd(os, n)] + Item(p) == str[..OldEnd(os, n + 1)]
  {
    OldEndMonotone(os, n + 1, |os|);
    Splice(str, OldEnd(os, n), OldEnd(os, n) + os[n].keylen, OldEnd(os, n + 1));
  }

  lemma StringsGrow(ps: seq<Pair>, n: nat, s: Bytes, s': Bytes)
    requires n < |ps| && StringsTo(ps, n) == s && s + Item(ps[n]) == s'
    ensures StringsTo(ps, n + 1) == s'
  {
    StringsStep(ps, n);
  }

  lemma {:induction false} OldStrings(os: seq<OldEntry>, str: Bytes, n: nat)
    requires n <= |os| && OldEnd(os, |os|) <= |str|
    ensures OldEnd(os, n) <= |str| && StringsTo(OldPairs(os, str), n) == str[..OldEnd(os, n)]
  {
    if n == 0 {
      assert str[..OldEnd(os, n)] == [];
    } else {
      hide StringsTo, End;
      OldStrings(os, str, n - 1);
      OldStringsStep(os, str, n - 1);
      StringsGrow(OldPairs(os, str), n - 1, str[..OldEnd(os, n - 1)], str[..OldEnd(os, n)]);
    }
  }

  /** The canonical entries of the pairs, in terms of the old entries. */
  lemma OldPlainEntries(os: seq<OldEntry>, str: Bytes, i: nat)
    requires i < |os| && OldEnd(os, |os|) <= |str|
    ensures PlainEntries(OldPairs(os, str), i) ==
            EntryPair(HEntry(false, false, OldEnd(os, i) + os[i].keylen),
                      HEntry(false, os[i].isnull, OldEnd(os, i + 1)))
  {
    OldStrings(os, str, i);
    OldStrings(os, str, i + 1);
  }

  // ------------------------------------------------------------- the rewrite

  /** What the conversion writes over a slot. */
  function Convert(s: Slot): Slot {
    var o := OldView(s);
    var k, v := o.pos + o.keylen, o.pos + o.keylen + o.Vallen();
    Slot(k % 0x4000_0000, v % 0x4000_0000 + (if o.isnull then 0x4000_0000 else 0))
  }

  lemma EntryOf(pos: nat, isnull: bool)
    requires pos < 0x4000_0000
    ensures Entry(pos % 0x4000_0000 + (if isnull then 0x4000_0000 else 0)) == HEntry(false, isnull, pos)
  {
  }

  lemma ConvertView(s: Slot)
    requires OldView(s).pos + OldView(s).keylen + OldView(s).Vallen() < 0x4000_0000
    ensures Convert(s).lo < 0x8000_0000
    ensures var o := OldView(s);
            NewView(Convert(s)) == EntryPair(HEntry(false, false, o.pos + o.keylen),
                                             HEntry(false, o.isnull, o.pos + o.keylen + o.Vallen()))
  {
    var o := OldView(s);
    EntryOf(o.pos + o.keylen, false);
    EntryOf(o.pos + o.keylen + o.Vallen(), o.isnull);
  }

  /** Setting the first-flag in the first word of a slot. */
  function Flag(s: Slot): Slot {
    if s.lo < 0x8000_0000 then s.(lo := s.lo + 0x8000_0000) else s
  }

  lemma FlagView(s: Slot)
    ensures NewView(Flag(s)) == NewView(s).(key := NewView(s).key.(isfirst := true))
  {
  }

  function ConvertAll(ss: seq<Slot>): (ts: seq<Slot>)
    ensures |ts| == |ss| && forall i :: 0 <= i < |ss| ==> ts[i] == Convert(ss[i])
  {
    seq(|ss|, i requires 0 <= i < |ss| => Convert(ss[i]))
  }

  ghost predicate ValidOld(ss: seq<Slot>, str: Bytes) {
    && OldShape(OldViews(ss)) && OldEnd(OldViews(ss), |ss|) <= |str|
    && CalcDataSize(|ss|, |str|) <= MAX_ALLOC
  }

  /** A converted slot, read the new way, holds the canonical entries. */
  lemma ConvertedEntries(ss: seq<Slot>, str: Bytes, i: nat)
    requires i < |ss| && ValidOld(ss, str)
    ensures NewView(Convert(ss[i])) == PlainEntries(OldPairs(OldViews(ss), str), i)
    ensures Convert(ss[i]).lo < 0x8000_0000
  {
    var os := OldViews(ss);
    OldEndMonotone(os, i + 1, |os|);
    assert AtEnd(os, i);
    ConvertView(ss[i]);
    OldPlainEntries(os, str, i);
  }

  /** The slots after the loop and after the first entry was flagged. */
  function Rewrite(ss: seq<Slot>): (ts: seq<Slot>)
    ensures |ts| == |ss|
  {
    if ss == [] then [] else ConvertAll(ss)[0 := Flag(Convert(ss[0]))]
  }

  lemma PlainArePacked(ps: seq<Pair>, es: seq<EntryPair>)
    requires Fits(ps) && |es| == |ps|
    requires forall i :: 0 <= i < |ps| ==> es[i] == PlainEntries(ps, i)
    ensures MarkFirst(es) == Pack(ps).entries
  {
    assert es == seq(|ps|, i requires 0 <= i < |ps| => PlainEntries(ps, i));
  }

  lemma RewriteViews(ss: seq<Slot>)
    ensures NewViews(Rewrite(ss)) == MarkFirst(NewViews(ConvertAll(ss)))
  {
    if ss != [] {
      FlagView(Convert(ss[0]));
    }
  }

  lemma ConvertedArePlain(ss: seq<Slot>, str: Bytes)
    requires ValidOld(ss, str)
    ensures var ps := OldPairs(OldViews(ss), str);
            forall i :: 0 <= i < |ss| ==> NewViews(ConvertAll(ss))[i] == PlainEntries(ps, i)
  {
    forall i | 0 <= i < |ss|
      ensures NewView(Convert(ss[i])) == PlainEntries(OldPairs(OldViews(ss), str), i)
    {
      ConvertedEntries(ss, str, i);
    }
  }

  /** The rewritten memory is the entry array of the packed pairs. */
  lemma RewriteIsPack(ss: seq<Slot>, str: Bytes)
    requires ValidOld(ss, str)
    ensures Fits(OldPairs(OldViews(ss), str))
    ensures NewViews(Rewrite(ss)) == Pack(OldPairs(OldViews(ss), str)).entries
    ensures Strings(OldPairs(OldViews(ss), str)) == str[..OldEnd(OldViews(ss), |ss|)]
  {
    OldStrings(OldViews(ss), str, |ss|);
    RewriteViews(ss);
    ConvertedArePlain(ss, str);
    PlainArePacked(OldPairs(OldViews(ss), str), NewViews(ConvertAll(ss)));
  }

  // ------------------------------------------------------------- whole values

  /** The end offset in the last entry, which gives the corrected size. */
  function LastEnd(ss: seq<Slot>): nat {
    if ss == [] then 0 else Entry(ss[|ss| - 1].hi).endpos
  }

  /** The value the slots and the string area are in the new format. */
  function NewValue(ss: seq<Slot>, str: Bytes): HStore
    requires LastEnd(ss) <= |str|
  {
    HStore(CalcDataSize(|ss|, LastEnd(ss)), |ss|, NewViews(ss), str[..LastEnd(ss)])
  }

  /** Rewriting an old value gives the packed form of its pairs. */
  lemma RewriteKeepsPairs(ss: seq<Slot>, str: Bytes)
    requires ValidOld(ss, str)
    ensures LastEnd(Rewrite(ss)) <= |str|
    ensures Fits(OldPairs(OldViews(ss), str))
    ensures NewValue(Rewrite(ss), str) == Pack(OldPairs(OldViews(ss), str))
  {
    RewriteIsPack(ss, str);
    var ps := OldPairs(OldViews(ss), str);
    if ss != [] {
      assert Pack(ps).entries[|ps| - 1].val == PlainEntries(ps, |ps| - 1).val;
      assert NewViews(Rewrite(ss))[|ss| - 1].val == Entry(Rewrite(ss)[|ss| - 1].hi);
    }
  }

  /** The words in memory where the code looks for the first and for the last
      entry, in case these are not among the slots of the value. */
  datatype Behind = Behind(first: Word, last: Word)

  function FirstWord(ss: seq<Slot>, behind: Behind): Word {
    if ss == [] then behind.first else ss[0].lo
  }

  /** The end offset of the last of count entry pairs. */
  function EndOf(ss: seq<Slot>, count: nat, behind: Behind): nat {
    if |ss| == count then LastEnd(ss) else Entry(behind.last).endpos
  }

  /** The test that takes a value for a new one without further checks. */
  predicate Fast(size: nat, varsize: nat, ss: seq<Slot>, behind: Behind) {
    size == 0 || (varsize < 32768 && Entry(FirstWord(ss, behind)).isfirst)
  }

  /** The first old entry is a null whose unused length field is 32768 or more. */
  predicate StrayLength(ss: seq<Slot>) {
    ss != [] && OldView(ss[0]).isnull && OldView(ss[0]).rawlen >= 32768
  }

  /** Among valid old values the quick test takes exactly the empty ones and the
      short ones with a stray length on a leading null. */
  lemma FastOnOld(ss: seq<Slot>, str: Bytes, behind: Behind)
    requires ValidOld(ss, str)
    ensures var varsize := CalcDataSize(|ss|, |str|);
            Fast(|ss|, varsize, ss, behind) <==> ss == [] || (varsize < 32768 && StrayLength(ss))
  {
    if ss != [] {
      var os := OldViews(ss);
      OldEndMonotone(os, 1, |os|);
      assert OldEnd(os, 1) == os[0].keylen + os[0].Vallen();
    }
  }

  /** What the upgrade makes of the slots of a value without the version flag. */
  ghost function Upgraded(size: nat, varsize: nat, ss: seq<Slot>, str: Bytes, behind: Behind): seq<Slot> {
    if size == |ss| < 0x1000_0000 && !Fast(size, varsize, ss, behind) && ValidOld(ss, str) then Rewrite(ss) else ss
  }

  /** The upgrade of a value without the version flag reports an error: the quick
      test does not take it, and it passes neither of the two others. */
  ghost predicate Reported(size: nat, varsize: nat, ss: seq<Slot>, str: Bytes, behind: Behind) {
    && !Fast(size, varsize, ss, behind)
    && !(|ss| == size < 0x1000_0000 && ValidOld(ss, str))
    && !(|ss| == size % 0x1000_0000 && NewShape(NewViews(ss), |str|))
  }

  lemma NullAtZero(s: Slot)
    requires OldView(s).isnull && OldView(s).pos == 0
    ensures !NewView(s).val.isnull
  {
  }

  /** Read as they are, the slots of such a value lose the leading null. */
  lemma StrayLengthLosesNull(ss: seq<Slot>, str: Bytes)
    requires ValidOld(ss, str) && StrayLength(ss)
    ensures OldPair(OldViews(ss), str, 0).val.None?
    ensures !NewViews(ss)[0].val.isnull
  {
    assert AtEnd(OldViews(ss), 0);
    NullAtZero(ss[0]);
  }

  lemma PackedNull(ps: seq<Pair>)
    requires Fits(ps) && ps != []
    ensures Pack(ps).entries[0].val.isnull == ps[0].val.None?
  {
  }

  /** The slots keep the meaning of the old value. */
  ghost predicate Keeps(ts: seq<Slot>, ss: seq<Slot>, str: Bytes)
    requires ValidOld(ss, str)
  {
    && LastEnd(ts) <= |str| && Fits(OldPairs(OldViews(ss), str))
    && NewValue(ts, str) == Pack(OldPairs(OldViews(ss), str))
  }

  lemma UpgradeFails(ss: seq<Slot>, str: Bytes)
    requires ValidOld(ss, str) && StrayLength(ss)
    ensures !Keeps(ss, ss, str)
  {
    if Keeps(ss, ss, str) {
      StrayLengthLosesNull(ss, str);
      PackedNull(OldPairs(OldViews(ss), str));
    }
  }

  /** The upgrade of a valid old value means the same pairs if and only if the
      value is not a short one with a stray length on a leading null. */
  lemma UpgradeKeepsOld(ss: seq<Slot>, str: Bytes, behind: Behind)
    requires ValidOld(ss, str)
    ensures var varsize := CalcDataSize(|ss|, |str|);
            && !Reported(|ss|, varsize, ss, str, behind)
            && (Keeps(Upgraded(|ss|, varsize, ss, str, behind), ss, str) <==>
                !(varsize < 32768 && StrayLength(ss)))
  {
    RewriteKeepsPairs(ss, str);
    FastOnOld(ss, str, behind);
    if StrayLength(ss) {
      UpgradeFails(ss, str);
    }
  }

  /** Such a value exists: one pair, with key "a" and a null. */
  lemma StrayLengthExists()
    ensures var ss := [Slot(0x8000_0001, 1)];
            ValidOld(ss, [97]) && CalcDataSize(1, 1) < 32768 && StrayLength(ss)
            && OldPairs(OldViews(ss), [97]) == [Pair([97], None)]
            && NewValue(ss, [97]).entries[0].val == HEntry(false, false, 1)
  {
    var ss := [Slot(0x8000_0001, 1)];
    var os := OldViews(ss);
    assert os[0] == OldEntry(1, 32768, true, 0);
    assert OldEnd(os, 0) == 0 && OldEnd(os, 1) == 1;
    assert [97][0..1] == [97];
  }

  // ---------------------------------------------------- the two validity tests

  function KeyLen(es: seq<EntryPair>, i: nat): int
    requires i < |es|
  {
    if i == 0 || es[i].key.isfirst then es[i].key.endpos else es[i].key.endpos - es[i - 1].val.endpos
  }

  // What the new format demands of consecutive pairs of entries.

  predicate PosStep(es: seq<EntryPair>, i: nat)
    requires 1 <= i < |es|
  {
    !es[i].key.isfirst && es[i - 1].val.endpos <= es[i].key.endpos
  }

  predicate KeyStep(es: seq<EntryPair>, i: nat)
    requires 1 <= i < |es|
  {
    KeyLen(es, i - 1) <= KeyLen(es, i) && !es[i].key.isnull
  }

  /** What it demands within one pair. */
  predicate NewPair(e: EntryPair) {
    !e.val.isfirst && e.key.endpos <= e.val.endpos
  }

  ghost predicate NewShape(es: seq<EntryPair>, len: nat) {
    es != [] ==>
      && es[0].key.isfirst && es[|es| - 1].val.endpos <= len
      && (forall i :: 0 <= i < |es| ==> NewPair(es[i]))
      && (forall i :: 1 <= i < |es| ==> PosStep(es, i))
      && (forall i :: 1 <= i < |es| ==> KeyStep(es, i))
  }

  /** The entries of pair i, by their end offsets. */
  ghost predicate PackedAt(ps: seq<Pair>, e: EntryPair, i: nat)
    requires i < |ps|
  {
    && e.key == HEntry(i == 0, false, End(ps, i) + |ps[i].key|)
    && e.val == HEntry(false, ps[i].val.None?, End(ps, i + 1))
    && e.key.endpos <= e.val.endpos
  }

  lemma PackedEntry(ps: seq<Pair>, i: nat)
    requires Fits(ps) && i < |ps|
    ensures PackedAt(ps, Pack(ps).entries[i], i)
  {
    EndStep(ps, i);
  }

  lemma PackedKeyLen(ps: seq<Pair>, es: seq<EntryPair>, i: nat)
    requires i < |ps| == |es| && PackedAt(ps, es[i], i)
    requires i > 0 ==> PackedAt(ps, es[i - 1], i - 1)
    ensures KeyLen(es, i) == |ps[i].key|
  {
  }

  lemma ShorterFirst(a: Bytes, b: Bytes)
    requires Less(a, b)
    ensures |a| <= |b|
  {
  }

  /** Every packed value passes the test for the new format. */
  lemma PackedIsNewShape(ps: seq<Pair>, es: seq<EntryPair>)
    requires Fits(ps) && Sorted(ps) && es == Pack(ps).entries
    ensures NewShape(es, |Strings(ps)|)
  {
    forall i | 0 <= i < |es|
      ensures PackedAt(ps, es[i], i)
    {
      PackedEntry(ps, i);
    }
    AtIsNewShape(ps, es);
  }

  lemma AtIsNewShape(ps: seq<Pair>, es: seq<EntryPair>)
    requires Sorted(ps) && |es| == |ps|
    requires forall i :: 0 <= i < |es| ==> PackedAt(ps, es[i], i)
    ensures NewShape(es, |Strings(ps)|)
  {
    forall i | 1 <= i < |es|
      ensures PosStep(es, i) && KeyStep(es, i)
    {
      PackedKeyLen(ps, es, i - 1);
      PackedKeyLen(ps, es, i);
      assert Linked(ps, i - 1);
      ShorterFirst(ps[i - 1].key, ps[i].key);
    }
  }

  /** The slots are those of the packed pairs, and their strings come first. */
  ghost predicate HoldsNew(ss: seq<Slot>, ps: seq<Pair>, str: Bytes) {
    Sorted(ps) && Fits(ps) && NewViews(ss) == Pack(ps).entries && Strings(ps) <= str
  }

  /** The slots mean the pairs. */
  ghost predicate Means(ts: seq<Slot>, ps: seq<Pair>, str: Bytes)
    requires Fits(ps)
  {
    LastEnd(ts) <= |str| && NewValue(ts, str) == Pack(ps)
  }

  lemma NewMeans(ss: seq<Slot>, ps: seq<Pair>, str: Bytes)
    requires HoldsNew(ss, ps, str)
    ensures Means(ss, ps, str)
  {
    if ps != [] {
      PackedEntry(ps, |ps| - 1);
      assert NewViews(ss)[|ss| - 1].val == Entry(ss[|ss| - 1].hi);
    }
    assert LastEnd(ss) == |Strings(ps)|;
  }

  /** The first slot of a new value that passes the old test as well: its old
      length is 32768, and its old null bit is the opposite of the new one. */
  lemma RewriteBreaksSlot(s: Slot)
    requires NewView(s).key.isfirst && !NewView(s).key.isnull && NewView(s).key.endpos <= NewView(s).val.endpos
    requires OldView(s).pos == 0
    ensures OldView(s).rawlen == 32768 && NewView(Convert(s)).val != NewView(s).val
  {
    assert s.hi < 2 && 0x8000_0000 <= s.lo <= 0x8000_0001;
    ConvertView(s);
  }

  lemma RewriteBreaksNew(ss: seq<Slot>, ps: seq<Pair>, str: Bytes)
    requires HoldsNew(ss, ps, str) && ps != [] && ValidOld(ss, str)
    ensures !Means(Rewrite(ss), ps, str)
  {
    PackedEntry(ps, 0);
    assert NewViews(ss)[0] == NewView(ss[0]);
    assert AtEnd(OldViews(ss), 0);
    RewriteBreaksSlot(ss[0]);
    FlagView(Convert(ss[0]));
    assert NewViews(Rewrite(ss))[0].val != NewViews(ss)[0].val;
  }

  lemma NewShapeLonger(es: seq<EntryPair>, len: nat, len': nat)
    requires NewShape(es, len) && len <= len'
    ensures NewShape(es, len')
  {
  }

  lemma FewPairs(n: nat, len: nat)
    requires CalcDataSize(n, len) <= MAX_ALLOC
    ensures n % 0x1000_0000 == n
  {
  }

  lemma NewIsNotReported(ss: seq<Slot>, ps: seq<Pair>, str: Bytes, behind: Behind)
    requires HoldsNew(ss, ps, str)
    ensures NewShape(NewViews(ss), |str|)
    ensures !Reported(|ss|, CalcDataSize(|ss|, |str|), ss, str, behind)
  {
    PackedIsNewShape(ps, NewViews(ss));
    NewShapeLonger(NewViews(ss), |Strings(ps)|, |str|);
    FewPairs(|ss|, |Strings(ps)|);
  }

  /** The upgrade of an unflagged new value reports no error.  It keeps the pairs if
      and only if the quick test takes the value or it does not pass the test for
      the old format. */
  lemma UpgradeKeepsNewIff(ss: seq<Slot>, ps: seq<Pair>, str: Bytes, behind: Behind)
    requires HoldsNew(ss, ps, str)
    ensures !Reported(|ss|, CalcDataSize(|ss|, |str|), ss, str, behind)
    ensures var varsize := CalcDataSize(|ss|, |str|);
            Means(Upgraded(|ss|, varsize, ss, str, behind), ps, str) <==>
            Fast(|ss|, varsize, ss, behind) || !ValidOld(ss, str)
  {
    NewMeans(ss, ps, str);
    NewIsNotReported(ss, ps, str, behind);
    if ps != [] && ValidOld(ss, str) {
      RewriteBreaksNew(ss, ps, str);
    }
  }

  /** One that is not kept: the pair of two empty strings, with 32768 bytes of
      padding behind it. */
  lemma AmbiguousExists(str: Bytes, behind: Behind)
    requires |str| == 32768
    ensures var ss, ps := [Slot(0x8000_0000, 0)], [Pair([], Some([]))];
            HoldsNew(ss, ps, str) && ValidOld(ss, str)
            && !Fast(1, CalcDataSize(1, |str|), ss, behind)
  {
    var ss, ps := [Slot(0x8000_0000, 0)], [Pair([], Some([]))];
    var os := OldViews(ss);
    assert os[0] == OldEntry(0, 32768, false, 0);
    assert OldEnd(os, 0) == 0 && OldEnd(os, 1) == 32768;
    assert StringsTo(ps, 0) == [] && StringsTo(ps, 1) == [];
    assert NewViews(ss)[0] == EntryPair(HEntry(true, false, 0), HEntry(false, false, 0));
    assert NewViews(ss) == Pack(ps).entries;
  }

  lemma FirstWordBig(s: Slot)
    requires NewView(s).val.isnull || NewView(s).val.endpos >= 2
    ensures OldView(s).pos != 0
  {
  }

  /** A new value is never taken for an old one when its first value is null or
      its first pair has two bytes or more. */
  lemma NewIsNotOld(ss: seq<Slot>, ps: seq<Pair>)
    requires Fits(ps) && ps != [] && NewViews(ss) == Pack(ps).entries
    requires ps[0].val.None? || |ps[0].key| + |ValBytes(ps[0])| >= 2
    ensures !OldShape(OldViews(ss))
  {
    EndStep(ps, 0);
    assert NewViews(ss)[0].val == PlainEntries(ps, 0).val;
    FirstWordBig(ss[0]);
    assert !AtEnd(OldViews(ss), 0);
  }

  /** So an unflagged new value with such a first pair passes only the new test,
      and keeps its pairs, whatever bytes follow the strings. */
  lemma UpgradeKeepsNew(ss: seq<Slot>, ps: seq<Pair>, str: Bytes, behind: Behind)
    requires HoldsNew(ss, ps, str) && ps != []
    requires ps[0].val.None? || |ps[0].key| + |ValBytes(ps[0])| >= 2
    ensures !ValidOld(ss, str) && NewShape(NewViews(ss), |str|)
    ensures Means(Upgraded(|ss|, CalcDataSize(|ss|, |str|), ss, str, behind), ps, str)
  {
    NewIsNotOld(ss, ps);
    NewIsNotReported(ss, ps, str, behind);
    UpgradeKeepsNewIff(ss, ps, str, behind);
  }

  // The loops of the two tests.

  method PositionsRise(es: seq<EntryPair>) returns (ok: bool)
    ensures ok <==> (forall k :: 0 <= k < |es| ==> NewPair(es[k]))
                    && (forall k :: 1 <= k < |es| ==> PosStep(es, k))
  {
    var i := 0;
    while i < |es|
      invariant 0 <= i <= |es|
      invariant forall k :: 0 <= k < i ==> NewPair(es[k])
      invariant forall k :: 1 <= k < i ==> PosStep(es, k)
    {
      if i > 0 && (es[i].key.isfirst || es[i].key.endpos < es[i - 1].val.endpos) {
        assert !PosStep(es, i);
        return false;
      }
      if es[i].val.isfirst || es[i].val.endpos < es[i].key.endpos {
        return false;
      }
      i := i + 1;
    }
    return true;
  }

  method KeysRise(es: seq<EntryPair>) returns (ok: bool)
    ensures ok <==> forall k :: 1 <= k < |es| ==> KeyStep(es, k)
  {
    var i := 1;
    while i < |es|
      invariant 1 <= i && (es == [] || i <= |es|)
      invariant forall k :: 1 <= k < i < |es| + 1 ==> KeyStep(es, k)
    {
      if KeyLen(es, i) < KeyLen(es, i - 1) || es[i].key.isnull {
        assert !KeyStep(es, i);
        return false;
      }
      i := i + 1;
    }
    return true;
  }

  method KeyLengthsRise(os: seq<OldEntry>) returns (ok: bool)
    ensures ok <==> forall k :: 1 <= k < |os| ==> os[k - 1].keylen <= os[k].keylen
  {
    var i := 1;
    while i < |os|
      invariant 1 <= i && (os == [] || i <= |os|)
      invariant forall k :: 1 <= k < i < |os| + 1 ==> os[k - 1].keylen <= os[k].keylen
    {
      if os[i].keylen < os[i - 1].keylen {
        return false;
      }
      i := i + 1;
    }
    return true;
  }

  method Contiguous(os: seq<OldEntry>) returns (ok: bool, lastpos: nat)
    ensures ok <==> forall k :: 0 <= k < |os| ==> AtEnd(os, k)
    ensures ok ==> lastpos == OldEnd(os, |os|)
  {
    lastpos := 0;
    var i := 0;
    while i < |os|
      invariant 0 <= i <= |os| && lastpos == OldEnd(os, i)
      invariant forall k :: 0 <= k < i ==> AtEnd(os, k)
    {
      assert AtEnd(os, i) == (os[i].pos == lastpos);
      if os[i].pos != lastpos {
        return false, lastpos;
      }
      lastpos := lastpos + os[i].keylen + (if os[i].isnull then 0 else os[i].rawlen);
      i := i + 1;
    }
    return true, lastpos;
  }

  /** An hstore datum: header word, total size, the slots it has room for and the
      bytes after them. */
  class Varlena {
    var size: Word
    var varsize: nat
    const slots: array<Slot>
    const str: Bytes

    function Count(): nat
      reads this
    {
      size % 0x1000_0000
    }

    /** The datum as stored: it may end before the slots that its header counts. */
    ghost predicate Valid()
      reads this
    {
      && slots.Length <= Count() && varsize == CalcDataSize(slots.Length, |str|) <= MAX_ALLOC
      && (slots.Length < Count() ==> |str| < 8)
    }

    /** The slots fit the new format. */
    ghost predicate FitsNew()
      reads this, slots
    {
      slots.Length == Count() && NewShape(NewViews(slots[..]), |str|)
    }

    /** The slots fit the old format. */
    ghost predicate FitsOld()
      reads this, slots
    {
      slots.Length == size < 0x1000_0000 && ValidOld(slots[..], str)
    }

    method ValidNewFormat(behind: Behind) returns (r: nat)
      requires Valid()
      ensures r <= 2
      ensures r > 0 <==> size >= 0x8000_0000 || FitsNew()
      ensures r == 2 <==> size >= 0x8000_0000 || Count() == 0 || (FitsNew() && LastEnd(slots[..]) == |str|)
    {
      var count := Count();
      var buflen := if count > 0 then EndOf(slots[..], count, behind) else 0;
      var vsize := CalcDataSize(count, buflen);
      if size >= 0x8000_0000 || count == 0 {
        return 2;
      }
      if !Entry(FirstWord(slots[..], behind)).isfirst || vsize > varsize {
        return 0;
      }
      var es := NewViews(slots[..]);
      var rising := PositionsRise(es);
      if !rising {
        return 0;
      }
      var keys := KeysRise(es);
      if !keys {
        return 0;
      }
      return if vsize != varsize then 1 else 2;
    }

    method ValidOldFormat() returns (r: nat)
      requires Valid()
      ensures r <= 2
      ensures r > 0 <==> FitsOld()
      ensures r == 2 <==> r > 0 && (size == 0 || OldEnd(OldViews(slots[..]), slots.Length) == |str|)
    {
      if size >= 0x8000_0000 {
        return 0;
      }
      var count := size;
      if count == 0 {
        return 2;
      }
      if count > 0xFFF_FFFF || CalcDataSize(count, 0) > varsize {
        return 0;
      }
      var os := OldViews(slots[..]);
      if os[0].pos != 0 {
        assert !AtEnd(os, 0);
        return 0;
      }
      var keys := KeyLengthsRise(os);
      if !keys {
        return 0;
      }
      var contiguous, lastpos := Contiguous(os);
      if !contiguous {
        return 0;
      }
      var vsize := CalcDataSize(count, lastpos);
      if vsize > varsize {
        return 0;
      }
      return if vsize != varsize then 1 else 2;
    }

    /** One round of the conversion loop. */
    static method ConvertSlot(s: Slot) returns (t: Slot)
      ensures t == Convert(s)
    {
      var e := OldView(s);
      var vallen := if e.isnull then 0 else e.rawlen;
      t := Slot((e.pos + e.keylen) % 0x4000_0000,
                (e.pos + e.keylen + vallen) % 0x4000_0000 + (if e.isnull then 0x4000_0000 else 0));
    }

    /** The conversion loop: each slot is read the old way and written the new way. */
    method ConvertSlots()
      modifies slots
      ensures slots[..] == Rewrite(old(slots[..]))
    {
      var i := 0;
      while i < slots.Length
        invariant 0 <= i <= slots.Length
        invariant forall k :: 0 <= k < i ==> slots[k] == Convert(old(slots[k]))
        invariant forall k :: i <= k < slots.Length ==> slots[k] == old(slots[k])
      {
        var t := ConvertSlot(slots[i]);
        slots[i] := t;
        i := i + 1;
      }
      if slots.Length > 0 {
        slots[0] := Flag(slots[0]);
      }
      assert slots[..] == Rewrite(old(slots[..]));
    }

    /** Sets the version flag and the size that the last entry gives, of which the
        header keeps 30 bits. */
    method SetCountAndSize(behind: Behind)
      modifies this
      ensures size == 0x8000_0000 + old(Count())
      ensures varsize == CalcDataSize(old(Count()), EndOf(slots[..], old(Count()), behind)) % 0x4000_0000
    {
      var count := Count();
      size := 0x8000_0000 + count;
      varsize := CalcDataSize(count, EndOf(slots[..], count, behind)) % 0x4000_0000;
    }

    /** The upgrade, in all its branches; failure is the error report. */
    method Upgrade(behind: Behind) returns (ok: bool)
      requires Valid()
      modifies this, slots
      ensures ok <==> old(size) >= 0x8000_0000 || !Reported(old(size), old(varsize), old(slots[..]), str, behind)
      ensures old(size) >= 0x8000_0000 || !ok ==> size == old(size) && varsize == old(varsize)
      ensures old(size) < 0x8000_0000 && ok ==>
                && size == 0x8000_0000 + old(Count())
                && varsize == CalcDataSize(old(Count()), EndOf(slots[..], old(Count()), behind)) % 0x4000_0000
      ensures slots[..] == if old(size) >= 0x8000_0000 then old(slots[..])
                           else Upgraded(old(size), old(varsize), old(slots[..]), str, behind)
    {
      if size >= 0x8000_0000 {
        return true;
      }
      if size == 0 || (varsize < 32768 && Entry(FirstWord(slots[..], behind)).isfirst) {
        SetCountAndSize(behind);
        return true;
      }
      var validNew := ValidNewFormat(behind);
      var validOld := ValidOldFormat();
      if validOld == 0 {
        if validNew == 0 {
          return false;
        }
        SetCountAndSize(behind);
        return true;
      }
      ConvertSlots();
      SetCountAndSize(behind);
      return true;
    }
  }
}
