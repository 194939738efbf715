/** The packed representation of an hstore: an array of 32-bit entries with
    end offsets and flags, followed by the string area
    (contrib/hstore/hstore.h). */
module HStorePack {
  import opened HStoreBase

  const POSMASK: nat := 0x3FFF_FFFF
  const MAX_ALLOC: nat := 0x3FFF_FFFF

  /** One 32-bit entry: the two flag bits and the 30-bit end offset. */
  datatype HEntry = HEntry(isfirst: bool, isnull: bool, endpos: nat)

  /** The two consecutive entries of one pair: entries 2i and 2i + 1. */
  datatype EntryPair = EntryPair(key: HEntry, val: HEntry)

  /** The size in bytes of a value with n pairs and a string area of len. */
  function CalcDataSize(n: nat, len: nat): nat {
    8 * n + 8 + len
  }

  /** The empty value takes 8 bytes; a pair takes 8 more, and its strings. */
  lemma DataSizeGrows(n: nat, len: nat, p: nat)
    ensures CalcDataSize(0, 0) == 8 && CalcDataSize(n + 1, len + p) == CalcDataSize(n, len) + 8 + p
  {
  }

  /** An hstore value: total size and pair count of the header, the entry
      array and the string area. */
  datatype HStore = HStore(varsize: nat, count: nat, entries: seq<EntryPair>, str: Bytes)

  // ----------------------------------------------------- canonical encoding

  function ValBytes(p: Pair): Bytes {
    if p.val.Some? then p.val.value else []
  }

  /** The strings of one pair. */
  function Item(p: Pair): Bytes {
    p.key + ValBytes(p)
  }

  function Size(p: Pair): nat {
    |p.key| + |ValBytes(p)|
  }

  /** Where the strings of the first n pairs end. */
  ghost function End(ps: seq<Pair>, n: nat): nat
    requires n <= |ps|
  {
    if n == 0 then 0 else End(ps, n - 1) + Size(ps[n - 1])
  }

  /** The strings of the first n pairs, one after the other. */
  ghost function StringsTo(ps: seq<Pair>, n: nat): (s: Bytes)
    requires n <= |ps|
    ensures |s| == End(ps, n)
  {
    if n == 0 then [] else if n == 1 then Item(ps[0]) else StringsTo(ps, n - 1) + Item(ps[n - 1])
  }

  lemma StringsStep(ps: seq<Pair>, n: nat)
    requires n < |ps|
    ensures StringsTo(ps, n + 1) == StringsTo(ps, n) + Item(ps[n])
  {
    if n == 0 {
      assert [] + Item(ps[0]) == Item(ps[0]);
    }
  }

  ghost function Strings(ps: seq<Pair>): Bytes {
    StringsTo(ps, |ps|)
  }

  ghost predicate Fits(ps: seq<Pair>) {
    CalcDataSize(|ps|, End(ps, |ps|)) <= MAX_ALLOC
  }

  lemma {:induction false} StringsPrefix(ps: seq<Pair>, n: nat, m: nat)
    requires n <= m <= |ps|
    ensures StringsTo(ps, n) <= StringsTo(ps, m)
    decreases m - n
  {
    if n < m {
      StringsPrefix(ps, n, m - 1);
      StringsStep(ps, m - 1);
    }
  }

  lemma Middle(s: Bytes, t: Bytes, a: Bytes, b: Bytes, c: Bytes)
    requires t <= s && t == a + (b + c)
    ensures s[|a|..|a| + |b|] == b
    ensures s[|a| + |b|..|a| + |b| + |c|] == c
  {
  }

  lemma EndStep(ps: seq<Pair>, i: nat)
    requires i < |ps|
    ensures End(ps, i) + |ps[i].key| + |ValBytes(ps[i])| == End(ps, i + 1) <= |Strings(ps)|
  {
    StringsPrefix(ps, i + 1, |ps|);
    StringsStep(ps, i);
  }

  /** Pair i occupies the bytes from End(i) to End(i + 1). */
  lemma StringsAt(ps: seq<Pair>, i: nat)
    requires i < |ps|
    ensures End(ps, i) + |ps[i].key| + |ValBytes(ps[i])| == End(ps, i + 1) <= |Strings(ps)|
    ensures Strings(ps)[End(ps, i)..End(ps, i) + |ps[i].key|] == ps[i].key
    ensures Strings(ps)[End(ps, i) + |ps[i].key|..End(ps, i + 1)] == ValBytes(ps[i])
  {
    hide StringsTo, End;
    EndStep(ps, i);
    StringsPrefix(ps, i + 1, |ps|);
    StringsStep(ps, i);
    Middle(Strings(ps), StringsTo(ps, i + 1), StringsTo(ps, i), ps[i].key, ValBytes(ps[i]));
  }

  // The two entries of pair i: the end offset of the key, with the flag of the
  // very first entry, and the end offset of the value, with its null flag.

  ghost function PlainEntries(ps: seq<Pair>, i: nat): EntryPair
    requires i < |ps|
  {
    EntryPair(HEntry(false, false, End(ps, i) + |ps[i].key|), HEntry(false, ps[i].val.None?, End(ps, i + 1)))
  }

  /** Setting the first-flag of an entry array. */
  function MarkFirst(es: seq<EntryPair>): seq<EntryPair> {
    if es == [] then [] else es[0 := es[0].(key := es[0].key.(isfirst := true))]
  }

  ghost function Pack(ps: seq<Pair>): HStore
    requires Fits(ps)
  {
    HStore(CalcDataSize(|ps|, End(ps, |ps|)), |ps|,
           MarkFirst(seq(|ps|, i requires 0 <= i < |ps| => PlainEntries(ps, i))), Strings(ps))
  }

  /** h is the packed form of the strictly sorted list ps. */
  ghost predicate Represents(h: HStore, ps: seq<Pair>) {
    Sorted(ps) && Fits(ps) && h == Pack(ps)
  }

  ghost predicate WF(h: HStore) {
    exists ps :: Represents(h, ps)
  }

  ghost function PairsOf(h: HStore): (ps: seq<Pair>)
    requires WF(h)
    ensures Represents(h, ps)
  {
    var ps :| Represents(h, ps); ps
  }

  /** The mapping a well-formed value stands for. */
  ghost function Decode(h: HStore): Mapping
    requires WF(h)
  {
    MapOf(PairsOf(h))
  }

  // --------------------------------------------------------------- accessors

  /** Offset of a key: the end of the value before it, unless it is first. */
  function KeyOff(h: HStore, i: nat): nat
    requires i < |h.entries|
  {
    if h.entries[i].key.isfirst || i == 0 then 0 else h.entries[i - 1].val.endpos
  }

  function KeyEnd(h: HStore, i: nat): nat
    requires i < |h.entries|
  {
    h.entries[i].key.endpos
  }

  function ValEnd(h: HStore, i: nat): nat
    requires i < |h.entries|
  {
    h.entries[i].val.endpos
  }

  /** Both strings of pair i lie inside the value. */
  predicate PairIn(h: HStore, i: nat) {
    i < |h.entries| && KeyOff(h, i) <= KeyEnd(h, i) <= ValEnd(h, i) <= |h.str|
  }

  function KeyAt(h: HStore, i: nat): Bytes
    requires PairIn(h, i)
  {
    h.str[KeyOff(h, i)..KeyEnd(h, i)]
  }

  function ValAt(h: HStore, i: nat): Bytes
    requires PairIn(h, i)
  {
    h.str[KeyEnd(h, i)..ValEnd(h, i)]
  }

  predicate ValIsNull(h: HStore, i: nat)
    requires i < |h.entries|
  {
    h.entries[i].val.isnull
  }

  lemma EntryAt(ps: seq<Pair>, i: nat)
    requires Fits(ps) && i < |ps|
    ensures |Pack(ps).entries| == |ps|
    ensures Pack(ps).entries[i].key == HEntry(i == 0, false, End(ps, i) + |ps[i].key|)
    ensures Pack(ps).entries[i].val == HEntry(false, ps[i].val.None?, End(ps, i + 1))
  {
    assert PlainEntries(ps, i).val == HEntry(false, ps[i].val.None?, End(ps, i + 1));
  }

  /** The offsets of pair i in a packed list. */
  lemma PackedEnds(ps: seq<Pair>, i: nat)
    requires Fits(ps) && i < |ps|
    ensures var h := Pack(ps);
            && |h.entries| == |ps| && (ValIsNull(h, i) <==> ps[i].val.None?)
            && KeyOff(h, i) == End(ps, i) && KeyEnd(h, i) == End(ps, i) + |ps[i].key| && ValEnd(h, i) == End(ps, i + 1)
  {
    EntryAt(ps, i);
    if i > 0 {
      EntryAt(ps, i - 1);
    }
  }

  /** Reading pair i of a packed list gives pair i. */
  lemma Access(ps: seq<Pair>, i: nat)
    requires Fits(ps) && i < |ps|
    ensures PairIn(Pack(ps), i)
    ensures KeyAt(Pack(ps), i) == ps[i].key
    ensures ValAt(Pack(ps), i) == ValBytes(ps[i])
    ensures ValIsNull(Pack(ps), i) <==> ps[i].val.None?
  {
    StringsAt(ps, i);
    PackedEnds(ps, i);
  }

  method ReadKey(h: HStore, i: nat) returns (key: Bytes)
    requires WF(h) && i < h.count
    ensures key == PairsOf(h)[i].key
  {
    Access(PairsOf(h), i);
    key := KeyAt(h, i);
  }

  method ReadVal(h: HStore, i: nat) returns (isnull: bool, val: Bytes)
    requires WF(h) && i < h.count
    ensures var p := PairsOf(h)[i]; (isnull <==> p.val.None?) && val == ValBytes(p)
  {
    Access(PairsOf(h), i);
    isnull, val := ValIsNull(h, i), ValAt(h, i);
  }

  /** The packed form determines the pairs. */
  lemma PackInjective(a: seq<Pair>, b: seq<Pair>)
    requires Fits(a) && Fits(b) && Pack(a) == Pack(b)
    ensures a == b
  {
    forall i | 0 <= i < |a|
      ensures a[i] == b[i]
    {
      Access(a, i);
      Access(b, i);
    }
  }

  lemma RepresentsUnique(h: HStore, ps: seq<Pair>)
    requires Represents(h, ps)
    ensures WF(h) && PairsOf(h) == ps && Decode(h) == MapOf(ps)
  {
    PackInjective(PairsOf(h), ps);
  }

  /** The encoding is canonical: two well-formed values stand for the same
      mapping exactly when they are identical, so hashing the bytes is sound. */
  lemma DecodeInjective(a: HStore, b: HStore)
    requires WF(a) && WF(b)
    ensures a == b <==> Decode(a) == Decode(b)
  {
    if Decode(a) == Decode(b) {
      SortedUnique(PairsOf(a), PairsOf(b));
    }
  }
}
