/** Signatures of the bloom index: which bits a column value sets, the tuple
    and query signatures built from them, and the word-wise match test
    (contrib/bloom/blutils.c, contrib/bloom/blscan.c). */
module BloomSign {
  import opened Wrappers
  import opened Bits
  import opened BloomRand

  const SIGNWORDBITS: nat := 16
  const INDEX_MAX_KEYS: nat := 32

  /** Signature length in words and bits set per column; blutils.c limits the
      length to 256 words and asks for at least one bit per column. */
  datatype Options = Options(bloomLength: nat, bitSize: seq<nat>) {
    ghost predicate Valid() {
      && 1 <= bloomLength <= 256
      && |bitSize| == INDEX_MAX_KEYS
      && forall i :: 0 <= i < |bitSize| ==> bitSize[i] >= 1
    }

    function Bits(): nat {
      bloomLength * SIGNWORDBITS
    }
  }

  /** Rounding of the length option from bits to words. */
  function WordsFor(bits: nat): (w: nat)
    ensures w * SIGNWORDBITS >= bits
    ensures bits > 0 ==> 1 <= w && (w - 1) * SIGNWORDBITS < bits
    ensures bits <= 256 * SIGNWORDBITS ==> w <= 256
  {
    (bits + SIGNWORDBITS - 1) / SIGNWORDBITS
  }

  type Word16 = x: int | 0 <= x < 0x1_0000
  type Word32 = x: int | 0 <= x < TWO32
  type Sign = seq<Word16>

  /** Bit b of a signature: bit b % 16 of word b / 16. */
  ghost predicate HasBit(s: Sign, b: nat)
    requires b < SIGNWORDBITS * |s|
  {
    Bit(s[b / SIGNWORDBITS], b % SIGNWORDBITS)
  }

  /** A signature as the set of its bits. */
  ghost function BitsOf(s: Sign): set<nat> {
    set b: nat | b < SIGNWORDBITS * |s| && HasBit(s, b)
  }

  function Or16(a: Word16, b: Word16): Word16 {
    Pow2Values();
    Or(16, a, b)
  }

  function Mask(k: nat): Word16
    requires k < SIGNWORDBITS
  {
    Pow2Values();
    Pow2Monotone(k, 16);
    Pow2(k)
  }

  /** SETBIT adds one bit and keeps all others. */
  lemma SetBitAdds(s: Sign, b: nat)
    requires b < SIGNWORDBITS * |s|
    ensures var t := s[b / SIGNWORDBITS := Or16(s[b / SIGNWORDBITS], Mask(b % SIGNWORDBITS))];
            BitsOf(t) == BitsOf(s) + {b}
  {
    var t := s[b / SIGNWORDBITS := Or16(s[b / SIGNWORDBITS], Mask(b % SIGNWORDBITS))];
    forall c: nat | c < SIGNWORDBITS * |s|
      ensures HasBit(t, c) <==> HasBit(s, c) || c == b
    {
      if c / SIGNWORDBITS == b / SIGNWORDBITS {
        Pow2Values();
        BitOfOr(16, s[b / SIGNWORDBITS], Mask(b % SIGNWORDBITS), c % SIGNWORDBITS);
        BitOfPow2(b % SIGNWORDBITS, c % SIGNWORDBITS);
      }
    }
  }

  /** One word of the match test: the query word is covered. */
  predicate Covers(t: Word16, q: Word16) {
    Pow2Values();
    And(16, t, q) == q
  }

  /** The match test of the scan: every word of the query signature is covered. */
  predicate Matches(t: Sign, q: Sign)
    requires |t| == |q|
  {
    forall i :: 0 <= i < |q| ==> Covers(t[i], q[i])
  }

  lemma MatchesSound(t: Sign, q: Sign)
    requires |t| == |q| && Matches(t, q)
    ensures BitsOf(q) <= BitsOf(t)
  {
    forall b | b in BitsOf(q)
      ensures b in BitsOf(t)
    {
      Pow2Values();
      AndIsSubset(16, t[b / SIGNWORDBITS], q[b / SIGNWORDBITS]);
    }
  }

  lemma MatchesComplete(t: Sign, q: Sign)
    requires |t| == |q| && BitsOf(q) <= BitsOf(t)
    ensures Matches(t, q)
  {
    forall i | 0 <= i < |q|
      ensures Covers(t[i], q[i])
    {
      forall k: nat | k < 16 && Bit(q[i], k)
        ensures Bit(t[i], k)
      {
        var b := SIGNWORDBITS * i + k;
        assert b / SIGNWORDBITS == i && b % SIGNWORDBITS == k;
        assert HasBit(q, b) && b in BitsOf(q);
        assert b in BitsOf(t);
      }
      Pow2Values();
      AndIsSubset(16, t[i], q[i]);
    }
  }

  /** The word-wise test is exactly inclusion of the bit sets. */
  lemma MatchesIffSubset(t: Sign, q: Sign)
    requires |t| == |q|
    ensures Matches(t, q) <==> BitsOf(q) <= BitsOf(t)
  {
    if Matches(t, q) {
      MatchesSound(t, q);
    }
    if BitsOf(q) <= BitsOf(t) {
      MatchesComplete(t, q);
    }
  }

  /** The seed signValue derives from a column number and a hash value: the
      first draw of the column, xor-ed with the hash. */
  function ColumnSeed(attno: nat, hash: Word32): (s: int)
    requires attno < INDEX_MAX_KEYS
    ensures 0 <= s < TWO32
  {
    Pow2Values();
    Xor(32, hash, A * (attno + 1) - 1)
  }

  predicate SeedUsable(attno: nat, hash: Word32)
    requires attno < INDEX_MAX_KEYS
  {
    ColumnSeed(attno, hash) != 0xFFFFFFFF && ColumnSeed(attno, hash) != 0x80000001
  }

  /** The hash value with which a column gets a seed. */
  function HashFor(attno: nat, seed: Word32): Word32
    requires attno < INDEX_MAX_KEYS
  {
    Pow2Values();
    Xor(32, seed, A * (attno + 1) - 1)
  }

  lemma HashForIff(attno: nat, hash: Word32, seed: Word32)
    requires attno < INDEX_MAX_KEYS
    ensures ColumnSeed(attno, hash) == seed <==> hash == HashFor(attno, seed)
  {
    Pow2Values();
    XorBack(32, hash, A * (attno + 1) - 1);
    XorBack(32, seed, A * (attno + 1) - 1);
  }

  /** Every column has exactly two hash values that lead to a dead seed. */
  lemma DeadHashes(attno: nat, hash: Word32)
    requires attno < INDEX_MAX_KEYS
    ensures !SeedUsable(attno, hash) <==>
            hash == HashFor(attno, 0xFFFFFFFF) || hash == HashFor(attno, 0x80000001)
    ensures HashFor(attno, 0xFFFFFFFF) != HashFor(attno, 0x80000001)
  {
    HashForIff(attno, hash, 0xFFFFFFFF);
    HashForIff(attno, hash, 0x80000001);
    HashForIff(attno, HashFor(attno, 0xFFFFFFFF), 0xFFFFFFFF);
    HashForIff(attno, HashFor(attno, 0x80000001), 0x80000001);
  }

  /** The bits that draws 0..n of a seed select. */
  ghost function DrawnBits(seed: int, n: nat, bits: nat): set<nat>
    requires 0 <= seed < TWO32 && bits >= 2
    requires seed != 0xFFFFFFFF && seed != 0x80000001
    ensures forall b :: b in DrawnBits(seed, n, bits) ==> b < bits
  {
    if n == 0 then {} else
      BitIndexInRangeIff(seed, n - 1, bits);
      DrawnBits(seed, n - 1, bits) + {BitIndex(seed, n - 1, bits)}
  }

  /** The bits of one column value: a function of column number and hash only. */
  ghost function ColumnBits(opts: Options, attno: nat, hash: Word32): set<nat>
    requires opts.Valid() && attno < INDEX_MAX_KEYS && SeedUsable(attno, hash)
  {
    DrawnBits(ColumnSeed(attno, hash), opts.bitSize[attno], opts.Bits())
  }

  /** Bit j of a column value, in closed form. */
  ghost function ClosedBit(opts: Options, attno: nat, hash: Word32, j: nat): int
    requires opts.Valid() && attno < INDEX_MAX_KEYS
  {
    ((Pow(A, j + 1) * Seeded(ColumnSeed(attno, hash))) % M - 1) % opts.Bits()
  }

  lemma ClosedBitIndex(opts: Options, attno: nat, hash: Word32, j: nat)
    requires opts.Valid() && attno < INDEX_MAX_KEYS && SeedUsable(attno, hash)
    ensures BitIndex(ColumnSeed(attno, hash), j, opts.Bits()) == ClosedBit(opts, attno, hash, j)
  {
    var x := Seeded(ColumnSeed(attno, hash));
    SeededRange(ColumnSeed(attno, hash));
    hide Seeded, ColumnSeed, Nth, Pow, CRem;
    NthLive(x, j + 1);
    NthClosedForm(x, j + 1);
    DrawOfState(Nth(x, j + 1), opts.Bits());
  }

  lemma DrawOfState(x: int, bits: nat)
    requires 1 <= x < M && bits > 0
    ensures x % M == x && CRem(x - 1, bits) == (x - 1) % bits
  {
  }

  lemma {:induction false} DrawnBitsIff(seed: int, n: nat, bits: nat, b: nat)
    requires 0 <= seed < TWO32 && bits >= 2 && seed != 0xFFFFFFFF && seed != 0x80000001
    ensures b in DrawnBits(seed, n, bits) <==> exists j: nat :: j < n && b == BitIndex(seed, j, bits)
  {
    if n > 0 {
      DrawnBitsIff(seed, n - 1, bits, b);
      assert b == BitIndex(seed, n - 1, bits) ==> b in DrawnBits(seed, n, bits);
    }
  }

  /** The bits of a column value are the configured number of draws for its column:
      draw j is 16807^(j + 1) times the seed modulo 2^31 - 1, less one, modulo the
      number of bits of the signature. */
  lemma ColumnBitsIff(opts: Options, attno: nat, hash: Word32, b: nat)
    requires opts.Valid() && attno < INDEX_MAX_KEYS && SeedUsable(attno, hash)
    ensures b in ColumnBits(opts, attno, hash) <==>
            exists j: nat :: j < opts.bitSize[attno] && b == ClosedBit(opts, attno, hash, j)
  {
    var seed, n := ColumnSeed(attno, hash), opts.bitSize[attno];
    DrawnBitsIff(seed, n, opts.Bits(), b);
    if b in ColumnBits(opts, attno, hash) {
      var j: nat :| j < n && b == BitIndex(seed, j, opts.Bits());
      ClosedBitIndex(opts, attno, hash, j);
    }
    if j: nat :| j < n && b == ClosedBit(opts, attno, hash, j) {
      ClosedBitIndex(opts, attno, hash, j);
    }
  }

  lemma FirstDraw(attno: nat)
    requires attno < INDEX_MAX_KEYS
    ensures Seeded(attno) == attno + 1
    ensures Advance(attno + 1) == A * (attno + 1)
  {
    ModUnique(A * (attno + 1), 0, A * (attno + 1));
  }

  method SetBit(sign: array<Word16>, b: nat)
    requires b < SIGNWORDBITS * sign.Length
    modifies sign
    ensures BitsOf(sign[..]) == old(BitsOf(sign[..])) + {b}
  {
    ghost var before := sign[..];
    SetBitAdds(before, b);
    var w := b / SIGNWORDBITS;
    sign[w] := Or16(sign[w], Mask(b % SIGNWORDBITS));
    assert sign[..] == before[w := Or16(before[w], Mask(b % SIGNWORDBITS))];
  }

  /** The first draw of a column. */
  method ColumnDraw(g: Generator, attno: nat) returns (r: int)
    requires attno < INDEX_MAX_KEYS
    modifies g
    ensures r == A * (attno + 1) - 1
  {
    g.MySrand(attno);
    FirstDraw(attno);
    assert g.next == attno + 1;
    r := g.MyRand();
  }

  /** Seeds the generator for a column and a hash value. */
  method SeedColumn(g: Generator, attno: nat, hash: Word32)
    requires attno < INDEX_MAX_KEYS
    modifies g
    ensures g.next == Seeded(ColumnSeed(attno, hash))
  {
    var r := ColumnDraw(g, attno);
    Pow2Values();
    g.MySrand(Xor(32, hash, r));
  }

  /** Draws one bit index; negative exactly for the dead seeds. */
  method DrawBit(g: Generator, bits: nat, ghost seed: int, ghost j: nat) returns (nBit: int)
    requires 0 <= seed < TWO32 && bits >= 2
    requires g.next == Nth(Seeded(seed), j)
    modifies g
    ensures g.next == Nth(Seeded(seed), j + 1)
    ensures nBit == BitIndex(seed, j, bits)
    ensures 0 <= nBit < bits <==> seed != 0xFFFFFFFF && seed != 0x80000001
    ensures nBit < bits
  {
    BitIndexInRangeIff(seed, j, bits);
    SeededRange(seed);
    if Seeded(seed) == 0 {
      NthDead(j);
    } else {
      NthLive(Seeded(seed), j);
    }
    var r := g.MyRand();
    nBit := CRem(r, bits);
  }

  /** Adds the bits of one value to the signature in place.  The result says
      whether every SETBIT stayed inside the signature: it does for every hash
      but the two whose seed kills the generator, and then nothing is written. */
  method SignValue(g: Generator, opts: Options, sign: array<Word16>, attno: nat, hash: Word32)
    returns (inBounds: bool)
    requires opts.Valid() && attno < INDEX_MAX_KEYS && sign.Length == opts.bloomLength
    modifies g, sign
    ensures inBounds <==> SeedUsable(attno, hash)
    ensures inBounds ==> BitsOf(sign[..]) == old(BitsOf(sign[..])) + ColumnBits(opts, attno, hash)
    ensures !inBounds ==> sign[..] == old(sign[..])
  {
    ghost var seed := ColumnSeed(attno, hash);
    ghost var before := BitsOf(sign[..]);
    SeedColumn(g, attno, hash);
    var bits := opts.Bits();
    var j := 0;
    while j < opts.bitSize[attno]
      invariant 0 <= j <= opts.bitSize[attno]
      invariant g.next == Nth(Seeded(seed), j)
      invariant j > 0 ==> SeedUsable(attno, hash)
      invariant j == 0 ==> sign[..] == old(sign[..])
      invariant SeedUsable(attno, hash) ==> BitsOf(sign[..]) == before + DrawnBits(seed, j, bits)
    {
      var nBit := DrawBit(g, bits, seed, j);
      if nBit < 0 {
        return false;
      }
      SetBit(sign, nBit);
      j := j + 1;
    }
    inBounds := true;
  }

  /** An index entry: the heap pointer and the signature. */
  datatype BloomTuple = BloomTuple(heapPtr: nat, sign: Sign)

  /** The hashes of one row's columns; None is SQL null. */
  type Row = seq<Option<Word32>>

  ghost predicate RowUsable(row: Row, n: nat)
    requires n <= |row| <= INDEX_MAX_KEYS
  {
    forall i :: 0 <= i < n && row[i].Some? ==> SeedUsable(i, row[i].value)
  }

  ghost function RowBits(opts: Options, row: Row, n: nat): set<nat>
    requires opts.Valid() && n <= |row| <= INDEX_MAX_KEYS && RowUsable(row, n)
  {
    if n == 0 then {} else
      RowBits(opts, row, n - 1)
      + (if row[n - 1].Some? then ColumnBits(opts, n - 1, row[n - 1].value) else {})
  }

  /** A bit is set in the entry of a row exactly when some non-null column sets it. */
  lemma {:induction false} RowBitsIff(opts: Options, row: Row, n: nat, b: nat)
    requires opts.Valid() && n <= |row| <= INDEX_MAX_KEYS && RowUsable(row, n)
    ensures b in RowBits(opts, row, n) <==>
            exists i: nat :: i < n && row[i].Some? && b in ColumnBits(opts, i, row[i].value)
  {
    if n > 0 {
      RowBitsIff(opts, row, n - 1, b);
    }
  }

  lemma EmptySign(s: Sign)
    requires forall i :: 0 <= i < |s| ==> s[i] == 0
    ensures BitsOf(s) == {}
  {
    forall b: nat | b < SIGNWORDBITS * |s|
      ensures !HasBit(s, b)
    {
      BitOfZero(b % SIGNWORDBITS);
    }
  }

  method ZeroSign(words: nat) returns (sign: array<Word16>)
    ensures fresh(sign) && sign.Length == words && BitsOf(sign[..]) == {}
  {
    sign := new Word16[words](_ => 0);
    EmptySign(sign[..]);
  }

  /** The index entry of a row: the union of the bits of its non-null columns. */
  method BloomFormTuple(g: Generator, opts: Options, iptr: nat, row: Row) returns (res: Option<BloomTuple>)
    requires opts.Valid() && |row| <= INDEX_MAX_KEYS
    modifies g
    ensures res.Some? <==> RowUsable(row, |row|)
    ensures res.Some? ==> res.value.heapPtr == iptr && |res.value.sign| == opts.bloomLength
                          && BitsOf(res.value.sign) == RowBits(opts, row, |row|)
  {
    var sign := ZeroSign(opts.bloomLength);
    for i := 0 to |row|
      invariant fresh(sign) && sign.Length == opts.bloomLength
      invariant RowUsable(row, i)
      invariant BitsOf(sign[..]) == RowBits(opts, row, i)
    {
      if row[i].Some? {
        var ok := SignValue(g, opts, sign, i, row[i].value);
        if !ok {
          return None;
        }
      }
    }
    res := Some(BloomTuple(iptr, sign[..]));
  }

  /** A scan key: column number and hash of the constant; None is a null key. */
  datatype ScanKey = ScanKey(attno: nat, hash: Option<Word32>)

  ghost predicate KeyUsable(k: ScanKey) {
    k.attno < INDEX_MAX_KEYS && k.hash.Some? && SeedUsable(k.attno, k.hash.value)
  }

  ghost predicate KeysUsable(keys: seq<ScanKey>, n: nat)
    requires n <= |keys|
  {
    forall i :: 0 <= i < n ==> KeyUsable(keys[i])
  }

  ghost function KeyBits(opts: Options, keys: seq<ScanKey>, n: nat): set<nat>
    requires opts.Valid() && n <= |keys| && KeysUsable(keys, n)
  {
    if n == 0 then {} else
      KeyBits(opts, keys, n - 1) + ColumnBits(opts, keys[n - 1].attno, keys[n - 1].hash.value)
  }

  /** A bit is set in the query exactly when some key sets it. */
  lemma {:induction false} KeyBitsIff(opts: Options, keys: seq<ScanKey>, n: nat, b: nat)
    requires opts.Valid() && n <= |keys| && KeysUsable(keys, n)
    ensures b in KeyBits(opts, keys, n) <==>
            exists i: nat :: i < n && b in ColumnBits(opts, keys[i].attno, keys[i].hash.value)
  {
    if n > 0 {
      KeyBitsIff(opts, keys, n - 1, b);
    }
  }

  /** The row satisfies every equality key of the query. */
  ghost predicate RowSatisfies(row: Row, keys: seq<ScanKey>) {
    forall i :: 0 <= i < |keys| ==>
      keys[i].attno < |row| && keys[i].hash.Some? && row[keys[i].attno] == keys[i].hash
  }

  lemma {:induction false} ColumnInRow(opts: Options, row: Row, n: nat, i: nat)
    requires opts.Valid() && n <= |row| <= INDEX_MAX_KEYS && RowUsable(row, n)
    requires i < n && row[i].Some?
    ensures ColumnBits(opts, i, row[i].value) <= RowBits(opts, row, n)
  {
    if i < n - 1 {
      ColumnInRow(opts, row, n - 1, i);
    }
  }

  lemma {:induction false} KeysInRow(opts: Options, row: Row, keys: seq<ScanKey>, n: nat)
    requires opts.Valid() && |row| <= INDEX_MAX_KEYS && RowUsable(row, |row|)
    requires n <= |keys| && KeysUsable(keys, n) && RowSatisfies(row, keys)
    ensures KeyBits(opts, keys, n) <= RowBits(opts, row, |row|)
  {
    if n > 0 {
      KeysInRow(opts, row, keys, n - 1);
      ColumnInRow(opts, row, |row|, keys[n - 1].attno);
    }
  }

  /** No false negatives: whatever the signature length and bit counts, the
      entry of a row that satisfies the query passes the match test. */
  lemma SatisfyingRowMatches(opts: Options, row: Row, keys: seq<ScanKey>, t: Sign, q: Sign)
    requires opts.Valid() && |row| <= INDEX_MAX_KEYS && RowUsable(row, |row|)
    requires KeysUsable(keys, |keys|) && RowSatisfies(row, keys)
    requires |t| == |q| == opts.bloomLength
    requires BitsOf(t) == RowBits(opts, row, |row|)
    requires BitsOf(q) == KeyBits(opts, keys, |keys|)
    ensures Matches(t, q)
  {
    KeysInRow(opts, row, keys, |keys|);
    MatchesIffSubset(t, q);
  }

  datatype QuerySign = NoRows | OutOfBounds | Query(sign: Sign)
  datatype KeyOutcome = NullKey | BadSeed | Added

  method SignKey(g: Generator, opts: Options, sign: array<Word16>, k: ScanKey) returns (res: KeyOutcome)
    requires opts.Valid() && k.attno < INDEX_MAX_KEYS && sign.Length == opts.bloomLength
    modifies g, sign
    ensures res.Added? <==> KeyUsable(k)
    ensures res.NullKey? <==> k.hash.None?
    ensures res.Added? ==> BitsOf(sign[..]) == old(BitsOf(sign[..])) + ColumnBits(opts, k.attno, k.hash.value)
  {
    if k.hash.None? {
      return NullKey;
    }
    var ok := SignValue(g, opts, sign, k.attno, k.hash.value);
    res := if ok then Added else BadSeed;
  }

  lemma OneUnusable(keys: seq<ScanKey>, i: nat)
    requires i < |keys| && !KeyUsable(keys[i])
    ensures !KeysUsable(keys, |keys|)
  {
  }

  /** The query signature.  A null key ends the search with no rows. */
  method SignQuery(g: Generator, opts: Options, keys: seq<ScanKey>) returns (res: QuerySign)
    requires opts.Valid()
    requires forall i :: 0 <= i < |keys| ==> keys[i].attno < INDEX_MAX_KEYS
    modifies g
    ensures res.Query? <==> KeysUsable(keys, |keys|)
    ensures res.Query? ==> |res.sign| == opts.bloomLength
    ensures res.Query? ==> BitsOf(res.sign) == KeyBits(opts, keys, |keys|)
    ensures res.NoRows? <==> exists i :: 0 <= i < |keys| && keys[i].hash.None? && KeysUsable(keys, i)
  {
    hide BitsOf, ColumnBits;
    var sign := ZeroSign(opts.bloomLength);
    ghost var bits := {};
    for i := 0 to |keys|
      invariant fresh(sign) && sign.Length == opts.bloomLength
      invariant KeysUsable(keys, i) && bits == KeyBits(opts, keys, i)
      invariant BitsOf(sign[..]) == bits
    {
      var outcome := SignKey(g, opts, sign, keys[i]);
      if !outcome.Added? {
        OneUnusable(keys, i);
        return if outcome.NullKey? then NoRows else OutOfBounds;
      }
      bits := bits + ColumnBits(opts, keys[i].attno, keys[i].hash.value);
    }
    res := Query(sign[..]);
  }

  /** The word loop of the scan on one tuple. */
  method CheckSign(t: Sign, q: Sign) returns (res: bool)
    requires |t| == |q|
    ensures res <==> BitsOf(q) <= BitsOf(t)
  {
    MatchesIffSubset(t, q);
    res := true;
    var i := 0;
    while i < |q|
      invariant 0 <= i <= |q|
      invariant res
      invariant forall k :: 0 <= k < i ==> Covers(t[k], q[k])
    {
      if !Covers(t[i], q[i]) {
        res := false;
        break;
      }
      i := i + 1;
    }
  }
}
