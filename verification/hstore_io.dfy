/** Input and output of hstore values: hstore_out writes into a buffer of
    precomputed size, hstore_in parses, de-duplicates and packs
    (contrib/hstore/hstore_io.c). */
module HStoreIO {
  import opened Wrappers
  import opened HStoreBase
  import opened HStorePack
  import opened HStoreUnique
  import opened HStoreText

  // ------------------------------------------------------------------- output

  /** The room hstore_out reserves for one pair. */
  function Budget(klen: nat, isnull: bool, vlen: nat): nat {
    6 + 2 * klen + 2 + (if isnull then 2 else 2 * vlen)
  }

  ghost function PairBudget(p: Pair): nat {
    Budget(|p.key|, p.val.None?, |ValBytes(p)|)
  }

  ghost function BudgetTo(ps: seq<Pair>, n: nat): nat
    requires n <= |ps|
  {
    if n == 0 then 0 else BudgetTo(ps, n - 1) + PairBudget(ps[n - 1])
  }

  lemma PairText(t: Bytes, p: Pair)
    ensures |PrintPair(p)| == |Quoted(p.key)| + 2 + |PrintVal(p.val)|
    ensures t + Quoted(p.key) + [EQUALS, GREATER] + PrintVal(p.val) == t + PrintPair(p)
  {
  }

  /** A printed pair and a separator fit the room reserved for the pair. */
  lemma PairFits(p: Pair)
    ensures |PrintPair(p)| + 2 <= PairBudget(p)
  {
  }

  lemma {:induction false} BudgetMonotone(ps: seq<Pair>, n: nat, m: nat)
    requires n <= m <= |ps|
    ensures BudgetTo(ps, n) <= BudgetTo(ps, m)
  {
    if n < m {
      BudgetMonotone(ps, n, m - 1);
    }
  }

  lemma EscapeNext(src: Bytes, i: nat, done: Bytes)
    requires i < |src| && done + Escape(src[i..]) == Escape(src)
    ensures done + EscapeByte(src[i]) + Escape(src[i + 1..]) == Escape(src)
    ensures |done| + |EscapeByte(src[i])| <= |Escape(src)|
  {
    assert src[i..][0] == src[i] && src[i..][1..] == src[i + 1..];
    assert done + (EscapeByte(src[i]) + Escape(src[i + 1..])) == done + EscapeByte(src[i]) + Escape(src[i + 1..]);
  }

  /** The output buffer and the write pointer. */
  class Printer {
    const out: array<Byte>
    var ptr: nat

    constructor (n: nat)
      ensures fresh(out) && out.Length == n && ptr == 0
    {
      out := new Byte[n](_ => 0);
      ptr := 0;
    }

    ghost predicate Valid()
      reads this
    {
      ptr <= out.Length
    }

    ghost function Text(): Bytes
      reads this, out
      requires Valid()
    {
      out[..ptr]
    }

    method Emit(c: Byte)
      requires ptr < out.Length
      modifies this, out
      ensures Valid() && ptr == old(ptr) + 1 && Text() == old(Text()) + [c]
    {
      out[ptr] := c;
      ptr := ptr + 1;
    }

    method EmitAll(bs: Bytes)
      requires ptr + |bs| <= out.Length
      modifies this, out
      ensures Valid() && ptr == old(ptr) + |bs| && Text() == old(Text()) + bs
    {
      for i := 0 to |bs|
        invariant Valid() && ptr == old(ptr) + i && Text() == old(Text()) + bs[..i]
      {
        Emit(bs[i]);
      }
    }

    method EmitEscaped(c: Byte)
      requires ptr + |EscapeByte(c)| <= out.Length
      modifies this, out
      ensures Valid() && ptr == old(ptr) + |EscapeByte(c)| && Text() == old(Text()) + EscapeByte(c)
    {
      if c == QUOTE || c == BACKSLASH {
        Emit(BACKSLASH);
      }
      Emit(c);
    }

    /** cpw. */
    method Cpw(src: Bytes)
      requires ptr + |Escape(src)| <= out.Length
      modifies this, out
      ensures Valid() && ptr == old(ptr) + |Escape(src)| && Text() == old(Text()) + Escape(src)
    {
      ghost var t0 := Text();
      ghost var done: Bytes := [];
      var i := 0;
      assert src[0..] == src && [] + Escape(src) == Escape(src);
      while i < |src|
        invariant 0 <= i <= |src| && Valid()
        invariant done + Escape(src[i..]) == Escape(src)
        invariant ptr == old(ptr) + |done| && Text() == t0 + done
      {
        EscapeNext(src, i, done);
        EmitEscaped(src[i]);
        assert t0 + done + EscapeByte(src[i]) == t0 + (done + EscapeByte(src[i]));
        done := done + EscapeByte(src[i]);
        i := i + 1;
      }
      assert done + [] == done;
    }

    method EmitQuoted(b: Bytes)
      requires ptr + |Quoted(b)| <= out.Length
      modifies this, out
      ensures Valid() && ptr == old(ptr) + |Quoted(b)| && Text() == old(Text()) + Quoted(b)
    {
      ghost var t0 := Text();
      Emit(QUOTE);
      Cpw(b);
      Emit(QUOTE);
      assert t0 + [QUOTE] + Escape(b) + [QUOTE] == t0 + Quoted(b);
    }

    method EmitVal(isnull: bool, val: Bytes, ghost v: Option<Bytes>)
      requires isnull == v.None? && (v.Some? ==> v.value == val) && ptr + |PrintVal(v)| <= out.Length
      modifies this, out
      ensures Valid() && ptr == old(ptr) + |PrintVal(v)| && Text() == old(Text()) + PrintVal(v)
    {
      if isnull {
        EmitAll([78, 85, 76, 76]);
      } else {
        EmitQuoted(val);
      }
    }

    /** Prints one pair without a separator. */
    method EmitPair(key: Bytes, isnull: bool, val: Bytes, ghost p: Pair)
      requires key == p.key && isnull == p.val.None? && val == ValBytes(p)
      requires ptr + |PrintPair(p)| <= out.Length
      modifies this, out
      ensures Valid() && ptr == old(ptr) + |PrintPair(p)| && Text() == old(Text()) + PrintPair(p)
    {
      PairText(Text(), p);
      EmitQuoted(key);
      EmitAll([EQUALS, GREATER]);
      EmitVal(isnull, val, p.val);
    }
  }

  /** The room for one pair. */
  method BudgetAt(h: HStore, i: nat) returns (room: nat)
    requires WF(h) && i < h.count
    ensures room == PairBudget(PairsOf(h)[i])
  {
    var key := ReadKey(h, i);
    var isnull, val := ReadVal(h, i);
    room := Budget(|key|, isnull, |val|);
  }

  method ComputeBudget(h: HStore) returns (buflen: nat)
    requires WF(h)
    ensures buflen == BudgetTo(PairsOf(h), h.count)
  {
    buflen := 0;
    for i := 0 to h.count
      invariant buflen == BudgetTo(PairsOf(h), i)
    {
      var room := BudgetAt(h, i);
      buflen := buflen + room;
    }
  }

  ghost predicate Printed(t: Bytes, ps: seq<Pair>, i: nat) {
    && i <= |ps| && t + PrintFrom(ps, i) == PrintFrom(ps, 0)
    && |t| <= BudgetTo(ps, i) && (0 < i == |ps| ==> |t| < BudgetTo(ps, i))
  }

  lemma PrintedRoom(t: Bytes, ps: seq<Pair>, i: nat)
    requires Printed(t, ps, i) && i < |ps|
    ensures |t| + |PrintPair(ps[i])| + 2 <= BudgetTo(ps, i + 1) <= BudgetTo(ps, |ps|)
  {
    PairFits(ps[i]);
    BudgetMonotone(ps, i + 1, |ps|);
  }

  lemma MoveText(t: Bytes, p: Bytes, sep: Bytes, rest: Bytes)
    ensures t + p + sep + rest == t + (p + sep + rest)
  {
  }

  lemma PrintedText(t: Bytes, all: Bytes, ps: seq<Pair>, i: nat)
    requires i < |ps| && t + PrintFrom(ps, i) == all
    ensures i + 1 < |ps| ==> t + PrintPair(ps[i]) + [COMMA, SPACE] + PrintFrom(ps, i + 1) == all
    ensures i + 1 == |ps| ==> t + PrintPair(ps[i]) + PrintFrom(ps, i + 1) == all
  {
    var p := PrintPair(ps[i]);
    if i + 1 < |ps| {
      MoveText(t, p, [COMMA, SPACE], PrintFrom(ps, i + 1));
    } else {
      assert t + p + [] == t + p;
    }
  }

  lemma PrintedStep(t: Bytes, ps: seq<Pair>, i: nat)
    requires Printed(t, ps, i) && i < |ps|
    ensures Printed(t + PrintPair(ps[i]) + (if i + 1 < |ps| then [COMMA, SPACE] else []), ps, i + 1)
  {
    PrintedRoom(t, ps, i);
    PrintedText(t, PrintFrom(ps, 0), ps, i);
    var p := PrintPair(ps[i]);
    assert t + p + [] == t + p;
  }

  /** hstore_out: the text is the printed form of the pairs, and with its
      terminator it stays inside the buffer that was reserved.  A buffer above
      the allocation limit is refused. */
  method HStoreOut(h: HStore) returns (text: Option<Bytes>)
    requires WF(h)
    ensures text.Some? <==> BudgetTo(PairsOf(h), h.count) <= MAX_ALLOC
    ensures text.Some? ==> text.value == PrintFrom(PairsOf(h), 0)
  {
    ghost var ps := PairsOf(h);
    if h.count == 0 {
      return Some([]);
    }
    var buflen := ComputeBudget(h);
    if buflen > MAX_ALLOC {
      return None;
    }
    var pr := new Printer(buflen);
    assert [] + PrintFrom(ps, 0) == PrintFrom(ps, 0);
    var i := 0;
    while i < h.count
      invariant 0 <= i <= h.count && fresh(pr) && fresh(pr.out) && pr.Valid() && pr.out.Length == buflen
      invariant Printed(pr.Text(), ps, i)
    {
      PrintOne(pr, h, i);
      i := i + 1;
    }
    text := Some(pr.out[..pr.ptr]);
    assert pr.Text() + [] == pr.Text();
    pr.Emit(0);
  }

  /** The separator, unless the pair was the last. */
  method EmitSeparator(pr: Printer, last: bool)
    requires pr.Valid() && pr.ptr + (if last then 0 else 2) <= pr.out.Length
    modifies pr, pr.out
    ensures pr.Valid() && pr.Text() == old(pr.Text()) + (if last then [] else [COMMA, SPACE])
  {
    assert pr.Text() + [] == pr.Text();
    if !last {
      pr.EmitAll([COMMA, SPACE]);
    }
  }

  method PrintOne(pr: Printer, h: HStore, i: nat)
    requires WF(h) && i < h.count && pr.Valid()
    requires pr.out.Length == BudgetTo(PairsOf(h), h.count) && Printed(pr.Text(), PairsOf(h), i)
    modifies pr, pr.out
    ensures pr.Valid() && Printed(pr.Text(), PairsOf(h), i + 1)
  {
    ghost var ps := PairsOf(h);
    PrintedRoom(pr.Text(), ps, i);
    PrintedStep(pr.Text(), ps, i);
    var key := ReadKey(h, i);
    var isnull, val := ReadVal(h, i);
    pr.EmitPair(key, isnull, val, ps[i]);
    EmitSeparator(pr, i + 1 == h.count);
  }

  // -------------------------------------------------------------------- input

  datatype Input = SyntaxError | TooLarge | Value(h: HStore)

  /** hstore_in: the mapping has exactly the keys of the parsed pairs, each with
      the value of one of its pairs; the result is well formed. */
  method HStoreIn(text: Bytes) returns (r: Input)
    requires NoNul(text)
    ensures r.SyntaxError? <==> Parse(text, WKey, [], []).None?
    ensures r.Value? ==> WF(r.h)
    ensures r.Value? ==> exists u :: Survivors(u, Parse(text, WKey, [], []).value) && Represents(r.h, AsPairs(u))
    ensures r.TooLarge? ==> exists u :: Survivors(u, Parse(text, WKey, [], []).value)
                                        && CalcDataSize(|u|, BufLen(u)) > MAX_ALLOC
  {
    var parser := new HSParser(text);
    var recs := parser.ParseHStore();
    if recs.None? {
      return SyntaxError;
    }
    var rs := recs.value;
    var a := new PairRec[|rs|](i requires 0 <= i < |rs| => rs[i]);
    assert a[..] == rs;
    var n, buflen := UniquePairs(a);
    var u := a[..n];
    var packed := HStorePairs(u, buflen);
    r := if packed.Some? then Value(packed.value) else TooLarge;
    assert Survivors(u, rs);
  }

  // ------------------------------------------------------------ the round trip

  /** De-duplicating pairs that are strictly sorted already keeps them all. */
  lemma SurvivorsOfStrict(u: seq<PairRec>, rs: seq<PairRec>)
    requires Survivors(u, rs) && Strict(rs)
    ensures AsPairs(u) == AsPairs(rs)
  {
    var a, b := AsPairs(u), AsPairs(rs);
    StrictSorted(u);
    StrictSorted(rs);
    forall k | k in MapOf(a)
      ensures k in MapOf(b) && MapOf(a)[k] == MapOf(b)[k]
    {
      MapOfKeys(a, k);
      var i :| 0 <= i < |a| && a[i].key == k;
      MapOfAt(a, i);
      assert Chosen(u[i], rs);
      var j :| 0 <= j < |rs| && rs[j] == u[i];
      assert b[j] == a[i];
      MapOfAt(b, j);
    }
    forall k | k in MapOf(b)
      ensures k in MapOf(a)
    {
      MapOfKeys(b, k);
      var j :| 0 <= j < |b| && b[j].key == k;
      assert rs[j].key == k;
      assert Covered(rs, k) && Covered(u, k);
      var i :| 0 <= i < |u| && u[i].key == k;
      MapOfAt(a, i);
    }
    SortedUnique(a, b);
  }

  lemma RereadSame(ps: seq<Pair>)
    requires Sorted(ps)
    ensures Strict(RereadAll(ps)) && AsPairs(RereadAll(ps)) == ps
  {
    var rs := RereadAll(ps);
    forall i | 0 <= i < |rs| - 1
      ensures Less(rs[i].key, rs[i + 1].key)
    {
      assert Linked(ps, i);
    }
  }

  ghost predicate NulFree(h: HStore) {
    NoNul(h.str)
  }

  lemma NoNulSlice(s: Bytes, a: nat, b: nat)
    requires NoNul(s) && a <= b <= |s|
    ensures NoNul(s[a..b])
  {
    forall j | 0 <= j < b - a
      ensures s[a..b][j] != 0
    {
      assert s[a..b][j] == s[a + j];
    }
  }

  lemma NulFreePairs(h: HStore, i: nat)
    requires WF(h) && NulFree(h) && i < h.count
    ensures Printable(PairsOf(h)[i])
  {
    var ps := PairsOf(h);
    StringsAt(ps, i);
    NoNulSlice(Strings(ps), End(ps, i), End(ps, i) + |ps[i].key|);
    NoNulSlice(Strings(ps), End(ps, i) + |ps[i].key|, End(ps, i + 1));
  }

  lemma {:induction false} EscapeNoNul(b: Bytes)
    requires NoNul(b)
    ensures NoNul(Escape(b))
  {
    if b != [] {
      EscapeNoNul(b[1..]);
    }
  }

  lemma PairNoNul(p: Pair)
    requires Printable(p)
    ensures NoNul(PrintPair(p))
  {
    EscapeNoNul(p.key);
    if p.val.Some? {
      EscapeNoNul(p.val.value);
    }
    assert NoNul(Quoted(p.key)) && NoNul(PrintVal(p.val));
  }

  lemma {:induction false} PrintedNoNul(ps: seq<Pair>, i: nat)
    requires i <= |ps| && forall k :: 0 <= k < |ps| ==> Printable(ps[k])
    ensures NoNul(PrintFrom(ps, i))
    decreases |ps| - i
  {
    if i < |ps| {
      PairNoNul(ps[i]);
      PrintedNoNul(ps, i + 1);
    }
  }

  /** Reading the printed form of a well-formed NUL-free value gives the value
      back, whichever pair the de-duplication would have kept of equals. */
  lemma OutIn(h: HStore)
    requires WF(h) && NulFree(h)
    ensures var t := PrintFrom(PairsOf(h), 0);
            && NoNul(t) && Parse(t, WKey, [], []).Some?
            && forall u :: Survivors(u, Parse(t, WKey, [], []).value) ==>
                 Represents(h, AsPairs(u)) && CalcDataSize(|u|, BufLen(u)) <= MAX_ALLOC
  {
    var ps := PairsOf(h);
    forall k | 0 <= k < |ps|
      ensures Printable(ps[k])
    {
      NulFreePairs(h, k);
    }
    PrintedNoNul(ps, 0);
    ParsePrinted(ps, 0, [], []);
    assert ps[0..] == ps && [] + RereadAll(ps) == RereadAll(ps);
    RereadSame(ps);
    forall u | Survivors(u, RereadAll(ps))
      ensures Represents(h, AsPairs(u)) && CalcDataSize(|u|, BufLen(u)) <= MAX_ALLOC
    {
      SurvivorsOfStrict(u, RereadAll(ps));
      BufLenIsStrings(u);
    }
  }

  /** hstore_in after hstore_out is the identity. */
  method OutThenIn(h: HStore) returns (r: Input)
    requires WF(h) && NulFree(h) && BudgetTo(PairsOf(h), h.count) <= MAX_ALLOC
    ensures r == Value(h)
  {
    var text := HStoreOut(h);
    OutIn(h);
    r := HStoreIn(text.value);
  }
}
