/** Building a packed hstore in place: the macros HS_COPYITEM, HS_ADDITEM and
    HS_FINALIZE over one flat buffer (contrib/hstore/hstore.h), and hstorePairs
    (contrib/hstore/hstore_io.c). */
module HStoreBuild {
  import opened Wrappers
  import opened HStoreBase
  import opened HStorePack

  /** Memory behind the header: the two entries of a pair take one cell of the
      array part, a string byte one cell of the string part. */
  datatype Cell = Free | Entries(e: EntryPair) | Char(b: Byte)

  function Masked(n: nat): nat {
    n % 0x4000_0000
  }

  function Chars(b: Bytes): seq<Cell> {
    seq(|b|, i requires 0 <= i < |b| => Char(b[i]))
  }

  ghost function EntryCells(ps: seq<Pair>): seq<Cell> {
    seq(|ps|, i requires 0 <= i < |ps| => Entries(PlainEntries(ps, i)))
  }

  lemma {:induction false} AppendStrings(ps: seq<Pair>, p: Pair, n: nat)
    requires n <= |ps|
    ensures StringsTo(ps + [p], n) == StringsTo(ps, n)
  {
    if n > 1 {
      AppendStrings(ps, p, n - 1);
    }
  }

  lemma AppendPair(ps: seq<Pair>, p: Pair)
    ensures Strings(ps + [p]) == Strings(ps) + Item(p)
    ensures EntryCells(ps + [p]) == EntryCells(ps) + [Entries(PlainEntries(ps + [p], |ps|))]
    ensures PlainEntries(ps + [p], |ps|) ==
            EntryPair(HEntry(false, false, |Strings(ps)| + |p.key|),
                      HEntry(false, p.val.None?, |Strings(ps)| + |p.key| + |ValBytes(p)|))
  {
    AppendStrings(ps, p, |ps|);
    forall i | 0 <= i < |ps|
      ensures PlainEntries(ps + [p], i) == PlainEntries(ps, i)
    {
      AppendStrings(ps, p, i);
      AppendStrings(ps, p, i + 1);
    }
  }

  /** The n cells from at + gap on have been moved down to at, and no other changed. */
  ghost predicate Moved(was: seq<Cell>, now: seq<Cell>, at: nat, gap: nat, n: nat) {
    && |now| == |was| && at + gap + n <= |was|
    && (forall k {:trigger now[k]} :: 0 <= k < at || at + n <= k < |was| ==> now[k] == was[k])
    && (forall k {:trigger now[k]} :: at <= k < at + n ==> now[k] == was[k + gap])
  }

  lemma MovedNone(was: seq<Cell>, at: nat, gap: nat)
    requires at + gap <= |was|
    ensures Moved(was, was, at, gap, 0)
  {
  }

  lemma MovedOne(was: seq<Cell>, now: seq<Cell>, at: nat, gap: nat, n: nat)
    requires Moved(was, now, at, gap, n) && at + gap + n < |was|
    ensures Moved(was, now[at + n := now[at + gap + n]], at, gap, n + 1)
  {
  }

  lemma MovedAll(was: seq<Cell>, now: seq<Cell>, at: nat, gap: nat, n: nat)
    requires Moved(was, now, at, gap, n)
    ensures now[..at] == was[..at] && now[at..at + n] == was[at + gap..at + gap + n]
  {
    var a, b := now[at..at + n], was[at + gap..at + gap + n];
    forall k | 0 <= k < n
      ensures a[k] == b[k]
    {
      assert now[at + k] == was[at + k + gap];
    }
  }

  /** The strings and the entries with one more pair. */
  lemma NextItem(ps: seq<Pair>, p: Pair, src: Bytes)
    requires src == Item(p)
    ensures Strings(ps + [p]) == Strings(ps) + src
    ensures PlainEntries(ps + [p], |ps|) ==
            EntryPair(HEntry(false, false, |Strings(ps)| + |src| - |ValBytes(p)|),
                      HEntry(false, p.val.None?, |Strings(ps)| + |src|))
  {
    AppendPair(ps, p);
  }

  class Builder {
    const cells: array<Cell>
    const prov: nat
    var ed: nat
    var pd: nat
    ghost var items: seq<Pair>

    ghost predicate Valid()
      reads this, cells
    {
      && ed == |items| <= prov
      && pd == |Strings(items)|
      && prov + pd <= cells.Length
      && cells[..ed] == EntryCells(items)
      && cells[prov..prov + pd] == Chars(Strings(items))
    }

    /** Room for n pairs and a string area of the given size; the strings start
        behind the provisional number of pairs. */
    constructor (n: nat, bytes: nat)
      ensures Valid() && fresh(cells) && prov == n && cells.Length == n + bytes && items == []
    {
      cells := new Cell[n + bytes](_ => Free);
      prov, ed, pd, items := n, 0, 0, [];
    }

    /** memcpy to the end of the string area. */
    method CopyBytes(src: Bytes, ghost base: Bytes)
      requires ed <= prov && prov + pd + |src| <= cells.Length
      requires pd == |base| && cells[prov..prov + pd] == Chars(base)
      modifies this`pd, cells
      ensures pd == old(pd) + |src|
      ensures cells[..ed] == old(cells[..ed])
      ensures cells[prov..prov + pd] == Chars(base + src)
    {
      var at := prov + pd;
      var i := 0;
      while i < |src|
        invariant 0 <= i <= |src| && pd == old(pd)
        invariant cells[..ed] == old(cells[..ed])
        invariant cells[prov..at + i] == Chars(base + src[..i])
      {
        cells[at + i] := Char(src[i]);
        assert cells[prov..at + i + 1] == cells[prov..at + i] + [Char(src[i])];
        i := i + 1;
      }
      assert src[..i] == src;
      pd := pd + |src|;
    }

    /** Writes the two entries of the next item. */
    method PutEntries(e: EntryPair, ghost ps: seq<Pair>, ghost p: Pair, ghost str: Bytes)
      requires ed == |ps| < prov && prov + |str| <= cells.Length && cells[..ed] == EntryCells(ps)
      requires e == PlainEntries(ps + [p], |ps|) && cells[prov..prov + |str|] == Chars(str)
      modifies this`ed, cells
      ensures ed == |ps| + 1 && cells[..ed] == EntryCells(ps + [p])
      ensures cells[prov..prov + |str|] == Chars(str)
    {
      AppendPair(ps, p);
      cells[ed] := Entries(e);
      ed := ed + 1;
      assert cells[..ed] == old(cells[..ed]) + [Entries(e)];
      assert cells[prov..prov + |str|] == old(cells[prov..prov + |str|]);
    }

    /** HS_COPYITEM: key and value lie contiguously in src. */
    method CopyItem(src: Bytes, klen: nat, vlen: nat, vnull: bool, ghost p: Pair)
      requires Valid() && ed < prov && prov + pd + |src| <= cells.Length && pd + |src| <= POSMASK
      requires src == Item(p) && klen == |p.key| && vlen == |ValBytes(p)| && vnull == p.val.None?
      modifies this, cells
      ensures Valid() && items == old(items) + [p]
    {
      hide StringsTo, End;
      NextItem(items, p, src);
      CopyBytes(src, Strings(items));
      PutEntries(EntryPair(HEntry(false, false, Masked(pd - vlen)), HEntry(false, vnull, Masked(pd))),
                 items, p, Strings(items) + src);
      items := items + [p];
    }

    /** HS_ADDITEM: key and value come from a pair; a null has no bytes. */
    method AddItem(key: Bytes, val: Bytes, isnull: bool)
      requires Valid() && ed < prov
      requires prov + pd + |key| + (if isnull then 0 else |val|) <= cells.Length
      requires pd + |key| + (if isnull then 0 else |val|) <= POSMASK
      modifies this, cells
      ensures Valid() && items == old(items) + [Pair(key, if isnull then None else Some(val))]
    {
      ghost var p := Pair(key, if isnull then None else Some(val));
      var vlen := if isnull then 0 else |val|;
      CopyItem(key + (if isnull then [] else val), |key|, vlen, isnull, p);
    }

    method MoveCell(to: nat, from: nat)
      requires to < cells.Length && from < cells.Length
      modifies cells
      ensures cells[..] == old(cells[..])[to := old(cells[..])[from]]
    {
      cells[to] := cells[from];
    }

    method MoveCells()
      requires ed <= prov && prov + pd <= cells.Length
      modifies cells
      ensures Moved(old(cells[..]), cells[..], ed, prov - ed, pd)
    {
      hide Moved;
      ghost var was := cells[..];
      MovedNone(was, ed, prov - ed);
      var j := 0;
      while j < pd
        invariant 0 <= j <= pd && Moved(was, cells[..], ed, prov - ed, j)
      {
        MovedOne(was, cells[..], ed, prov - ed, j);
        MoveCell(ed + j, prov + j);
        j := j + 1;
      }
    }

    /** The memmove of HS_FINALIZE: the string area moves down to directly
        behind the entries that were really written. */
    method Shift()
      requires ed <= prov && prov + pd <= cells.Length
      modifies cells
      ensures cells[..ed] == old(cells[..ed])
      ensures cells[ed..ed + pd] == old(cells[prov..prov + pd])
    {
      hide Moved;
      ghost var was := cells[..];
      MoveCells();
      MovedAll(was, cells[..], ed, prov - ed, pd);
      assert was[..ed] == old(cells[..ed]) && was[prov..prov + pd] == old(cells[prov..prov + pd]);
      assert cells[..][..ed] == cells[..ed] && cells[..][ed..ed + pd] == cells[ed..ed + pd];
    }

    /** Sets the first-flag in the first entry, if there is one. */
    method SetFirst()
      requires Valid()
      modifies cells
      ensures |cells[..ed]| == |EntryCells(items)| == ed
      ensures ed != 0 ==> var e := EntryCells(items)[0].e;
                          cells[..ed] == EntryCells(items)[0 := Entries(e.(key := e.key.(isfirst := true)))]
      ensures cells[prov..prov + pd] == Chars(Strings(items))
    {
      if ed != 0 {
        assert cells[0] == cells[..ed][0];
        var e := cells[0].e;
        cells[0] := Entries(e.(key := e.key.(isfirst := true)));
        assert cells[prov..prov + pd] == old(cells[prov..prov + pd]);
      }
    }

    /** Moves the strings down, unless they are in place. */
    method Close()
      requires ed <= prov && prov + pd <= cells.Length
      modifies cells
      ensures cells[..ed] == old(cells[..ed])
      ensures cells[ed..ed + pd] == old(cells[prov..prov + pd])
    {
      if ed != prov {
        Shift();
      }
    }

    /** HS_FINALIZE: the finished value is the packed form of the items, exact
        in size, wherever the provisional count had put the strings. */
    method Finalize() returns (h: HStore)
      requires Valid() && Fits(items)
      modifies cells
      ensures h == Pack(items)
    {
      SetFirst();
      Close();
      var es, cs := cells[..ed], cells[ed..ed + pd];
      h := Extract(es, cs);
      assert h.str == Strings(items);
      assert h.entries == Pack(items).entries;
    }
  }

  /** Reading the finished buffer as a value. */
  function Extract(es: seq<Cell>, cs: seq<Cell>): HStore
    requires forall i :: 0 <= i < |es| ==> es[i].Entries?
    requires forall i :: 0 <= i < |cs| ==> cs[i].Char?
  {
    HStore(CalcDataSize(|es|, |cs|), |es|,
           seq(|es|, i requires 0 <= i < |es| => es[i].e),
           seq(|cs|, i requires 0 <= i < |cs| => cs[i].b))
  }
}
