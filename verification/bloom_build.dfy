/** Building a bloom index page by page, and the sequential scan of a built
    index (contrib/bloom/blinsert.c, blscan.c). */
module BloomBuild {
  import opened Wrappers
  import opened BloomSign
  import opened BloomPages
  import opened BloomProtocol

  ghost predicate FullPage(cap: nat, p: Page) {
    p.Data? && !p.deleted && |p.tuples| == cap
  }

  ghost predicate GoodPage(cap: nat, p: Page) {
    p.Data? && !p.deleted && 1 <= |p.tuples| <= cap
  }

  /** The tuples of a list of pages, in order. */
  ghost function Flatten(pages: seq<Page>): seq<BloomTuple> {
    if pages == [] then [] else Flatten(pages[..|pages| - 1]) + Tuples(pages[|pages| - 1])
  }

  lemma FlattenAppend(pages: seq<Page>, p: Page)
    ensures Flatten(pages + [p]) == Flatten(pages) + Tuples(p)
  {
    assert (pages + [p])[..|pages|] == pages;
  }

  /** The state of a build: pages already flushed and one page being filled. */
  class BuildState {
    const size: nat
    const page: PageBuffer
    var count: nat
    var indtuples: nat
    var flushed: seq<Page>

    ghost predicate Valid()
      reads this, page, page.data
    {
      && page.size == size && page.Valid() && !page.isNew && !page.deleted
      && count == page.maxoff
      && indtuples == |Flatten(flushed)| + count
      && (forall i :: 0 <= i < |flushed| ==> FullPage(Capacity(size), flushed[i]))
      && (flushed != [] ==> count > 0)
    }

    /** All pages are flushed, and the cached page is empty. */
    ghost predicate AfterReset()
      reads this, page, page.data
    {
      && page.size == size && page.Valid() && !page.isNew && !page.deleted
      && count == page.maxoff == 0 && indtuples == |Flatten(flushed)|
      && (forall i :: 0 <= i < |flushed| ==> FullPage(Capacity(size), flushed[i]))
    }

    /** Every tuple added so far, in order. */
    ghost function Added(): seq<BloomTuple>
      requires Valid()
      reads this, page, page.data
    {
      Flatten(flushed) + page.data[..page.maxoff]
    }

    constructor (size: nat)
      requires 8 <= size <= 518
      ensures Valid() && fresh(page) && fresh(page.data) && this.size == size && Added() == []
    {
      this.size := size;
      var p := new PageBuffer(size);
      p.InitPage();
      page := p;
      count, indtuples, flushed := 0, 0, [];
    }

    method Flush()
      requires page.Valid() && !page.isNew && !page.deleted
      modifies this`flushed
      ensures flushed == old(flushed) + [Data(false, page.data[..page.maxoff])]
    {
      flushed := flushed + [Data(false, page.data[..page.maxoff])];
    }

    /** Adds t to the cached page if it fits there. */
    method AddToCached(t: BloomTuple) returns (added: bool)
      requires Valid()
      modifies this, page, page.data
      ensures Valid() && flushed == old(flushed)
      ensures added <==> old(count) < Capacity(size)
      ensures added ==> count == old(count) + 1 && indtuples == old(indtuples) + 1
      ensures !added ==> count == old(count) && indtuples == old(indtuples)
      ensures page.data[..count] == if added then old(page.data[..count]) + [t] else old(page.data[..count])
    {
      added := page.AddItem(t);
      if added {
        count := count + 1;
        indtuples := indtuples + 1;
      }
    }

    method FlushAndReset()
      requires Valid() && count == Capacity(size)
      modifies this`flushed, this`count, page
      ensures AfterReset()
      ensures flushed == old(flushed) + [Data(false, old(page.data[..count]))]
      ensures Flatten(flushed) == old(Added())
    {
      FlattenAppend(flushed, Data(false, page.data[..count]));
      Flush();
      page.InitPage();
      count := 0;
    }

    /** Starts an empty page with t. */
    method StartPage(t: BloomTuple) returns (failed: bool)
      requires AfterReset()
      modifies this`count, this`indtuples, page, page.data
      ensures Valid() && !failed && count == 1 && indtuples == old(indtuples) + 1
      ensures page.data[..count] == [t]
    {
      CapacityBounds(size);
      var added := page.AddItem(t);
      if !added {
        return true;
      }
      count := 1;
      indtuples := indtuples + 1;
      failed := false;
    }

    /** Flushes the full page and starts the next one with t. */
    method NextPage(t: BloomTuple) returns (failed: bool)
      requires Valid() && count == Capacity(size)
      modifies this, page, page.data
      ensures Valid() && !failed && count > 0
      ensures Added() == old(Added()) + [t] && indtuples == old(indtuples) + 1
    {
      FlushAndReset();
      failed := StartPage(t);
    }

    /** One tuple of the heap scan.  The report of a tuple that does not fit on
        an empty page is never reached. */
    method BuildCallback(t: BloomTuple) returns (failed: bool)
      requires Valid()
      modifies this, page, page.data
      ensures Valid() && !failed && count > 0
      ensures Added() == old(Added()) + [t] && indtuples == old(indtuples) + 1
    {
      ghost var before := page.data[..count];
      var added := AddToCached(t);
      if added {
        assert Flatten(flushed) + (before + [t]) == Flatten(flushed) + before + [t];
        failed := false;
      } else {
        failed := NextPage(t);
      }
    }

    /** The last page is flushed unless the heap was empty. */
    method Finish()
      requires Valid()
      modifies this`flushed
      ensures Flatten(flushed) == old(Added())
      ensures forall i :: 0 <= i < |flushed| ==> GoodPage(Capacity(size), flushed[i])
      ensures forall i :: 0 <= i < |flushed| - 1 ==> FullPage(Capacity(size), flushed[i])
    {
      CapacityBounds(size);
      if count > 0 {
        FlattenAppend(flushed, Data(false, page.data[..page.maxoff]));
        Flush();
      }
    }
  }

  /** The whole build: the pages hold the heap's tuples in heap order, every
      page but the last is full, and no page is empty. */
  method Build(size: nat, heap: seq<BloomTuple>) returns (pages: seq<Page>, indtuples: nat)
    requires 8 <= size <= 518
    ensures indtuples == |heap|
    ensures Flatten(pages) == heap
    ensures forall i :: 0 <= i < |pages| ==> GoodPage(Capacity(size), pages[i])
    ensures forall i :: 0 <= i < |pages| - 1 ==> FullPage(Capacity(size), pages[i])
  {
    var b := new BuildState(size);
    var i := 0;
    while i < |heap|
      invariant 0 <= i <= |heap|
      invariant fresh(b) && fresh(b.page) && fresh(b.page.data)
      invariant b.size == size && b.Valid() && b.indtuples == i
      invariant b.Added() == heap[..i]
    {
      var failed := b.BuildCallback(heap[i]);
      i := i + 1;
    }
    assert heap[..i] == heap;
    b.Finish();
    pages, indtuples := b.flushed, b.indtuples;
  }

  lemma {:induction false} LiveIsFlatten(pages: seq<Page>)
    ensures Live([MetaPage] + pages) == multiset(Flatten(pages))
  {
    var all := [MetaPage] + pages;
    if pages == [] {
      assert all[..0] == [];
    } else {
      var n := |pages| - 1;
      LiveIsFlatten(pages[..n]);
      assert all[..|all| - 1] == [MetaPage] + pages[..n];
    }
  }

  /** A freshly built index is a legal starting state of the protocol. */
  lemma BuiltIndexSatisfiesInv(c: Config, pages: seq<Page>, heap: seq<BloomTuple>, notFull: seq<nat>)
    requires c.Valid() && |notFull| == c.slots && Flatten(pages) == heap
    requires forall i :: 0 <= i < |pages| ==> GoodPage(c.cap, pages[i])
    ensures Inv(c, State([MetaPage] + pages, Meta(0, 0, notFull), None, map[], multiset(heap), multiset{}))
  {
    LiveIsFlatten(pages);
  }

  // ---------------------------------------------------------------- scanning

  /** The heap pointers of the entries of one page that pass the test. */
  ghost function PageHits(ts: seq<BloomTuple>, q: Sign): seq<nat>
    requires forall t :: t in ts ==> |t.sign| == |q|
  {
    if ts == [] then [] else
      var t := ts[|ts| - 1];
      PageHits(ts[..|ts| - 1], q) + (if BitsOf(q) <= BitsOf(t.sign) then [t.heapPtr] else [])
  }

  ghost function IndexHits(pages: seq<Page>, q: Sign): seq<nat>
    requires forall p, t :: p in pages && t in Tuples(p) ==> |t.sign| == |q|
  {
    if pages == [] then [] else
      assert pages[|pages| - 1] in pages;
      IndexHits(pages[..|pages| - 1], q) + PageHits(Tuples(pages[|pages| - 1]), q)
  }

  lemma HitsNext(pages: seq<Page>, q: Sign, n: nat)
    requires n < |pages| && forall p, t :: p in pages && t in Tuples(p) ==> |t.sign| == |q|
    ensures pages[n] in pages
    ensures IndexHits(pages[..n + 1], q) == IndexHits(pages[..n], q) + PageHits(Tuples(pages[n]), q)
  {
    assert pages[..n + 1][..n] == pages[..n];
  }

  /** An entry of the page with this heap pointer passes the match test. */
  ghost predicate PageAnswers(ts: seq<BloomTuple>, q: Sign, h: nat) {
    exists t :: t in ts && Hits(t, q) && t.heapPtr == h
  }

  lemma {:induction false} PageHitsIff(ts: seq<BloomTuple>, q: Sign, h: nat)
    requires forall t :: t in ts ==> |t.sign| == |q|
    ensures h in PageHits(ts, q) <==> PageAnswers(ts, q, h)
  {
    if ts != [] {
      var n := |ts| - 1;
      PageHitsIff(ts[..n], q, h);
      MatchesIffSubset(ts[n].sign, q);
      assert ts == ts[..n] + [ts[n]];
    }
  }

  /** Some live page holds such an entry. */
  ghost predicate Answers(pages: seq<Page>, q: Sign, h: nat) {
    exists i :: 0 <= i < |pages| && PageAnswers(Tuples(pages[i]), q, h)
  }

  lemma AnswersStep(pages: seq<Page>, q: Sign, h: nat)
    requires pages != []
    ensures var n := |pages| - 1;
            Answers(pages, q, h) <==> Answers(pages[..n], q, h) || PageAnswers(Tuples(pages[n]), q, h)
  {
    var n := |pages| - 1;
    if Answers(pages[..n], q, h) {
      var i :| 0 <= i < n && PageAnswers(Tuples(pages[..n][i]), q, h);
      assert pages[..n][i] == pages[i];
    }
    if Answers(pages, q, h) {
      var i :| 0 <= i < |pages| && PageAnswers(Tuples(pages[i]), q, h);
      assert i < n ==> pages[..n][i] == pages[i];
    }
  }

  /** The scan returns a heap pointer if and only if some live page has an entry
      with it that passes the match test. */
  lemma {:induction false} IndexHitsIff(pages: seq<Page>, q: Sign, h: nat)
    requires forall p, t :: p in pages && t in Tuples(p) ==> |t.sign| == |q|
    ensures h in IndexHits(pages, q) <==> Answers(pages, q, h)
  {
    if pages != [] {
      var n := |pages| - 1;
      assert pages[n] in pages;
      IndexHitsIff(pages[..n], q, h);
      PageHitsIff(Tuples(pages[n]), q, h);
      AnswersStep(pages, q, h);
    }
  }

  /** The entry of a row that satisfies every key, on any live page, is returned. */
  lemma RowInBitmap(opts: Options, row: Row, keys: seq<ScanKey>, pages: seq<Page>, q: Sign, t: BloomTuple, i: nat)
    requires opts.Valid() && |row| <= INDEX_MAX_KEYS && RowUsable(row, |row|)
    requires KeysUsable(keys, |keys|) && RowSatisfies(row, keys)
    requires |t.sign| == |q| == opts.bloomLength
    requires BitsOf(t.sign) == RowBits(opts, row, |row|) && BitsOf(q) == KeyBits(opts, keys, |keys|)
    requires i < |pages| && t in Tuples(pages[i])
    requires forall p, u :: p in pages && u in Tuples(p) ==> |u.sign| == |q|
    ensures t.heapPtr in IndexHits(pages, q)
  {
    SatisfyingRowMatches(opts, row, keys, t.sign, q);
    assert PageAnswers(Tuples(pages[i]), q, t.heapPtr);
    IndexHitsIff(pages, q, t.heapPtr);
  }

  /** The places of the entries that pass the test. */
  ghost function Passing(ts: seq<BloomTuple>, q: Sign): set<nat> {
    set i: nat | i < |ts| && Hits(ts[i], q)
  }

  lemma PassingStep(ts: seq<BloomTuple>, q: Sign, n: nat)
    requires n + 1 == |ts|
    ensures |Passing(ts, q)| == |Passing(ts[..n], q)| + if Hits(ts[n], q) then 1 else 0
  {
    hide Hits;
    assert forall i :: 0 <= i < n ==> ts[..n][i] == ts[i];
    var before := Passing(ts[..n], q);
    assert n !in before;
    assert Passing(ts, q) == if Hits(ts[n], q) then before + {n} else before;
  }

  lemma {:induction false} PageHitsCount(ts: seq<BloomTuple>, q: Sign)
    requires forall t :: t in ts ==> |t.sign| == |q|
    ensures |PageHits(ts, q)| == |Passing(ts, q)|
  {
    if ts == [] {
      assert Passing(ts, q) == {};
    } else {
      var n := |ts| - 1;
      PageHitsCount(ts[..n], q);
      PassingStep(ts, q, n);
      MatchesIffSubset(ts[n].sign, q);
      hide Passing;
    }
  }

  lemma {:induction false} PageHitsAppend(a: seq<BloomTuple>, b: seq<BloomTuple>, q: Sign)
    requires forall t :: t in a + b ==> |t.sign| == |q|
    ensures (forall t :: t in a ==> |t.sign| == |q|) && (forall t :: t in b ==> |t.sign| == |q|)
    ensures PageHits(a + b, q) == PageHits(a, q) + PageHits(b, q)
    decreases |b|
  {
    assert forall t :: t in a || t in b ==> t in a + b;
    if b == [] {
      assert a + b == a;
    } else {
      var n := |b| - 1;
      assert (a + b)[..|a + b| - 1] == a + b[..n];
      PageHitsAppend(a, b[..n], q);
    }
  }

  lemma {:induction false} InSomePage(pages: seq<Page>, t: BloomTuple) returns (i: nat)
    requires t in Flatten(pages)
    ensures i < |pages| && t in Tuples(pages[i])
  {
    var n := |pages| - 1;
    if t in Tuples(pages[n]) {
      i := n;
    } else {
      i := InSomePage(pages[..n], t);
    }
  }

  lemma FlattenSigns(pages: seq<Page>, q: Sign)
    requires forall p, t :: p in pages && t in Tuples(p) ==> |t.sign| == |q|
    ensures forall t :: t in Flatten(pages) ==> |t.sign| == |q|
  {
    forall t | t in Flatten(pages)
      ensures |t.sign| == |q|
    {
      var i := InSomePage(pages, t);
      assert pages[i] in pages;
    }
  }

  /** The pointers come in the order of the entries, one for each that passes. */
  lemma {:induction false} IndexHitsInOrder(pages: seq<Page>, q: Sign)
    requires forall p, t :: p in pages && t in Tuples(p) ==> |t.sign| == |q|
    ensures forall t :: t in Flatten(pages) ==> |t.sign| == |q|
    ensures IndexHits(pages, q) == PageHits(Flatten(pages), q)
    ensures |IndexHits(pages, q)| == |Passing(Flatten(pages), q)|
  {
    FlattenSigns(pages, q);
    if pages != [] {
      var n := |pages| - 1;
      IndexHitsInOrder(pages[..n], q);
      PageHitsAppend(Flatten(pages[..n]), Tuples(pages[n]), q);
    }
    PageHitsCount(Flatten(pages), q);
  }

  method ScanTuples(ts: seq<BloomTuple>, q: Sign, ghost before: seq<nat>, bitmap: seq<nat>) returns (out: seq<nat>)
    requires forall t :: t in ts ==> |t.sign| == |q|
    requires bitmap == before
    ensures out == before + PageHits(ts, q)
  {
    out := bitmap;
    for i := 0 to |ts|
      invariant out == before + PageHits(ts[..i], q)
    {
      assert ts[..i + 1][..i] == ts[..i];
      var res := CheckSign(ts[i].sign, q);
      if res {
        out := out + [ts[i].heapPtr];
      }
    }
    assert ts[..|ts|] == ts;
  }

  /** The whole-index scan: every page in block order, new and deleted pages
      skipped, exactly the entries whose signature covers the query's. */
  method GetBitmap(blocks: seq<Page>, q: Sign) returns (bitmap: seq<nat>, ntids: nat)
    requires |blocks| >= 1
    requires forall p, t :: p in blocks && t in Tuples(p) ==> |t.sign| == |q|
    ensures bitmap == IndexHits(blocks[1..], q) && ntids == |bitmap|
    ensures forall h :: h in bitmap <==> Answers(blocks[1..], q, h)
  {
    bitmap := [];
    ghost var data := blocks[1..];
    for blkno := 1 to |blocks|
      invariant bitmap == IndexHits(data[..blkno - 1], q)
    {
      assert data[blkno - 1] == blocks[blkno] && blocks[blkno] in blocks;
      HitsNext(data, q, blkno - 1);
      if blocks[blkno].Data? && !blocks[blkno].deleted {
        bitmap := ScanTuples(blocks[blkno].tuples, q, bitmap, bitmap);
      }
    }
    assert data[..|data|] == data;
    ntids := |bitmap|;
    forall h
      ensures h in bitmap <==> Answers(data, q, h)
    {
      IndexHitsIff(data, q, h);
    }
  }
}
