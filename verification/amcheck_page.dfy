/** The checks of one B-tree page (contrib/amcheck/verify_nbtree.c), in readonly
    mode. */
module AmcheckPage {
  import opened Wrappers
  import opened AmcheckCompare

  type Block = nat

  // Block number 0 is the metapage, so as a link it means no page.
  const P_NONE: Block := 0

  /** An index tuple: one that points to the heap, with all its attributes, or a
      pivot tuple, which may be truncated and carries the downlink. */
  datatype Tup =
    | Heap(atts: seq<Option<Datum>>, tid: nat)
    | Pivot(atts: seq<Option<Datum>>, heapTid: Option<nat>, down: Block)

  /** The index: the key columns, which come first, and the number of all columns. */
  datatype Index = Index(cols: seq<Col>, natts: nat)

  /** The place of a tuple in the key space, which is also its scan key. */
  function Place(ix: Index, t: Tup): (a: Sep)
    ensures |a.atts| <= |ix.cols|
  {
    Sep(if |ix.cols| <= |t.atts| then t.atts[..|ix.cols|] else t.atts,
        if t.Heap? then Some(t.tid) else t.heapTid)
  }

  /** The block a tuple points to; for a heap tuple that is the block of its TID. */
  function DownLink(t: Tup): Block {
    if t.Heap? then t.tid / 0x1_0000 else t.down
  }

  datatype Page = Page(leaf: bool, root: bool, halfdead: bool, deleted: bool,
                       level: nat, prev: Block, next: Block, items: seq<Tup>)

  predicate Ignorable(p: Page) {
    p.halfdead || p.deleted
  }

  /** Where the data items start, after the high key of a page that is not rightmost. */
  function FirstData(p: Page): nat {
    if p.next == P_NONE then 0 else 1
  }

  /** Where the items with a real key start, after the minus infinity item of an
      internal page. */
  function FirstReal(p: Page): nat {
    if p.leaf then FirstData(p) else FirstData(p) + 1
  }

  /** The items of the page that have a real key. */
  function RealItems(p: Page): seq<Tup> {
    if FirstReal(p) <= |p.items| then p.items[FirstReal(p)..] else []
  }

  /** What reading a page checks before anything else. */
  predicate Readable(p: Page) {
    && (p.leaf && !p.deleted ==> p.level == 0)
    && (!p.leaf && !p.deleted ==> p.level != 0 && FirstData(p) < |p.items|)
    && (p.leaf && !p.deleted && p.next != P_NONE ==> |p.items| >= 1)
    && (!p.leaf ==> !p.halfdead)
  }

  /** The index file.  A block that is not in the map is one whose read fails. */
  type Graph = map<Block, Page>

  ghost predicate ValidGraph(g: Graph) {
    P_NONE !in g && forall b :: b in g ==> Readable(g[b])
  }

  // The check of the number of attributes.

  predicate PivotOk(ix: Index, t: Tup) {
    && t.Pivot? && (t.heapTid.Some? ==> |t.atts| == |ix.cols|)
    && 0 < |t.atts| <= |ix.cols|
  }

  predicate CheckNatts(ix: Index, p: Page, i: nat)
    requires i < |p.items|
  {
    var t := p.items[i];
    if p.leaf && i >= FirstData(p) then t.Heap? && |t.atts| == ix.natts
    else if !p.leaf && i == FirstData(p) then t.atts == []
    else PivotOk(ix, t)
  }

  /** Items of a leaf have every column.  Other tuples have between one and all key
      columns, and a heap TID only with all of them; the minus infinity item has none. */
  lemma WrongAttsFail(ix: Index, p: Page, i: nat)
    requires i < |p.items|
    ensures p.leaf && i >= FirstData(p) ==> (CheckNatts(ix, p, i) ==> p.items[i].Heap? && |p.items[i].atts| == ix.natts)
    ensures !p.leaf && i == FirstData(p) ==> (CheckNatts(ix, p, i) <==> |p.items[i].atts| == 0)
    ensures (if p.leaf then i < FirstData(p) else i != FirstData(p)) && CheckNatts(ix, p, i) ==>
              && p.items[i].Pivot? && 1 <= |p.items[i].atts| <= |ix.cols|
              && (|p.items[i].atts| < |ix.cols| ==> p.items[i].heapTid.None?)
  {
  }

  lemma NattsPlaced(ix: Index, p: Page, i: nat)
    requires |ix.cols| <= ix.natts && i < |p.items| && CheckNatts(ix, p, i)
    requires p.leaf || i != FirstData(p)
    ensures Placed(ix.cols, Place(ix, p.items[i]))
    ensures p.leaf && i >= FirstData(p) ==> Place(ix, p.items[i]).tid.Some?
  {
  }

  // --------------------------------------------------------- the right sibling

  /** The first page from b on, going right, that is not ignorable or is the last;
      none if a read fails or if the way never ends. */
  function RightPage(g: Graph, b: Block, unseen: set<Block>): Option<Block>
    decreases |unseen|
  {
    if b !in g || b !in unseen then None
    else if !Ignorable(g[b]) || g[b].next == P_NONE then Some(b)
    else RightPage(g, g[b].next, unseen - {b})
  }

  /** The loop goes past the block. */
  predicate GoesPast(g: Graph, b: Block) {
    b in g && Ignorable(g[b]) && g[b].next != P_NONE
  }

  /** The block n places to the right of b. */
  function ToTheRight(g: Graph, b: Block, n: nat): Block
    decreases n
  {
    if n == 0 then b
    else if b in g then ToTheRight(g, g[b].next, n - 1) else b
  }

  /** The loop goes past the first n blocks from b on. */
  ghost predicate PastAll(g: Graph, b: Block, n: nat) {
    forall m :: 0 <= m < n ==> GoesPast(g, ToTheRight(g, b, m))
  }

  /** After n blocks the loop is on a block that it can read and does not go past. */
  ghost predicate StopsAfter(g: Graph, b: Block, n: nat) {
    PastAll(g, b, n) && ToTheRight(g, b, n) in g && !GoesPast(g, ToTheRight(g, b, n))
  }

  /** After n blocks the loop comes to a block that it cannot read. */
  ghost predicate FailsAfter(g: Graph, b: Block, n: nat) {
    PastAll(g, b, n) && ToTheRight(g, b, n) !in g
  }

  /** The loop never ends. */
  ghost predicate NeverStops(g: Graph, b: Block) {
    forall n: nat :: GoesPast(g, ToTheRight(g, b, n))
  }

  /** The loop goes past a block, and comes to it again. */
  ghost predicate Ring(g: Graph, b: Block, i: nat, j: nat) {
    i < j && PastAll(g, b, j) && ToTheRight(g, b, i) == ToTheRight(g, b, j)
  }

  lemma {:induction false} RightOfRight(g: Graph, b: Block, m: nat, n: nat)
    ensures ToTheRight(g, ToTheRight(g, b, m), n) == ToTheRight(g, b, m + n)
    decreases m
  {
    if m > 0 && b in g {
      RightOfRight(g, g[b].next, m - 1, n);
    } else if b !in g {
      StaysOut(g, b, n);
      StaysOut(g, b, m + n);
    }
  }

  lemma {:induction false} StaysOut(g: Graph, b: Block, n: nat)
    requires b !in g
    ensures ToTheRight(g, b, n) == b
  {
  }

  /** A loop that stops does not come back to where it began. */
  lemma NoWayBack(g: Graph, b: Block, n: nat, m: nat)
    requires StopsAfter(g, b, n) && 1 <= m <= n
    ensures ToTheRight(g, b, m) != b
  {
    assert GoesPast(g, ToTheRight(g, b, n - m));
    RightOfRight(g, b, m, n - m);
  }

  lemma {:induction false} StopsIsFound(g: Graph, b: Block, n: nat, unseen: set<Block>)
    requires StopsAfter(g, b, n) && forall m :: 0 <= m <= n ==> ToTheRight(g, b, m) in unseen
    ensures RightPage(g, b, unseen) == Some(ToTheRight(g, b, n))
    decreases n
  {
    assert ToTheRight(g, b, 0) == b;
    if n > 0 {
      assert GoesPast(g, b);
      forall m | 0 <= m <= n - 1
        ensures ToTheRight(g, g[b].next, m) == ToTheRight(g, b, m + 1) && ToTheRight(g, b, m + 1) in unseen - {b}
      {
        NoWayBack(g, b, n, m + 1);
      }
      StopsIsFound(g, g[b].next, n - 1, unseen - {b});
    }
  }

  lemma {:induction false} FoundStops(g: Graph, b: Block, unseen: set<Block>) returns (n: nat)
    requires RightPage(g, b, unseen).Some?
    ensures StopsAfter(g, b, n) && RightPage(g, b, unseen) == Some(ToTheRight(g, b, n))
    decreases |unseen|
  {
    n := 0;
    if GoesPast(g, b) {
      n := FoundStops(g, g[b].next, unseen - {b});
      forall m | 0 <= m < n + 1
        ensures GoesPast(g, ToTheRight(g, b, m))
      {
        assert m > 0 ==> ToTheRight(g, b, m) == ToTheRight(g, g[b].next, m - 1);
      }
      n := n + 1;
    }
  }

  lemma {:induction false} RingGoesOn(g: Graph, b: Block, i: nat, j: nat, n: nat)
    requires Ring(g, b, i, j)
    ensures GoesPast(g, ToTheRight(g, b, n))
    decreases n
  {
    if n >= j {
      RightOfRight(g, b, j, n - j);
      RightOfRight(g, b, i, n - j);
      RingGoesOn(g, b, i, j, n - j + i);
    }
  }

  lemma SubsetSize(a: set<Block>, b: set<Block>)
    requires a <= b
    ensures |a| <= |b|
  {
    if a != {} {
      var x :| x in a;
      SubsetSize(a - {x}, b - {x});
    }
  }

  /** Among more blocks than there are in the file two are the same. */
  lemma {:induction false} SomeRepeat(bs: seq<Block>, all: set<Block>) returns (i: nat, j: nat)
    requires (forall k :: 0 <= k < |bs| ==> bs[k] in all) && |all| < |bs|
    ensures i < j < |bs| && bs[i] == bs[j]
  {
    var last := bs[|bs| - 1];
    if k :| 0 <= k < |bs| - 1 && bs[k] == last {
      i, j := k, |bs| - 1;
    } else {
      SubsetSize({last}, all);
      i, j := SomeRepeat(bs[..|bs| - 1], all - {last});
    }
  }

  /** A loop that goes past more blocks than there are is in a ring. */
  lemma RingInBlocks(g: Graph, b: Block, n: nat) returns (i: nat, j: nat)
    requires PastAll(g, b, n) && |g| < n
    ensures Ring(g, b, i, j)
  {
    var bs := seq(n, m requires 0 <= m < n => ToTheRight(g, b, m));
    assert |g.Keys| == |g|;
    i, j := SomeRepeat(bs, g.Keys);
  }

  /** The loop never ends if and only if it goes past a block and comes to it again. */
  lemma NeverStopsIff(g: Graph, b: Block)
    ensures NeverStops(g, b) <==> exists i: nat, j: nat :: Ring(g, b, i, j)
  {
    if NeverStops(g, b) {
      var i, j := RingInBlocks(g, b, |g| + 1);
    }
    if i: nat, j: nat :| Ring(g, b, i, j) {
      forall n: nat
        ensures GoesPast(g, ToTheRight(g, b, n))
      {
        RingGoesOn(g, b, i, j, n);
      }
    }
  }

  /** Unless it never ends, the loop goes past at most as many blocks as there are. */
  lemma PastIsBounded(g: Graph, b: Block, n: nat)
    requires PastAll(g, b, n) && !NeverStops(g, b)
    ensures n <= |g|
  {
    if |g| < n {
      var i, j := RingInBlocks(g, b, n);
      NeverStopsIff(g, b);
    }
  }

  lemma {:induction false} FirstNotPast(g: Graph, b: Block, n: nat) returns (k: nat)
    requires !GoesPast(g, ToTheRight(g, b, n))
    ensures PastAll(g, b, k) && !GoesPast(g, ToTheRight(g, b, k))
  {
    k := n;
    if m :| 0 <= m < n && !GoesPast(g, ToTheRight(g, b, m)) {
      k := FirstNotPast(g, b, m);
    }
  }

  /** The loop has one of three outcomes: it stops on a page, comes to a block that
      cannot be read, or never ends. */
  lemma ThreeOutcomes(g: Graph, b: Block)
    ensures NeverStops(g, b) || exists n: nat :: StopsAfter(g, b, n) || FailsAfter(g, b, n)
    ensures forall m: nat, n: nat :: !(StopsAfter(g, b, m) && FailsAfter(g, b, n))
    ensures NeverStops(g, b) ==> forall n: nat :: !StopsAfter(g, b, n) && !FailsAfter(g, b, n)
  {
    if !NeverStops(g, b) {
      var n: nat :| !GoesPast(g, ToTheRight(g, b, n));
      var k := FirstNotPast(g, b, n);
      assert StopsAfter(g, b, k) || FailsAfter(g, b, k);
    }
    forall m: nat, n: nat
      ensures !(StopsAfter(g, b, m) && FailsAfter(g, b, n))
    {
    }
  }

  /** The search to the right finds a page exactly when the loop stops on one.  It
      finds none exactly when the loop never ends or comes to a block that cannot
      be read, and only one of these can be. */
  lemma RightPageIff(g: Graph, b: Block)
    ensures RightPage(g, b, g.Keys).Some? <==> exists n: nat :: StopsAfter(g, b, n)
    ensures forall n: nat :: StopsAfter(g, b, n) ==> RightPage(g, b, g.Keys) == Some(ToTheRight(g, b, n))
    ensures RightPage(g, b, g.Keys).None? <==> NeverStops(g, b) || exists n: nat :: FailsAfter(g, b, n)
    ensures !(NeverStops(g, b) && exists n: nat :: FailsAfter(g, b, n))
  {
    ThreeOutcomes(g, b);
    if RightPage(g, b, g.Keys).Some? {
      var n := FoundStops(g, b, g.Keys);
    }
    forall n: nat | StopsAfter(g, b, n)
      ensures RightPage(g, b, g.Keys) == Some(ToTheRight(g, b, n))
    {
      StopsIsFound(g, b, n, g.Keys);
    }
  }

  /** The last item against the first real item to the right of the page, if any. */
  predicate RightOk(ix: Index, g: Graph, p: Page, last: Tup) {
    p.next == P_NONE ||
    (var r := RightPage(g, p.next, g.Keys);
     r.Some? && r.value in g &&
     (RealItems(g[r.value]) == [] ||
      InvariantG(ix.cols, Place(ix, RealItems(g[r.value])[0]), Place(ix, last))))
  }

  lemma NextToTheRight(g: Graph, b: Block, n: nat)
    requires PastAll(g, b, n) && GoesPast(g, ToTheRight(g, b, n))
    ensures PastAll(g, b, n + 1)
    ensures ToTheRight(g, b, n + 1) == g[ToTheRight(g, b, n)].next
  {
    RightOfRight(g, b, n, 1);
  }

  /** Follows right links; the result is the scan key for the last item check. */
  method RightPageScanKey(ix: Index, g: Graph, p: Page) returns (ok: bool, key: Option<Sep>)
    requires p.next != P_NONE && !NeverStops(g, p.next)
    ensures ok <==> !exists n: nat :: FailsAfter(g, p.next, n)
    ensures ok <==> RightPage(g, p.next, g.Keys).Some?
    ensures ok ==> var b := RightPage(g, p.next, g.Keys).value;
                   b in g && key == if RealItems(g[b]) == [] then None else Some(Place(ix, RealItems(g[b])[0]))
  {
    var b := p.next;
    ghost var n: nat := 0;
    RightPageIff(g, p.next);
    while true
      invariant b == ToTheRight(g, p.next, n) && PastAll(g, p.next, n)
      decreases |g| - n
    {
      if b !in g {
        assert FailsAfter(g, p.next, n);
        return false, None;
      }
      if !Ignorable(g[b]) || g[b].next == P_NONE {
        assert StopsAfter(g, p.next, n);
        break;
      }
      NextToTheRight(g, p.next, n);
      PastIsBounded(g, p.next, n + 1);
      b, n := g[b].next, n + 1;
    }
    var right := g[b];
    if right.leaf && |right.items| >= FirstData(right) + 1 {
      return true, Some(Place(ix, right.items[FirstData(right)]));
    } else if !right.leaf && |right.items| >= FirstData(right) + 2 {
      return true, Some(Place(ix, right.items[FirstData(right) + 1]));
    } else {
      return true, None;
    }
  }

  // ------------------------------------------------------------ the child page

  /** Every real item of the child is above the key of its downlink. */
  ghost predicate ChildOk(ix: Index, g: Graph, key: Sep, child: Block)
    requires |key.atts| <= |ix.cols|
  {
    && child in g && !g[child].deleted
    && forall i :: FirstReal(g[child]) <= i < |g[child].items| ==>
         InvariantL(ix.cols, key, Place(ix, g[child].items[i]), g[child].leaf)
  }

  method DownLinkCheck(ix: Index, g: Graph, key: Sep, child: Block) returns (ok: bool)
    requires |key.atts| <= |ix.cols|
    ensures ok <==> ChildOk(ix, g, key, child)
  {
    if child !in g || g[child].deleted {
      return false;
    }
    var c := g[child];
    var i := FirstData(c);
    while i < |c.items|
      invariant FirstData(c) <= i
      invariant forall k :: FirstReal(c) <= k < i && k < |c.items| ==>
                  InvariantL(ix.cols, key, Place(ix, c.items[k]), c.leaf)
    {
      if !(!c.leaf && i == FirstData(c)) {
        if !InvariantL(ix.cols, key, Place(ix, c.items[i]), c.leaf) {
          return false;
        }
      }
      i := i + 1;
    }
    return true;
  }

  // ----------------------------------------------------------- the target page

  /** The item is within the high key: below it on an internal page, not above it
      on a leaf. */
  predicate HighKeyOk(ix: Index, p: Page, i: nat)
    requires i < |p.items|
  {
    p.next == P_NONE ||
    (if p.leaf then InvariantLeq(ix.cols, Place(ix, p.items[i]), Place(ix, p.items[0]))
     else InvariantL(ix.cols, Place(ix, p.items[i]), Place(ix, p.items[0]), false))
  }

  /** Everything checked of a real item. */
  ghost predicate ItemOk(ix: Index, g: Graph, p: Page, i: nat)
    requires i < |p.items|
  {
    && HighKeyOk(ix, p, i)
    && (i + 1 < |p.items| ==> InvariantL(ix.cols, Place(ix, p.items[i]), Place(ix, p.items[i + 1]), p.leaf))
    && (i + 1 == |p.items| ==> RightOk(ix, g, p, p.items[i]))
    && (!p.leaf ==> ChildOk(ix, g, Place(ix, p.items[i]), DownLink(p.items[i])))
  }

  ghost predicate PageOk(ix: Index, g: Graph, p: Page) {
    && (p.next != P_NONE ==> p.items != [] && CheckNatts(ix, p, 0))
    && (forall i :: FirstData(p) <= i < |p.items| ==> CheckNatts(ix, p, i))
    && (forall i :: FirstReal(p) <= i < |p.items| ==> ItemOk(ix, g, p, i))
  }

  /** The check of the item comes to the search for the page to the right, and the
      search never ends. */
  ghost predicate ItemHangs(ix: Index, g: Graph, p: Page, i: nat)
    requires i < |p.items|
  {
    i + 1 == |p.items| && p.next != P_NONE && HighKeyOk(ix, p, i) && NeverStops(g, p.next)
  }

  /** The check of the page passes everything before the search for the page to the
      right of its last item, if that is a real one. */
  ghost predicate ComesToSearch(ix: Index, g: Graph, p: Page) {
    && p.next != P_NONE && FirstReal(p) < |p.items| && CheckNatts(ix, p, 0)
    && (forall i :: FirstData(p) <= i < |p.items| ==> CheckNatts(ix, p, i))
    && (forall i :: FirstReal(p) <= i < |p.items| - 1 ==> ItemOk(ix, g, p, i))
    && HighKeyOk(ix, p, |p.items| - 1)
  }

  /** The check of the page comes to that search, which never ends. */
  ghost predicate PageHangs(ix: Index, g: Graph, p: Page) {
    ComesToSearch(ix, g, p) && NeverStops(g, p.next)
  }

  lemma HangsIsNotOk(ix: Index, g: Graph, p: Page)
    requires PageHangs(ix, g, p)
    ensures !PageOk(ix, g, p)
  {
    RightPageIff(g, p.next);
    assert !ItemOk(ix, g, p, |p.items| - 1);
  }

  method ItemCheck(ix: Index, g: Graph, p: Page, i: nat) returns (ok: bool)
    requires i < |p.items| && !ItemHangs(ix, g, p, i)
    ensures ok <==> ItemOk(ix, g, p, i)
  {
    var key := Place(ix, p.items[i]);
    if !HighKeyOk(ix, p, i) {
      return false;
    }
    if i + 1 < |p.items| && !InvariantL(ix.cols, key, Place(ix, p.items[i + 1]), p.leaf) {
      return false;
    } else if i + 1 == |p.items| && p.next != P_NONE {
      var read, right := RightPageScanKey(ix, g, p);
      if !read || (right.Some? && !InvariantG(ix.cols, right.value, key)) {
        return false;
      }
    }
    if !p.leaf {
      ok := DownLinkCheck(ix, g, key, DownLink(p.items[i]));
      return;
    }
    return true;
  }

  method TargetPageCheck(ix: Index, g: Graph, p: Page) returns (ok: bool)
    requires Readable(p) && !Ignorable(p) && !PageHangs(ix, g, p)
    ensures ok <==> PageOk(ix, g, p)
  {
    if p.next != P_NONE && !CheckNatts(ix, p, 0) {
      return false;
    }
    var i := FirstData(p);
    while i < |p.items|
      invariant FirstData(p) <= i
      invariant forall k :: FirstData(p) <= k < i && k < |p.items| ==> CheckNatts(ix, p, k)
      invariant forall k :: FirstReal(p) <= k < i && k < |p.items| ==> ItemOk(ix, g, p, k)
    {
      if !CheckNatts(ix, p, i) {
        return false;
      }
      if !(!p.leaf && i == FirstData(p)) {
        var good := ItemCheck(ix, g, p, i);
        if !good {
          return false;
        }
      }
      i := i + 1;
    }
    return true;
  }

  // ------------------------------------------------------- what acceptance means

  /** Real items are strictly increasing in the order of the key space. */
  ghost predicate Increasing(ix: Index, ts: seq<Tup>) {
    forall i :: 1 <= i < |ts| ==> Before(ix.cols, Place(ix, ts[i - 1]), Place(ix, ts[i]))
  }

  lemma {:induction false} IncreasingAny(ix: Index, ts: seq<Tup>, i: nat, j: nat)
    requires AllLawful(ix.cols) && Increasing(ix, ts) && i < j < |ts|
    ensures Before(ix.cols, Place(ix, ts[i]), Place(ix, ts[j]))
    decreases j
  {
    if i + 1 < j {
      IncreasingAny(ix, ts, i, j - 1);
      OrderIsTotal(ix.cols, Place(ix, ts[i]), Place(ix, ts[j - 1]), Place(ix, ts[j]));
    }
  }

  /** The real items of an accepted page are well formed and strictly increasing. */
  lemma PageIncreasing(ix: Index, g: Graph, p: Page)
    requires |ix.cols| <= ix.natts && PageOk(ix, g, p)
    ensures Increasing(ix, RealItems(p))
    ensures forall i :: 0 <= i < |RealItems(p)| ==> Placed(ix.cols, Place(ix, RealItems(p)[i]))
  {
    var ts := RealItems(p);
    forall i | 0 <= i < |ts|
      ensures Placed(ix.cols, Place(ix, ts[i]))
    {
      assert CheckNatts(ix, p, FirstReal(p) + i);
      NattsPlaced(ix, p, FirstReal(p) + i);
    }
    forall i | 1 <= i < |ts|
      ensures Before(ix.cols, Place(ix, ts[i - 1]), Place(ix, ts[i]))
    {
      assert ItemOk(ix, g, p, FirstReal(p) + i - 1);
      InvariantsDecide(ix.cols, Place(ix, ts[i - 1]), Place(ix, ts[i]), p.leaf);
    }
  }

  /** The high key of an accepted page bounds its real items. */
  lemma HighKeyBounds(ix: Index, g: Graph, p: Page, i: nat)
    requires |ix.cols| <= ix.natts && PageOk(ix, g, p) && p.next != P_NONE && i < |RealItems(p)|
    ensures Order(ix.cols, Place(ix, RealItems(p)[i]), Place(ix, p.items[0])) <= 0
    ensures !p.leaf ==> Before(ix.cols, Place(ix, RealItems(p)[i]), Place(ix, p.items[0]))
  {
    PageIncreasing(ix, g, p);
    NattsPlaced(ix, p, 0);
    assert ItemOk(ix, g, p, FirstReal(p) + i);
    InvariantsDecide(ix.cols, Place(ix, RealItems(p)[i]), Place(ix, p.items[0]), false);
  }

  /** The key of every downlink but the first is strictly below the real items of
      an accepted child. */
  lemma DownLinkBounds(ix: Index, g: Graph, p: Page, i: nat, j: nat)
    requires |ix.cols| <= ix.natts && PageOk(ix, g, p) && !p.leaf && i < |RealItems(p)|
    requires DownLink(RealItems(p)[i]) in g ==>
               var c := g[DownLink(RealItems(p)[i])]; PageOk(ix, g, c) && j < |RealItems(c)|
    ensures DownLink(RealItems(p)[i]) in g
    ensures var c := g[DownLink(RealItems(p)[i])];
            Before(ix.cols, Place(ix, RealItems(p)[i]), Place(ix, RealItems(c)[j]))
  {
    PageIncreasing(ix, g, p);
    assert ItemOk(ix, g, p, FirstReal(p) + i);
    var c := g[DownLink(RealItems(p)[i])];
    PageIncreasing(ix, g, c);
    InvariantsDecide(ix.cols, Place(ix, RealItems(p)[i]), Place(ix, RealItems(c)[j]), c.leaf);
  }
}
