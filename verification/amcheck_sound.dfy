/** Amcheck raises no false alarm: a page, a level and an index are accepted exactly
    when they are sound (contrib/amcheck/verify_nbtree.c). */
module AmcheckSound {
  import opened Wrappers
  import opened AmcheckCompare
  import opened AmcheckPage
  import opened AmcheckLevel

  // ------------------------------------------------------------------- a page

  /** Every item has the attributes that its place on the page asks for. */
  ghost predicate AttsOk(ix: Index, p: Page) {
    && (p.next != P_NONE ==> p.items != [] && CheckNatts(ix, p, 0))
    && (forall i :: FirstData(p) <= i < |p.items| ==> CheckNatts(ix, p, i))
  }

  ghost function Item(ix: Index, p: Page, i: nat): Sep
    requires i < |RealItems(p)|
  {
    Place(ix, RealItems(p)[i])
  }

  /** The high key bounds the items: on a leaf the last one may equal it. */
  ghost predicate Bounded(ix: Index, p: Page) {
    p.next != P_NONE && p.items != [] ==>
      forall i :: 0 <= i < |RealItems(p)| ==>
        var o := Order(ix.cols, Item(ix, p, i), Place(ix, p.items[0]));
        if p.leaf then o <= 0 else o < 0
  }

  /** Page r begins behind the last item of p. */
  ghost predicate Follows(ix: Index, p: Page, r: Page) {
    RealItems(p) != [] && RealItems(r) != [] ==>
      Before(ix.cols, Item(ix, p, |RealItems(p)| - 1), Item(ix, r, 0))
  }

  /** The search to the right of a page with items ends on a page that follows it. */
  ghost predicate RightSound(ix: Index, g: Graph, p: Page) {
    p.next != P_NONE && RealItems(p) != [] ==>
      exists n: nat :: StopsAfter(g, p.next, n) && Follows(ix, p, g[ToTheRight(g, p.next, n)])
  }

  /** The items of the child are behind item i of its parent. */
  ghost predicate ChildSound(ix: Index, g: Graph, p: Page, i: nat)
    requires i < |RealItems(p)|
  {
    var b := DownLink(RealItems(p)[i]);
    && b in g && !g[b].deleted
    && forall j :: 0 <= j < |RealItems(g[b])| ==> Before(ix.cols, Item(ix, p, i), Item(ix, g[b], j))
  }

  ghost predicate Sound(ix: Index, g: Graph, p: Page) {
    && AttsOk(ix, p) && Increasing(ix, RealItems(p)) && Bounded(ix, p) && RightSound(ix, g, p)
    && (!p.leaf ==> forall i :: 0 <= i < |RealItems(p)| ==> ChildSound(ix, g, p, i))
  }

  /** The pages that the check of a page looks at have the right attributes. */
  ghost predicate NeighboursOk(ix: Index, g: Graph, p: Page) {
    && (forall n: nat :: p.next != P_NONE && StopsAfter(g, p.next, n) ==> AttsOk(ix, g[ToTheRight(g, p.next, n)]))
    && (forall i :: !p.leaf && 0 <= i < |RealItems(p)| && DownLink(RealItems(p)[i]) in g ==>
          AttsOk(ix, g[DownLink(RealItems(p)[i])]))
  }

  ghost predicate Lawfully(ix: Index) {
    |ix.cols| <= ix.natts && AllLawful(ix.cols)
  }

  lemma ItemPlaced(ix: Index, p: Page, i: nat)
    requires Lawfully(ix) && AttsOk(ix, p) && i < |RealItems(p)|
    ensures Placed(ix.cols, Item(ix, p, i)) && (p.leaf ==> Item(ix, p, i).tid.Some?)
    ensures RealItems(p)[i] == p.items[FirstReal(p) + i]
  {
    assert CheckNatts(ix, p, FirstReal(p) + i);
    NattsPlaced(ix, p, FirstReal(p) + i);
  }

  lemma HighKeyIff(ix: Index, p: Page, i: nat)
    requires Lawfully(ix) && AttsOk(ix, p) && p.next != P_NONE && i < |RealItems(p)|
    ensures HighKeyOk(ix, p, FirstReal(p) + i) <==>
            var o := Order(ix.cols, Item(ix, p, i), Place(ix, p.items[0])); if p.leaf then o <= 0 else o < 0
  {
    ItemPlaced(ix, p, i);
    NattsPlaced(ix, p, 0);
    InvariantsDecide(ix.cols, Item(ix, p, i), Place(ix, p.items[0]), false);
  }

  lemma NextItemIff(ix: Index, p: Page, i: nat)
    requires Lawfully(ix) && AttsOk(ix, p) && i + 1 < |RealItems(p)|
    ensures InvariantL(ix.cols, Place(ix, p.items[FirstReal(p) + i]), Place(ix, p.items[FirstReal(p) + i + 1]), p.leaf)
            <==> Before(ix.cols, Item(ix, p, i), Item(ix, p, i + 1))
  {
    ItemPlaced(ix, p, i);
    ItemPlaced(ix, p, i + 1);
    InvariantsDecide(ix.cols, Item(ix, p, i), Item(ix, p, i + 1), p.leaf);
  }

  lemma ChildItemIff(ix: Index, key: Sep, p: Page, j: nat)
    requires Lawfully(ix) && AttsOk(ix, p) && j < |RealItems(p)| && Placed(ix.cols, key)
    ensures InvariantL(ix.cols, key, Place(ix, p.items[FirstReal(p) + j]), p.leaf)
            <==> Before(ix.cols, key, Item(ix, p, j))
  {
    ItemPlaced(ix, p, j);
    InvariantsDecide(ix.cols, key, Item(ix, p, j), p.leaf);
  }

  lemma ChildIff(ix: Index, g: Graph, p: Page, i: nat)
    requires Lawfully(ix) && AttsOk(ix, p) && !p.leaf && i < |RealItems(p)|
    requires DownLink(RealItems(p)[i]) in g ==> AttsOk(ix, g[DownLink(RealItems(p)[i])])
    ensures ChildOk(ix, g, Item(ix, p, i), DownLink(RealItems(p)[i])) <==> ChildSound(ix, g, p, i)
  {
    var b, key := DownLink(RealItems(p)[i]), Item(ix, p, i);
    ItemPlaced(ix, p, i);
    hide AttsOk, InvariantL, Before, Place, Placed;
    if ChildOk(ix, g, key, b) {
      forall j | 0 <= j < |RealItems(g[b])|
        ensures Before(ix.cols, key, Item(ix, g[b], j))
      {
        ChildItemIff(ix, key, g[b], j);
        assert InvariantL(ix.cols, key, Place(ix, g[b].items[FirstReal(g[b]) + j]), g[b].leaf);
      }
    }
    if ChildSound(ix, g, p, i) {
      forall k | FirstReal(g[b]) <= k < |g[b].items|
        ensures InvariantL(ix.cols, key, Place(ix, g[b].items[k]), g[b].leaf)
      {
        ChildItemIff(ix, key, g[b], k - FirstReal(g[b]));
      }
    }
  }

  lemma FollowsIff(ix: Index, p: Page, r: Page)
    requires Lawfully(ix) && AttsOk(ix, p) && AttsOk(ix, r) && RealItems(p) != [] && RealItems(r) != []
    ensures InvariantG(ix.cols, Item(ix, r, 0), Item(ix, p, |RealItems(p)| - 1)) <==> Follows(ix, p, r)
  {
    var last, first := Item(ix, p, |RealItems(p)| - 1), Item(ix, r, 0);
    ItemPlaced(ix, p, |RealItems(p)| - 1);
    ItemPlaced(ix, r, 0);
    InvariantsDecide(ix.cols, first, last, false);
    OrderFlips(ix.cols, first, last, 0);
  }

  lemma RightIff(ix: Index, g: Graph, p: Page)
    requires Lawfully(ix) && AttsOk(ix, p) && NeighboursOk(ix, g, p) && RealItems(p) != []
    ensures RightOk(ix, g, p, RealItems(p)[|RealItems(p)| - 1]) <==> RightSound(ix, g, p)
  {
    if p.next != P_NONE {
      RightPageIff(g, p.next);
      if n: nat :| StopsAfter(g, p.next, n) {
        var r := g[ToTheRight(g, p.next, n)];
        if RealItems(r) != [] {
          FollowsIff(ix, p, r);
        }
        forall m: nat | StopsAfter(g, p.next, m)
          ensures ToTheRight(g, p.next, m) == ToTheRight(g, p.next, n)
        {
        }
      }
    }
  }

  /** Everything about item i. */
  ghost predicate ItemSound(ix: Index, g: Graph, p: Page, i: nat)
    requires i < |RealItems(p)| && AttsOk(ix, p)
  {
    && (p.next != P_NONE ==>
          var o := Order(ix.cols, Item(ix, p, i), Place(ix, p.items[0])); if p.leaf then o <= 0 else o < 0)
    && (i + 1 < |RealItems(p)| ==> Before(ix.cols, Item(ix, p, i), Item(ix, p, i + 1)))
    && (i + 1 == |RealItems(p)| ==> RightSound(ix, g, p))
    && (!p.leaf ==> ChildSound(ix, g, p, i))
  }

  lemma ItemIff(ix: Index, g: Graph, p: Page, i: nat)
    requires Lawfully(ix) && AttsOk(ix, p) && NeighboursOk(ix, g, p) && i < |RealItems(p)|
    ensures ItemOk(ix, g, p, FirstReal(p) + i) <==> ItemSound(ix, g, p, i)
  {
    ItemPlaced(ix, p, i);
    if p.next != P_NONE {
      HighKeyIff(ix, p, i);
    }
    if i + 1 < |RealItems(p)| {
      NextItemIff(ix, p, i);
    } else {
      RightIff(ix, g, p);
    }
    if !p.leaf {
      ChildIff(ix, g, p, i);
    }
  }

  lemma SoundIsOk(ix: Index, g: Graph, p: Page)
    requires Lawfully(ix) && NeighboursOk(ix, g, p) && Sound(ix, g, p)
    ensures PageOk(ix, g, p)
  {
    forall k | FirstReal(p) <= k < |p.items|
      ensures ItemOk(ix, g, p, k)
    {
      var i := k - FirstReal(p);
      if i + 1 < |RealItems(p)| {
        assert Before(ix.cols, Place(ix, RealItems(p)[i + 1 - 1]), Place(ix, RealItems(p)[i + 1]));
      }
      ItemIff(ix, g, p, i);
    }
  }

  lemma OkIsSound(ix: Index, g: Graph, p: Page)
    requires Lawfully(ix) && NeighboursOk(ix, g, p) && PageOk(ix, g, p)
    ensures Sound(ix, g, p)
  {
    forall i | 0 <= i < |RealItems(p)|
      ensures ItemSound(ix, g, p, i)
    {
      assert ItemOk(ix, g, p, FirstReal(p) + i);
      ItemIff(ix, g, p, i);
    }
    AllItemsSound(ix, g, p);
  }

  lemma AllItemsSound(ix: Index, g: Graph, p: Page)
    requires AttsOk(ix, p) && forall i :: 0 <= i < |RealItems(p)| ==> ItemSound(ix, g, p, i)
    ensures Sound(ix, g, p)
  {
    forall i | 1 <= i < |RealItems(p)|
      ensures Before(ix.cols, Place(ix, RealItems(p)[i - 1]), Place(ix, RealItems(p)[i]))
    {
      assert ItemSound(ix, g, p, i - 1);
    }
    if RealItems(p) != [] {
      assert ItemSound(ix, g, p, |RealItems(p)| - 1);
    }
    forall i | 0 <= i < |RealItems(p)| && !p.leaf
      ensures ChildSound(ix, g, p, i)
    {
      assert ItemSound(ix, g, p, i);
    }
    if p.next != P_NONE {
      forall i | 0 <= i < |RealItems(p)|
        ensures var o := Order(ix.cols, Item(ix, p, i), Place(ix, p.items[0])); if p.leaf then o <= 0 else o < 0
      {
        assert ItemSound(ix, g, p, i);
      }
    }
  }

  /** The check accepts a page exactly when it is sound: right attributes, items in
      strictly increasing order and within the high key, the next page behind the
      last item, and every child behind its downlink. */
  lemma PageSoundIff(ix: Index, g: Graph, p: Page)
    requires Lawfully(ix) && NeighboursOk(ix, g, p)
    ensures PageOk(ix, g, p) <==> Sound(ix, g, p)
  {
    if Sound(ix, g, p) {
      SoundIsOk(ix, g, p);
    }
    if PageOk(ix, g, p) {
      OkIsSound(ix, g, p);
    }
  }

  // The page of an index with many equal keys: the high key is its last item.

  function EqualKeys(): Graph {
    map[1 := Page(true, true, false, false, 0, 0, 2, [Pivot([Some(5)], Some(7), 0), Heap([Some(5)], 7)]),
        2 := Page(true, false, false, false, 0, 1, 0, [Heap([Some(5)], 8)])]
  }

  lemma EqualKeysAccepted()
    ensures PageOk(OneColumn(), EqualKeys(), EqualKeys()[1])
  {
    var ix, g := OneColumn(), EqualKeys();
    var p, r := g[1], g[2];
    assert StopsAfter(g, 2, 0);
    RightPageIff(g, 2);
    var five, high, next := Place(ix, p.items[1]), Place(ix, p.items[0]), Place(ix, r.items[0]);
    assert CompareFrom(ix.cols, five, high, 0) == CompareFrom(ix.cols, five, high, 1) == 0;
    assert CompareFrom(ix.cols, next, five, 0) == CompareFrom(ix.cols, next, five, 1) == 1;
    assert RealItems(r) == [r.items[0]] && RealItems(p) == [p.items[1]];
    assert ItemOk(ix, g, p, 1);
  }

  // ------------------------------------------------------------------- a level

  /** Block i of a level whose pages link up: a live page of that level is sound and
      its left link leads back; a half-dead page only leads on. */
  ghost predicate LevelPage(ix: Index, g: Graph, lv: Level, bs: seq<Block>, i: nat)
    requires i < |bs|
  {
    && bs[i] in g
    && (var p := g[bs[i]];
        && p.next == (if i + 1 < |bs| then bs[i + 1] else P_NONE)
        && if Ignorable(p) then
             p.halfdead && !p.deleted && 0 < i < |bs| - 1 && bs[i] != p.prev && bs[i] != bs[i - 1]
           else
             p.prev == (if i == 0 then P_NONE else bs[i - 1]) && p.level == lv.level && Sound(ix, g, p))
  }

  /** The pages of a level from left to right. */
  ghost predicate SoundLevel(ix: Index, g: Graph, lv: Level, bs: seq<Block>) {
    && bs != [] && bs[0] == lv.leftmost
    && (forall i :: 0 <= i < |bs| ==> LevelPage(ix, g, lv, bs, i))
    && (lv.istrueroot ==> bs[0] in g && g[bs[0]].root)
  }

  ghost predicate AroundOk(ix: Index, g: Graph) {
    forall b :: b in g ==> NeighboursOk(ix, g, g[b])
  }

  /** A live page is not its own neighbour. */
  lemma {:induction false} NotTwice(ix: Index, g: Graph, lv: Level, bs: seq<Block>, i: nat)
    requires ValidGraph(g) && SoundLevel(ix, g, lv, bs) && 0 < i < |bs|
    ensures bs[i] != bs[i - 1]
  {
    assert LevelPage(ix, g, lv, bs, i) && LevelPage(ix, g, lv, bs, i - 1);
    if i > 1 {
      NotTwice(ix, g, lv, bs, i - 1);
    }
  }

  ghost function FirstDown(g: Graph, bs: seq<Block>): Level
    requires ValidGraph(g) && bs != [] && bs[0] in g && !Ignorable(g[bs[0]])
  {
    NextDown(g[bs[0]])
  }

  /** The state of the walk before block i. */
  ghost function WalkTo(g: Graph, lv: Level, bs: seq<Block>, i: nat): Walk
    requires ValidGraph(g) && bs != [] && bs[0] in g && !Ignorable(g[bs[0]]) && i <= |bs|
  {
    if i == 0 then Start(lv)
    else Walk(bs[i - 1], if i < |bs| then bs[i] else P_NONE, FirstDown(g, bs))
  }

  lemma FirstIsLive(ix: Index, g: Graph, lv: Level, bs: seq<Block>)
    requires ValidGraph(g) && SoundLevel(ix, g, lv, bs)
    ensures bs[0] in g && !Ignorable(g[bs[0]]) && bs[0] != P_NONE
  {
    assert LevelPage(ix, g, lv, bs, 0);
  }

  lemma RoundIsOk(ix: Index, g: Graph, lv: Level, bs: seq<Block>, i: nat)
    requires ValidGraph(g) && Lawfully(ix) && AroundOk(ix, g) && SoundLevel(ix, g, lv, bs) && i < |bs|
    requires bs[0] in g && !Ignorable(g[bs[0]]) && FirstDown(g, bs).leftmost != INVALID_BLOCK
    ensures RoundOk(ix, g, lv, WalkTo(g, lv, bs, i)) && Round(g, WalkTo(g, lv, bs, i)) == WalkTo(g, lv, bs, i + 1)
  {
    assert LevelPage(ix, g, lv, bs, i) && LevelPage(ix, g, lv, bs, 0);
    if i > 0 {
      NotTwice(ix, g, lv, bs, i);
    }
    if i + 1 < |bs| {
      assert LevelPage(ix, g, lv, bs, i + 1);
    }
    PageSoundIff(ix, g, g[bs[i]]);
  }

  /** The check accepts every sound level, with half-dead pages or without, and goes
      on with the level below its first page. */
  lemma SoundLevelAccepted(ix: Index, g: Graph, lv: Level, bs: seq<Block>)
    requires ValidGraph(g) && Lawfully(ix) && AroundOk(ix, g) && SoundLevel(ix, g, lv, bs)
    requires bs[0] in g && !Ignorable(g[bs[0]]) && FirstDown(g, bs).leftmost != INVALID_BLOCK
    ensures Accepted(ix, g, lv, FirstDown(g, bs)) && !NeverReturns(ix, g, lv)
  {
    FirstIsLive(ix, g, lv, bs);
    var ws := seq(|bs| + 1, i requires 0 <= i <= |bs| => WalkTo(g, lv, bs, i));
    forall i | 0 <= i < |ws| - 1
      ensures RoundOk(ix, g, lv, ws[i]) && ws[i + 1] == Round(g, ws[i])
    {
      RoundIsOk(ix, g, lv, bs, i);
    }
    assert Run(ix, g, lv, ws);
    assert ws[|ws| - 1] == WalkTo(g, lv, bs, |bs|);
    if NeverReturns(ix, g, lv) {
      NeverReturnsNotAccepted(ix, g, lv, FirstDown(g, bs));
    }
  }

  /** A walk that starts on a half-dead page comes to no live page. */
  lemma {:induction false} AllDead(ix: Index, g: Graph, lv: Level, ws: seq<Walk>, i: nat)
    requires ValidGraph(g) && Run(ix, g, lv, ws) && i < |ws| - 1 && ws[0].cur in g && Ignorable(g[ws[0].cur])
    ensures ws[i].cur in g && Ignorable(g[ws[i].cur]) && ws[i].down.leftmost == INVALID_BLOCK
  {
    assert RoundOk(ix, g, lv, ws[i]);
    if i > 0 {
      AllDead(ix, g, lv, ws, i - 1);
      RunLinks(ix, g, lv, ws, i);
      RunLinks(ix, g, lv, ws, i - 1);
      assert ws[i - 1 + 1] == Round(g, ws[i - 1]);
    }
  }

  lemma StartsLive(ix: Index, g: Graph, lv: Level, ws: seq<Walk>)
    requires ValidGraph(g) && Run(ix, g, lv, ws) && ws[|ws| - 1].cur == P_NONE
    ensures |ws| >= 2 && ws[0].cur in g && !Ignorable(g[ws[0].cur])
  {
    assert RoundOk(ix, g, lv, ws[0]);
    if Ignorable(g[ws[0].cur]) {
      var i := |ws| - 2;
      assert RoundOk(ix, g, lv, ws[i]) && ws[i + 1] == Round(g, ws[i]);
      AllDead(ix, g, lv, ws, i);
    }
  }

  lemma VisitedPage(ix: Index, g: Graph, lv: Level, ws: seq<Walk>, bs: seq<Block>, i: nat)
    requires ValidGraph(g) && Lawfully(ix) && AroundOk(ix, g) && Run(ix, g, lv, ws) && ws[|ws| - 1].cur == P_NONE
    requires |bs| == |ws| - 1 && forall k :: 0 <= k < |bs| ==> bs[k] == ws[k].cur
    requires i < |bs|
    ensures LevelPage(ix, g, lv, bs, i)
  {
    StartsLive(ix, g, lv, ws);
    RunLinks(ix, g, lv, ws, i);
    assert RoundOk(ix, g, lv, ws[i]) && ws[i + 1] == Round(g, ws[i]);
    PageSoundIff(ix, g, g[bs[i]]);
  }

  /** A level is accepted exactly when it is sound, and then the check goes on with
      the level below its first page. */
  lemma LevelSoundIff(ix: Index, g: Graph, lv: Level, down: Level)
    requires ValidGraph(g) && Lawfully(ix) && AroundOk(ix, g) && lv.leftmost in g
    requires !Ignorable(g[lv.leftmost]) ==> NextDown(g[lv.leftmost]).leftmost != INVALID_BLOCK
    ensures Accepted(ix, g, lv, down) <==>
            !Ignorable(g[lv.leftmost]) && down == NextDown(g[lv.leftmost]) && exists bs :: SoundLevel(ix, g, lv, bs)
  {
    if Accepted(ix, g, lv, down) {
      var ws: seq<Walk> :| Run(ix, g, lv, ws) && ws[|ws| - 1].cur == P_NONE && ws[|ws| - 1].down == down;
      StartsLive(ix, g, lv, ws);
      var bs := seq(|ws| - 1, k requires 0 <= k < |ws| => ws[k].cur);
      forall i | 0 <= i < |bs|
        ensures LevelPage(ix, g, lv, bs, i)
      {
        VisitedPage(ix, g, lv, ws, bs, i);
      }
      assert RoundOk(ix, g, lv, ws[0]);
      assert SoundLevel(ix, g, lv, bs);
      SoundLevelAccepted(ix, g, lv, bs);
      AcceptedUnique(ix, g, lv, down, FirstDown(g, bs));
    }
    if bs :| SoundLevel(ix, g, lv, bs) {
      FirstIsLive(ix, g, lv, bs);
      SoundLevelAccepted(ix, g, lv, bs);
    }
  }

  // ------------------------------------------------------------------ an index

  /** The levels of an index from the root down, each sound, the last a leaf level. */
  ghost predicate SoundIndex(ix: Index, g: Graph, root: Block, rootLevel: nat, pages: seq<seq<Block>>) {
    && |pages| == rootLevel + 1
    && (forall k :: 0 <= k < |pages| ==> pages[k] != [] && SoundLevel(ix, g, LevelAt(pages, rootLevel, k), pages[k]))
    && (forall k :: 0 <= k < |pages| ==> pages[k][0] != INVALID_BLOCK)
    && pages[0][0] == root
    && (forall k :: 0 <= k < rootLevel ==> DownTo(g, pages[k][0], pages[k + 1][0]))
  }

  ghost function LevelAt(pages: seq<seq<Block>>, rootLevel: nat, k: nat): Level
    requires k < |pages| == rootLevel + 1 && pages[k] != []
  {
    Level(rootLevel - k, pages[k][0], k == 0)
  }

  /** The first downlink of block b leads to block d. */
  ghost predicate DownTo(g: Graph, b: Block, d: Block) {
    b in g && !g[b].leaf && FirstData(g[b]) < |g[b].items| && DownLink(g[b].items[FirstData(g[b])]) == d
  }

  lemma LevelLeadsDown(ix: Index, g: Graph, root: Block, rootLevel: nat, pages: seq<seq<Block>>, k: nat)
    requires ValidGraph(g) && Lawfully(ix) && AroundOk(ix, g) && SoundIndex(ix, g, root, rootLevel, pages)
    requires k <= rootLevel
    ensures !NeverReturns(ix, g, LevelAt(pages, rootLevel, k))
    ensures k < rootLevel ==> Accepted(ix, g, LevelAt(pages, rootLevel, k), LevelAt(pages, rootLevel, k + 1))
    ensures k == rootLevel ==> Accepted(ix, g, LevelAt(pages, rootLevel, k), Level(INVALID_LEVEL, P_NONE, false))
  {
    var lv, bs := LevelAt(pages, rootLevel, k), pages[k];
    FirstIsLive(ix, g, lv, bs);
    assert LevelPage(ix, g, lv, bs, 0);
    if k < rootLevel {
      assert DownTo(g, pages[k][0], pages[k + 1][0]);
      assert SoundLevel(ix, g, LevelAt(pages, rootLevel, k + 1), pages[k + 1]);
    }
    SoundLevelAccepted(ix, g, lv, bs);
  }

  /** Every descent follows the levels of the index. */
  lemma {:induction false} DescentIs(ix: Index, g: Graph, root: Block, rootLevel: nat, pages: seq<seq<Block>>,
                                     levels: seq<Level>, k: nat)
    requires ValidGraph(g) && Lawfully(ix) && AroundOk(ix, g) && SoundIndex(ix, g, root, rootLevel, pages)
    requires Descent(ix, g, rootLevel, levels) && k < |levels| && levels[0].leftmost == root
    ensures k <= rootLevel && levels[k] == LevelAt(pages, rootLevel, k)
  {
    if k > 0 {
      DescentIs(ix, g, root, rootLevel, pages, levels, k - 1);
      LevelLeadsDown(ix, g, root, rootLevel, pages, k - 1);
      AcceptedUnique(ix, g, levels[k - 1], levels[k], LevelAt(pages, rootLevel, k));
    }
  }

  lemma SoundTerminates(ix: Index, g: Graph, root: Block, rootLevel: nat, pages: seq<seq<Block>>)
    requires ValidGraph(g) && Lawfully(ix) && AroundOk(ix, g) && SoundIndex(ix, g, root, rootLevel, pages)
    ensures Terminating(ix, g, root, rootLevel)
  {
    forall levels: seq<Level> | Descent(ix, g, rootLevel, levels) && levels != [] && levels[0].leftmost == root
      ensures !NeverReturns(ix, g, levels[|levels| - 1])
    {
      DescentIs(ix, g, root, rootLevel, pages, levels, |levels| - 1);
      LevelLeadsDown(ix, g, root, rootLevel, pages, |levels| - 1);
    }
  }

  /** Amcheck accepts every sound index. */
  method CheckSoundIndex(ix: Index, g: Graph, root: Block, rootLevel: nat, ghost pages: seq<seq<Block>>)
    returns (ok: bool, levels: seq<Level>)
    requires ValidGraph(g) && Lawfully(ix) && AroundOk(ix, g) && SoundIndex(ix, g, root, rootLevel, pages)
    ensures ok && |levels| == rootLevel + 1
    ensures forall k :: 0 <= k < |levels| ==> levels[k] == LevelAt(pages, rootLevel, k)
  {
    SoundTerminates(ix, g, root, rootLevel, pages);
    var last;
    ok, levels, last := CheckEveryLevel(ix, g, root, rootLevel);
    FirstIsLive(ix, g, LevelAt(pages, rootLevel, 0), pages[0]);
    SoundResult(ix, g, root, rootLevel, pages, ok, levels, last);
  }

  lemma SoundResult(ix: Index, g: Graph, root: Block, rootLevel: nat, pages: seq<seq<Block>>,
                    ok: bool, levels: seq<Level>, last: Level)
    requires ValidGraph(g) && Lawfully(ix) && AroundOk(ix, g) && SoundIndex(ix, g, root, rootLevel, pages)
    requires Descent(ix, g, rootLevel, levels) && (levels != [] ==> levels[0].leftmost == root)
    requires if ok then last.leftmost == P_NONE && NextLevel(ix, g, rootLevel, levels, last)
             else levels != [] && Rejected(ix, g, levels[|levels| - 1])
    requires levels != []
    ensures ok && |levels| == rootLevel + 1
    ensures forall k :: 0 <= k < |levels| ==> levels[k] == LevelAt(pages, rootLevel, k)
  {
    forall k | 0 <= k < |levels|
      ensures k <= rootLevel && levels[k] == LevelAt(pages, rootLevel, k)
    {
      DescentIs(ix, g, root, rootLevel, pages, levels, k);
    }
    var k := |levels| - 1;
    if k < rootLevel {
      var next := LevelAt(pages, rootLevel, k + 1);
      assert SoundLevel(ix, g, next, pages[k + 1]);
      FirstIsLive(ix, g, next, pages[k + 1]);
      if ok {
        LevelLeadsDown(ix, g, root, rootLevel, pages, k);
        AcceptedUnique(ix, g, levels[k], last, next);
      }
    }
    LevelLeadsDown(ix, g, root, rootLevel, pages, k);
  }
}
