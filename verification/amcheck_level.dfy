/** The walk over the levels of a B-tree (contrib/amcheck/verify_nbtree.c), in
    readonly mode, over a page graph that may be corrupt in any way. */
module AmcheckLevel {
  import opened Wrappers
  import opened AmcheckCompare
  import opened AmcheckPage

  const INVALID_BLOCK: Block := 0xFFFF_FFFF
  const INVALID_LEVEL: nat := 0xFFFF_FFFF

  /** A level to check: its number, its leftmost block, and if it is the root level. */
  datatype Level = Level(level: nat, leftmost: Block, istrueroot: bool)

  /** The variables of the walk: the page before, the page to check, and the next
      level down, once known. */
  datatype Walk = Walk(left: Block, cur: Block, down: Level)

  function Start(lv: Level): Walk {
    Walk(P_NONE, lv.leftmost, Level(INVALID_LEVEL, INVALID_BLOCK, false))
  }

  /** The first valid page gives the next level down. */
  function NextDown(p: Page): Level
    requires Readable(p) && !Ignorable(p)
  {
    if p.leaf then Level(INVALID_LEVEL, P_NONE, false)
    else Level(p.level - 1, DownLink(p.items[FirstData(p)]), false)
  }

  ghost predicate FirstOk(lv: Level, p: Page) {
    p.prev == P_NONE && (lv.istrueroot ==> p.root)
  }

  /** One round of the walk reports no error. */
  ghost predicate RoundOk(ix: Index, g: Graph, lv: Level, w: Walk) {
    && w.cur in g
    && (var p := g[w.cur];
        && w.cur != w.left && w.cur != p.prev
        && (if Ignorable(p) then !p.deleted && p.next != P_NONE
            else
              && (w.down.leftmost == INVALID_BLOCK ==> FirstOk(lv, p))
              && p.prev == w.left && p.level == lv.level && PageOk(ix, g, p)))
  }

  function Round(g: Graph, w: Walk): Walk
    requires w.cur in g && Readable(g[w.cur])
  {
    var p := g[w.cur];
    Walk(w.cur, p.next, if Ignorable(p) || w.down.leftmost != INVALID_BLOCK then w.down else NextDown(p))
  }

  /** The states of a walk that has reported no error so far. */
  ghost predicate Run(ix: Index, g: Graph, lv: Level, ws: seq<Walk>)
    requires ValidGraph(g)
  {
    && ws != [] && ws[0] == Start(lv) && lv.leftmost != P_NONE
    && (forall i :: 0 <= i < |ws| - 1 ==> RoundOk(ix, g, lv, ws[i]))
    && (forall i :: 0 <= i < |ws| - 1 ==> ws[i + 1] == Round(g, ws[i]))
  }

  lemma {:induction false} RunLinks(ix: Index, g: Graph, lv: Level, ws: seq<Walk>, i: nat)
    requires ValidGraph(g) && Run(ix, g, lv, ws) && i < |ws|
    ensures ws[i].left == if i == 0 then P_NONE else ws[i - 1].cur
    ensures i < |ws| - 1 ==> ws[i].cur in g && ws[i].cur != P_NONE
  {
    if i > 0 {
      assert ws[i] == Round(g, ws[i - 1]);
    }
    if i < |ws| - 1 {
      assert RoundOk(ix, g, lv, ws[i]);
    }
  }

  /** No page visited so far is ignorable. */
  ghost predicate AllLive(g: Graph, ws: seq<Walk>) {
    forall i :: 0 <= i < |ws| - 1 ==> ws[i].cur in g && !Ignorable(g[ws[i].cur])
  }

  /** A block visited again after a second way in was visited before that, unless
      it is half-dead: its left link agrees with both ways. */
  lemma SameLeft(ix: Index, g: Graph, lv: Level, ws: seq<Walk>, i: nat, j: nat)
    requires ValidGraph(g) && Run(ix, g, lv, ws) && i < j < |ws| - 1
    requires ws[i].cur == ws[j].cur && !Ignorable(g[ws[i].cur])
    ensures i > 0 && ws[i - 1].cur == ws[j - 1].cur
  {
    assert RoundOk(ix, g, lv, ws[i]) && RoundOk(ix, g, lv, ws[j]);
    RunLinks(ix, g, lv, ws, i);
    RunLinks(ix, g, lv, ws, j);
    RunLinks(ix, g, lv, ws, j - 1);
  }

  /** A walk without half-dead pages never visits a block twice. */
  lemma {:induction false} NoBlockTwice(ix: Index, g: Graph, lv: Level, ws: seq<Walk>, i: nat, j: nat)
    requires ValidGraph(g) && Run(ix, g, lv, ws) && AllLive(g, ws) && i < j < |ws| - 1
    ensures ws[i].cur != ws[j].cur
    decreases i
  {
    if ws[i].cur == ws[j].cur {
      SameLeft(ix, g, lv, ws, i, j);
      NoBlockTwice(ix, g, lv, ws, i - 1, j - 1);
    }
  }

  /** In any walk, the first block to be visited again is half-dead. */
  lemma FirstRepeatIsHalfDead(ix: Index, g: Graph, lv: Level, ws: seq<Walk>, i: nat, j: nat)
    requires ValidGraph(g) && Run(ix, g, lv, ws) && i < j < |ws| - 1 && ws[i].cur == ws[j].cur
    requires forall a, b :: 0 <= a < b < j ==> ws[a].cur != ws[b].cur
    ensures ws[i].cur in g && g[ws[i].cur].halfdead
  {
    assert RoundOk(ix, g, lv, ws[i]);
    if !Ignorable(g[ws[i].cur]) {
      SameLeft(ix, g, lv, ws, i, j);
    }
  }

  // ------------------------------------------------------- walks without an end

  lemma RunGrows(ix: Index, g: Graph, lv: Level, ws: seq<Walk>)
    requires ValidGraph(g) && Run(ix, g, lv, ws) && RoundOk(ix, g, lv, ws[|ws| - 1])
    ensures Run(ix, g, lv, ws + [Round(g, ws[|ws| - 1])])
  {
  }

  /** There is a walk of n rounds without an error. */
  ghost predicate HasRun(ix: Index, g: Graph, lv: Level, n: nat)
    requires ValidGraph(g)
  {
    exists ws: seq<Walk> :: Run(ix, g, lv, ws) && |ws| == n + 1
  }

  /** The walk of the level goes on for ever. */
  ghost predicate Endless(ix: Index, g: Graph, lv: Level)
    requires ValidGraph(g)
  {
    forall n: nat :: HasRun(ix, g, lv, n)
  }

  /** Rounds i and j, both without an error, are on the same block. */
  ghost predicate Returns(ix: Index, g: Graph, lv: Level, ws: seq<Walk>, i: nat, j: nat)
    requires ValidGraph(g)
  {
    Run(ix, g, lv, ws) && i < j < |ws| - 1 && ws[i].cur == ws[j].cur
  }

  /** A walk comes to a half-dead block that it has been on, from a block that is
      not the one it came from before: the half-dead page is the right sibling of
      two different blocks, or of one block and the start of the level. */
  ghost predicate TwoWaysIn(ix: Index, g: Graph, lv: Level, ws: seq<Walk>, i: nat, j: nat)
    requires ValidGraph(g)
  {
    && Run(ix, g, lv, ws) && i < j < |ws|
    && ws[i].cur == ws[j].cur && ws[i].cur in g && g[ws[i].cur].halfdead
    && ws[j - 1].cur != ws[j].cur && (i == 0 || ws[i - 1].cur != ws[j - 1].cur)
  }

  /** A walk that is on a block again was on some half-dead block twice, with two
      different ways in: a live block has one left link. */
  lemma {:induction false} TwoWaysBefore(ix: Index, g: Graph, lv: Level, ws: seq<Walk>, i: nat, j: nat)
    returns (a: nat, b: nat)
    requires ValidGraph(g) && Returns(ix, g, lv, ws, i, j)
    ensures TwoWaysIn(ix, g, lv, ws, a, b)
    decreases i
  {
    if i > 0 && ws[i - 1].cur == ws[j - 1].cur {
      a, b := TwoWaysBefore(ix, g, lv, ws, i - 1, j - 1);
    } else {
      assert RoundOk(ix, g, lv, ws[i]) && RoundOk(ix, g, lv, ws[j]);
      RunLinks(ix, g, lv, ws, j);
      if !Ignorable(g[ws[i].cur]) {
        SameLeft(ix, g, lv, ws, i, j);
      }
      a, b := i, j;
    }
  }

  /** The second round on the half-dead block reports no error either. */
  lemma TwoWaysReturn(ix: Index, g: Graph, lv: Level, ws: seq<Walk>, i: nat, j: nat) returns (vs: seq<Walk>)
    requires ValidGraph(g) && TwoWaysIn(ix, g, lv, ws, i, j)
    ensures Returns(ix, g, lv, vs, i, j)
  {
    assert i + 1 < j;
    assert RoundOk(ix, g, lv, ws[i]);
    RunLinks(ix, g, lv, ws, j);
    vs := ws;
    if j == |ws| - 1 {
      RunGrows(ix, g, lv, ws);
      vs := ws + [Round(g, ws[j])];
    }
  }

  lemma {:induction false} DownStays(ix: Index, g: Graph, lv: Level, ws: seq<Walk>, i: nat, j: nat)
    requires ValidGraph(g) && Run(ix, g, lv, ws) && i <= j < |ws| && ws[i].down.leftmost != INVALID_BLOCK
    ensures ws[j].down == ws[i].down
    decreases j
  {
    if i < j {
      DownStays(ix, g, lv, ws, i, j - 1);
      assert ws[j - 1 + 1] == Round(g, ws[j - 1]);
    }
  }

  /** At the same block, from the same side, and no less is known of the level below. */
  ghost predicate Again(v: Walk, w: Walk) {
    && v.left == w.left && v.cur == w.cur
    && (v.down.leftmost != INVALID_BLOCK ==> w.down.leftmost != INVALID_BLOCK)
  }

  lemma AgainOk(ix: Index, g: Graph, lv: Level, v: Walk, w: Walk)
    requires ValidGraph(g) && RoundOk(ix, g, lv, v) && Again(v, w)
    ensures RoundOk(ix, g, lv, w) && Again(Round(g, v), Round(g, w))
  {
  }

  /** From the second round on, everything happens again. */
  lemma {:induction false} AgainLater(ix: Index, g: Graph, lv: Level, ws: seq<Walk>, i: nat, j: nat, k: nat)
    requires ValidGraph(g) && Returns(ix, g, lv, ws, i, j) && j < k < |ws|
    ensures Again(ws[k - (j - i)], ws[k])
    decreases k
  {
    var d := j - i;
    RunLinks(ix, g, lv, ws, k);
    RunLinks(ix, g, lv, ws, k - d);
    assert RoundOk(ix, g, lv, ws[k - 1 - d]);
    assert ws[k - 1 + 1] == Round(g, ws[k - 1]) && ws[k - 1 - d + 1] == Round(g, ws[k - 1 - d]);
    if k == j + 1 {
      if ws[i + 1].down.leftmost != INVALID_BLOCK {
        DownStays(ix, g, lv, ws, i + 1, k);
      }
    } else {
      AgainLater(ix, g, lv, ws, i, j, k - 1);
      AgainOk(ix, g, lv, ws[k - 1 - d], ws[k - 1]);
    }
  }

  lemma RunPrefix(ix: Index, g: Graph, lv: Level, ws: seq<Walk>, n: nat)
    requires ValidGraph(g) && Run(ix, g, lv, ws) && n < |ws|
    ensures Run(ix, g, lv, ws[..n + 1])
  {
  }

  /** A walk that returns can be prolonged to every length. */
  lemma {:induction false} Prolong(ix: Index, g: Graph, lv: Level, ws: seq<Walk>, i: nat, j: nat, n: nat)
    requires ValidGraph(g) && Returns(ix, g, lv, ws, i, j)
    ensures HasRun(ix, g, lv, n)
    decreases n - |ws|
  {
    if n < |ws| {
      RunPrefix(ix, g, lv, ws, n);
    } else {
      var last := |ws| - 1;
      AgainLater(ix, g, lv, ws, i, j, last);
      assert RoundOk(ix, g, lv, ws[last - (j - i)]);
      AgainOk(ix, g, lv, ws[last - (j - i)], ws[last]);
      RunGrows(ix, g, lv, ws);
      Prolong(ix, g, lv, ws + [Round(g, ws[last])], i, j, n);
    }
  }

  /** Among more rounds than there are blocks two are on the same block. */
  lemma SomeReturn(ix: Index, g: Graph, lv: Level, ws: seq<Walk>) returns (i: nat, j: nat)
    requires ValidGraph(g) && Run(ix, g, lv, ws) && |g| < |ws| - 1
    ensures Returns(ix, g, lv, ws, i, j)
  {
    var bs := seq(|ws| - 1, k requires 0 <= k < |ws| => ws[k].cur);
    forall k | 0 <= k < |bs|
      ensures bs[k] in g.Keys
    {
      RunLinks(ix, g, lv, ws, k);
    }
    assert |g.Keys| == |g|;
    i, j := SomeRepeat(bs, g.Keys);
  }

  /** A walk without half-dead pages has at most as many rounds as there are
      blocks, whatever the links say. */
  lemma WalkIsBounded(ix: Index, g: Graph, lv: Level, ws: seq<Walk>)
    requires ValidGraph(g) && Run(ix, g, lv, ws) && AllLive(g, ws)
    ensures |ws| - 1 <= |g|
  {
    if |g| < |ws| - 1 {
      var i, j := SomeReturn(ix, g, lv, ws);
      NoBlockTwice(ix, g, lv, ws, i, j);
    }
  }

  /** Unless it is endless, a walk has at most as many rounds as there are blocks,
      whatever the links say. */
  lemma EndsInBlocks(ix: Index, g: Graph, lv: Level, ws: seq<Walk>)
    requires ValidGraph(g) && Run(ix, g, lv, ws) && !Endless(ix, g, lv)
    ensures |ws| - 1 <= |g|
  {
    if |g| < |ws| - 1 {
      var i, j := SomeReturn(ix, g, lv, ws);
      forall n: nat
        ensures HasRun(ix, g, lv, n)
      {
        Prolong(ix, g, lv, ws, i, j, n);
      }
    }
  }

  lemma EndlessIfReturns(ix: Index, g: Graph, lv: Level, ws: seq<Walk>, i: nat, j: nat)
    requires ValidGraph(g) && TwoWaysIn(ix, g, lv, ws, i, j)
    ensures Endless(ix, g, lv)
  {
    var vs := TwoWaysReturn(ix, g, lv, ws, i, j);
    forall n: nat
      ensures HasRun(ix, g, lv, n)
    {
      Prolong(ix, g, lv, vs, i, j, n);
    }
  }

  lemma ReturnsIfEndless(ix: Index, g: Graph, lv: Level) returns (ws: seq<Walk>, i: nat, j: nat)
    requires ValidGraph(g) && Endless(ix, g, lv)
    ensures TwoWaysIn(ix, g, lv, ws, i, j)
  {
    assert HasRun(ix, g, lv, |g| + 1);
    ws :| Run(ix, g, lv, ws) && |ws| == |g| + 1 + 1;
    i, j := SomeReturn(ix, g, lv, ws);
    i, j := TwoWaysBefore(ix, g, lv, ws, i, j);
  }

  /** The walk of a level makes rounds for ever if and only if, before any error, it
      comes to a half-dead block in two different ways. */
  lemma EndlessIff(ix: Index, g: Graph, lv: Level)
    requires ValidGraph(g)
    ensures Endless(ix, g, lv) <==> exists ws: seq<Walk>, i: nat, j: nat :: TwoWaysIn(ix, g, lv, ws, i, j)
  {
    if Endless(ix, g, lv) {
      var ws, i, j := ReturnsIfEndless(ix, g, lv);
      assert TwoWaysIn(ix, g, lv, ws, i, j);
    }
    if ws: seq<Walk>, i: nat, j: nat :| TwoWaysIn(ix, g, lv, ws, i, j) {
      EndlessIfReturns(ix, g, lv, ws, i, j);
    }
  }

  // For one, two half-dead pages that point to each other.

  function LoopGraph(): Graph {
    map[1 := Page(true, true, false, false, 0, 0, 2, [Pivot([Some(0)], None, 0)]),
        2 := Page(true, false, true, false, 0, 1, 3, [Pivot([], None, 0)]),
        3 := Page(true, false, true, false, 0, 2, 2, [Pivot([], None, 0)])]
  }

  function OneColumn(): Index {
    Index([Col((x: Datum, y: Datum) => x - y, false, false)], 1)
  }

  function LoopWalk(): seq<Walk> {
    var down := Level(INVALID_LEVEL, P_NONE, false);
    [Start(Level(0, 1, true)), Walk(1, 2, down), Walk(2, 3, down), Walk(3, 2, down)]
  }

  lemma LoopRuns()
    ensures ValidGraph(LoopGraph())
    ensures Run(OneColumn(), LoopGraph(), Level(0, 1, true), LoopWalk())
  {
  }

  /** The circularity test does not see this: there are walks of any length. */
  lemma HalfDeadLoop()
    ensures ValidGraph(LoopGraph()) && AllLawful(OneColumn().cols)
    ensures Endless(OneColumn(), LoopGraph(), Level(0, 1, true))
  {
    LoopRuns();
    EndlessIfReturns(OneColumn(), LoopGraph(), Level(0, 1, true), LoopWalk(), 1, 3);
  }

  // --------------------------------------------------- searches without an end

  /** The round comes to the check of a live page. */
  ghost predicate ComesToPage(g: Graph, lv: Level, w: Walk) {
    && w.cur in g
    && (var p := g[w.cur];
        && !Ignorable(p) && (w.down.leftmost == INVALID_BLOCK ==> FirstOk(lv, p))
        && p.prev == w.left && p.level == lv.level)
  }

  /** The round comes to a page whose check does not return.  The circularity test,
      which is made after that check, plays no part. */
  ghost predicate RoundHangs(ix: Index, g: Graph, lv: Level, w: Walk) {
    ComesToPage(g, lv, w) && PageHangs(ix, g, g[w.cur])
  }

  /** The walk, before any error, comes to a page whose check does not return. */
  ghost predicate Hangs(ix: Index, g: Graph, lv: Level, ws: seq<Walk>)
    requires ValidGraph(g)
  {
    Run(ix, g, lv, ws) && RoundHangs(ix, g, lv, ws[|ws| - 1])
  }

  /** The check of the level never returns: it makes rounds for ever, or is for ever
      in one of them. */
  ghost predicate NeverReturns(ix: Index, g: Graph, lv: Level)
    requires ValidGraph(g)
  {
    Endless(ix, g, lv) || exists ws: seq<Walk> :: Hangs(ix, g, lv, ws)
  }

  /** The walk, before any error, comes to the last item of a page to the right of
      which is a ring of ignorable pages. */
  ghost predicate RingBehind(ix: Index, g: Graph, lv: Level, ws: seq<Walk>, i: nat, j: nat)
    requires ValidGraph(g)
  {
    && Run(ix, g, lv, ws)
    && (var w := ws[|ws| - 1];
        ComesToPage(g, lv, w) && ComesToSearch(ix, g, g[w.cur]) && Ring(g, g[w.cur].next, i, j))
  }

  lemma HangsIff(ix: Index, g: Graph, lv: Level, ws: seq<Walk>)
    requires ValidGraph(g)
    ensures Hangs(ix, g, lv, ws) <==> exists i: nat, j: nat :: RingBehind(ix, g, lv, ws, i, j)
  {
    if Run(ix, g, lv, ws) && ComesToPage(g, lv, ws[|ws| - 1]) {
      var next := g[ws[|ws| - 1].cur].next;
      NeverStopsIff(g, next);
      if Hangs(ix, g, lv, ws) {
        var i: nat, j: nat :| Ring(g, next, i, j);
        assert RingBehind(ix, g, lv, ws, i, j);
      }
    }
  }

  /** The check of a level never returns if and only if, before any error, it comes
      to a half-dead block in two different ways, or to the last item of a page to
      the right of which is a ring of ignorable pages. */
  lemma NeverReturnsIff(ix: Index, g: Graph, lv: Level)
    requires ValidGraph(g)
    ensures NeverReturns(ix, g, lv) <==>
            || (exists ws: seq<Walk>, i: nat, j: nat :: TwoWaysIn(ix, g, lv, ws, i, j))
            || (exists ws: seq<Walk>, i: nat, j: nat :: RingBehind(ix, g, lv, ws, i, j))
  {
    EndlessIff(ix, g, lv);
    if ws: seq<Walk> :| Hangs(ix, g, lv, ws) {
      HangsIff(ix, g, lv, ws);
    }
    if ws: seq<Walk>, i: nat, j: nat :| RingBehind(ix, g, lv, ws, i, j) {
      HangsIff(ix, g, lv, ws);
    }
  }

  lemma HangsIsStuck(ix: Index, g: Graph, lv: Level, w: Walk)
    requires ValidGraph(g) && RoundHangs(ix, g, lv, w)
    ensures !RoundOk(ix, g, lv, w) && w.cur != P_NONE
  {
    HangsIsNotOk(ix, g, g[w.cur]);
  }

  /** A walk that hangs is not endless as well. */
  lemma HangsIsNotEndless(ix: Index, g: Graph, lv: Level, ws: seq<Walk>)
    requires ValidGraph(g) && Hangs(ix, g, lv, ws)
    ensures !Endless(ix, g, lv)
  {
    HangsIsStuck(ix, g, lv, ws[|ws| - 1]);
    if Endless(ix, g, lv) {
      assert HasRun(ix, g, lv, |ws|);
      var vs: seq<Walk> :| Run(ix, g, lv, vs) && |vs| == |ws| + 1;
      assert RoundOk(ix, g, lv, vs[|ws| - 1]);
      RunsAgree(ix, g, lv, ws, vs, |ws| - 1);
    }
  }

  // For one, a page with an item to the left of two half-dead pages that point to
  // each other.

  function RingGraph(): Graph {
    map[1 := Page(true, true, false, false, 0, 0, 2, [Pivot([Some(9)], None, 0), Heap([Some(5)], 1)]),
        2 := Page(true, false, true, false, 0, 1, 3, [Pivot([], None, 0)]),
        3 := Page(true, false, true, false, 0, 2, 2, [Pivot([], None, 0)])]
  }

  lemma RingPage()
    ensures ValidGraph(RingGraph()) && Ring(RingGraph(), 2, 0, 2)
    ensures ComesToSearch(OneColumn(), RingGraph(), RingGraph()[1])
  {
    var ix, g := OneColumn(), RingGraph();
    assert ToTheRight(g, 2, 1) == 3;
    assert ToTheRight(g, 2, 2) == ToTheRight(g, 3, 1) == 2;
    var a, b := Place(ix, g[1].items[1]), Place(ix, g[1].items[0]);
    assert Compare(ix.cols, a, b) == CompareAtt(ix.cols[0], a.atts[0], b.atts[0]);
  }

  /** The check of its first page never returns, so no half-dead block is ever come
      to at all. */
  lemma RingLevel()
    ensures ValidGraph(RingGraph()) && AllLawful(OneColumn().cols)
    ensures var ix, g, lv := OneColumn(), RingGraph(), Level(0, 1, true);
            Hangs(ix, g, lv, [Start(lv)]) && NeverReturns(ix, g, lv) && !Endless(ix, g, lv)
  {
    var ix, g, lv := OneColumn(), RingGraph(), Level(0, 1, true);
    RingPage();
    NeverStopsIff(g, 2);
    assert Hangs(ix, g, lv, [Start(lv)]);
    HangsIsNotEndless(ix, g, lv, [Start(lv)]);
  }

  // ------------------------------------------------------- order across a level

  ghost predicate LiveAt(g: Graph, w: Walk) {
    w.cur in g && !Ignorable(g[w.cur])
  }

  /** The real items of the page, unless it is ignorable. */
  ghost function ItemsAt(g: Graph, w: Walk): seq<Tup> {
    if LiveAt(g, w) then RealItems(g[w.cur]) else []
  }

  /** The real items of the live ones among the first n pages, left to right. */
  ghost function LevelItems(g: Graph, ws: seq<Walk>, n: nat): seq<Tup>
    requires n <= |ws|
  {
    if n == 0 then [] else LevelItems(g, ws, n - 1) + ItemsAt(g, ws[n - 1])
  }

  /** The real items of the last live one among the first n pages. */
  ghost function LastItems(g: Graph, ws: seq<Walk>, n: nat): seq<Tup>
    requires n <= |ws|
  {
    if n == 0 then []
    else if LiveAt(g, ws[n - 1]) then ItemsAt(g, ws[n - 1]) else LastItems(g, ws, n - 1)
  }

  ghost predicate Joins(ix: Index, a: seq<Tup>, b: seq<Tup>) {
    a != [] && b != [] ==> Before(ix.cols, Place(ix, a[|a| - 1]), Place(ix, b[0]))
  }

  lemma IncreasingConcat(ix: Index, a: seq<Tup>, b: seq<Tup>)
    ensures Increasing(ix, a + b) <==> Increasing(ix, a) && Increasing(ix, b) && Joins(ix, a, b)
  {
    var c := a + b;
    if Increasing(ix, c) {
      forall i | 1 <= i < |a|
        ensures Before(ix.cols, Place(ix, a[i - 1]), Place(ix, a[i]))
      {
        assert c[i] == a[i] && c[i - 1] == a[i - 1];
      }
      forall i | 1 <= i < |b|
        ensures Before(ix.cols, Place(ix, b[i - 1]), Place(ix, b[i]))
      {
        assert c[|a| + i] == b[i] && c[|a| + i - 1] == b[i - 1];
      }
      if a != [] && b != [] {
        assert c[|a|] == b[0] && c[|a| - 1] == a[|a| - 1];
      }
    }
  }

  lemma {:induction false} WalkGoesRight(ix: Index, g: Graph, lv: Level, ws: seq<Walk>, k: nat, m: nat)
    requires ValidGraph(g) && Run(ix, g, lv, ws) && k + m < |ws|
    ensures ToTheRight(g, ws[k].cur, m) == ws[k + m].cur
    decreases m
  {
    if m > 0 {
      RunLinks(ix, g, lv, ws, k);
      assert ws[k + 1] == Round(g, ws[k]);
      WalkGoesRight(ix, g, lv, ws, k + 1, m - 1);
    }
  }

  /** Only ignorable pages are between rounds k and n. */
  ghost predicate NextLive(g: Graph, ws: seq<Walk>, k: nat, n: nat) {
    k < n < |ws| && LiveAt(g, ws[k]) && LiveAt(g, ws[n]) && forall m :: k < m < n ==> !LiveAt(g, ws[m])
  }

  /** The search to the right of a live page finds the next live page of the walk. */
  lemma SearchFindsNext(ix: Index, g: Graph, lv: Level, ws: seq<Walk>, k: nat, n: nat)
    requires ValidGraph(g) && Run(ix, g, lv, ws) && NextLive(g, ws, k, n) && n < |ws| - 1
    ensures RightPage(g, g[ws[k].cur].next, g.Keys) == Some(ws[n].cur)
  {
    var b := ws[k + 1].cur;
    assert ws[k + 1] == Round(g, ws[k]);
    forall m | 0 <= m < n - (k + 1)
      ensures GoesPast(g, ToTheRight(g, b, m))
    {
      WalkGoesRight(ix, g, lv, ws, k + 1, m);
      assert RoundOk(ix, g, lv, ws[k + 1 + m]) && !LiveAt(g, ws[k + 1 + m]);
    }
    WalkGoesRight(ix, g, lv, ws, k + 1, n - (k + 1));
    assert StopsAfter(g, b, n - (k + 1));
    RightPageIff(g, b);
  }

  /** A live page is joined to the live page after it. */
  lemma PagesJoin(ix: Index, g: Graph, lv: Level, ws: seq<Walk>, k: nat, n: nat)
    requires ValidGraph(g) && |ix.cols| <= ix.natts && AllLawful(ix.cols)
    requires Run(ix, g, lv, ws) && NextLive(g, ws, k, n) && n < |ws| - 1
    ensures Joins(ix, ItemsAt(g, ws[k]), ItemsAt(g, ws[n]))
  {
    var p, q := g[ws[k].cur], g[ws[n].cur];
    assert RoundOk(ix, g, lv, ws[k]) && RoundOk(ix, g, lv, ws[n]);
    var a, b := RealItems(p), RealItems(q);
    if a != [] && b != [] {
      SearchFindsNext(ix, g, lv, ws, k, n);
      RunLinks(ix, g, lv, ws, k + 1);
      assert p.next == ws[k + 1].cur != P_NONE;
      PageIncreasing(ix, g, p);
      PageIncreasing(ix, g, q);
      var last, first := Place(ix, a[|a| - 1]), Place(ix, b[0]);
      assert ItemOk(ix, g, p, |p.items| - 1);
      assert InvariantG(ix.cols, first, last);
      InvariantsDecide(ix.cols, first, last, false);
      OrderFlips(ix.cols, first, last, 0);
    }
  }

  /** After a live page without real items, the items before and after are in order. */
  ghost predicate GapOk(ix: Index, g: Graph, ws: seq<Walk>, n: nat)
    requires n < |ws|
  {
    LastItems(g, ws, n) == [] ==> Joins(ix, LevelItems(g, ws, n), ItemsAt(g, ws[n]))
  }

  /** Items on the last live page are the last ones so far. */
  lemma {:induction false} LastOfLevel(g: Graph, ws: seq<Walk>, n: nat) returns (k: nat)
    requires n <= |ws| && LastItems(g, ws, n) != []
    ensures k < n && LiveAt(g, ws[k]) && ItemsAt(g, ws[k]) == LastItems(g, ws, n)
    ensures forall m :: k < m < n ==> !LiveAt(g, ws[m])
    ensures var a, b := LevelItems(g, ws, n), ItemsAt(g, ws[k]); a != [] && a[|a| - 1] == b[|b| - 1]
  {
    if LiveAt(g, ws[n - 1]) {
      k := n - 1;
    } else {
      k := LastOfLevel(g, ws, n - 1);
      assert LevelItems(g, ws, n) == LevelItems(g, ws, n - 1);
    }
  }

  lemma StepJoins(ix: Index, g: Graph, lv: Level, ws: seq<Walk>, n: nat)
    requires ValidGraph(g) && |ix.cols| <= ix.natts && AllLawful(ix.cols)
    requires Run(ix, g, lv, ws) && n < |ws| - 1
    ensures Joins(ix, LevelItems(g, ws, n), ItemsAt(g, ws[n])) <==> GapOk(ix, g, ws, n)
  {
    if LastItems(g, ws, n) != [] && LiveAt(g, ws[n]) {
      var k := LastOfLevel(g, ws, n);
      PagesJoin(ix, g, lv, ws, k, n);
    }
  }

  /** One more page keeps the order exactly when there is no gap before it. */
  lemma OrderStep(ix: Index, g: Graph, lv: Level, ws: seq<Walk>, n: nat)
    requires ValidGraph(g) && |ix.cols| <= ix.natts && AllLawful(ix.cols)
    requires Run(ix, g, lv, ws) && n < |ws| - 1
    ensures Increasing(ix, LevelItems(g, ws, n + 1)) <==>
            Increasing(ix, LevelItems(g, ws, n)) && GapOk(ix, g, ws, n)
  {
    PageAt(ix, g, lv, ws, n);
    IncreasingConcat(ix, LevelItems(g, ws, n), ItemsAt(g, ws[n]));
    StepJoins(ix, g, lv, ws, n);
  }

  lemma PageAt(ix: Index, g: Graph, lv: Level, ws: seq<Walk>, n: nat)
    requires ValidGraph(g) && |ix.cols| <= ix.natts && Run(ix, g, lv, ws) && n < |ws| - 1
    ensures Increasing(ix, ItemsAt(g, ws[n]))
  {
    if LiveAt(g, ws[n]) {
      assert RoundOk(ix, g, lv, ws[n]);
      PageIncreasing(ix, g, g[ws[n].cur]);
    }
  }

  /** The items are in order across every live page without real items. */
  ghost predicate GapsOk(ix: Index, g: Graph, ws: seq<Walk>, n: nat)
    requires n <= |ws|
  {
    forall k :: 0 <= k < n ==> GapOk(ix, g, ws, k)
  }

  lemma GapsStep(ix: Index, g: Graph, ws: seq<Walk>, n: nat)
    requires n < |ws|
    ensures GapsOk(ix, g, ws, n + 1) <==> GapsOk(ix, g, ws, n) && GapOk(ix, g, ws, n)
  {
  }

  /** The items of the live pages of a walk without an error are strictly increasing
      exactly when they are so across every live page without real items, which no
      check looks past. */
  lemma {:induction false} LevelOrder(ix: Index, g: Graph, lv: Level, ws: seq<Walk>, n: nat)
    requires ValidGraph(g) && |ix.cols| <= ix.natts && AllLawful(ix.cols)
    requires Run(ix, g, lv, ws) && n <= |ws| - 1
    ensures Increasing(ix, LevelItems(g, ws, n)) <==> GapsOk(ix, g, ws, n)
  {
    if n == 0 {
      assert LevelItems(g, ws, n) == [];
    } else {
      var m: nat := n - 1;
      LevelOrder(ix, g, lv, ws, m);
      OrderStep(ix, g, lv, ws, m);
      GapsStep(ix, g, ws, m);
    }
  }

  /** Nothing is on the last live page only if there is none. */
  lemma {:induction false} NoGap(ix: Index, g: Graph, ws: seq<Walk>, n: nat)
    requires n < |ws| && forall k :: 0 <= k < n && LiveAt(g, ws[k]) ==> ItemsAt(g, ws[k]) != []
    ensures LastItems(g, ws, n) == [] ==> LevelItems(g, ws, n) == []
    ensures GapOk(ix, g, ws, n)
  {
    if n > 0 {
      NoGap(ix, g, ws, n - 1);
    }
  }

  /** If moreover every live page has a real item, all real items of the live pages,
      read from left to right, are strictly increasing. */
  lemma LevelIncreasing(ix: Index, g: Graph, lv: Level, ws: seq<Walk>, i: nat, j: nat)
    requires ValidGraph(g) && |ix.cols| <= ix.natts && AllLawful(ix.cols)
    requires Run(ix, g, lv, ws)
    requires forall k :: 0 <= k < |ws| - 1 && LiveAt(g, ws[k]) ==> ItemsAt(g, ws[k]) != []
    ensures Increasing(ix, LevelItems(g, ws, |ws| - 1))
    ensures var ts := LevelItems(g, ws, |ws| - 1);
            i < j < |ts| ==> Before(ix.cols, Place(ix, ts[i]), Place(ix, ts[j]))
  {
    forall n | 0 <= n < |ws| - 1
      ensures GapOk(ix, g, ws, n)
    {
      NoGap(ix, g, ws, n);
    }
    LevelOrder(ix, g, lv, ws, |ws| - 1);
    var ts := LevelItems(g, ws, |ws| - 1);
    if i < j < |ts| {
      IncreasingAny(ix, ts, i, j);
    }
  }

  // A level on which an empty page hides that the pages around it are transposed.

  function GapGraph(): Graph {
    map[1 := Page(true, true, false, false, 0, 0, 2, [Pivot([Some(9)], None, 0), Heap([Some(5)], 1)]),
        2 := Page(true, false, false, false, 0, 1, 3, [Pivot([Some(9)], None, 0)]),
        3 := Page(true, false, false, false, 0, 2, 0, [Heap([Some(3)], 1)])]
  }

  function GapWalk(): seq<Walk> {
    var down := Level(INVALID_LEVEL, P_NONE, false);
    [Start(Level(0, 1, true)), Walk(1, 2, down), Walk(2, 3, down), Walk(3, 0, down)]
  }

  lemma GapPages()
    ensures forall b :: b in {1, 2, 3} ==> PageOk(OneColumn(), GapGraph(), GapGraph()[b])
  {
    var ix, g := OneColumn(), GapGraph();
    assert RightPage(g, 2, g.Keys) == Some(2);
    assert RealItems(g[2]) == [] && RealItems(g[1]) == [Heap([Some(5)], 1)];
    var a, b := Place(ix, g[1].items[1]), Place(ix, g[1].items[0]);
    assert Compare(ix.cols, a, b) == CompareAtt(ix.cols[0], a.atts[0], b.atts[0]);
    assert ItemOk(ix, g, g[1], 1);
    assert ItemOk(ix, g, g[3], 0);
  }

  /** Amcheck accepts it... */
  lemma GapAccepted()
    ensures ValidGraph(GapGraph()) && Run(OneColumn(), GapGraph(), Level(0, 1, true), GapWalk())
    ensures AllLive(GapGraph(), GapWalk()) && GapWalk()[3].cur == P_NONE
  {
    GapPages();
  }

  /** ... and its items are not in order. */
  lemma GapNotIncreasing()
    ensures !Increasing(OneColumn(), LevelItems(GapGraph(), GapWalk(), 3))
  {
    var ix, g, ws := OneColumn(), GapGraph(), GapWalk();
    var five, three := Heap([Some(5)], 1), Heap([Some(3)], 1);
    assert ItemsAt(g, ws[0]) == [five] && ItemsAt(g, ws[1]) == [] && ItemsAt(g, ws[2]) == [three];
    assert LevelItems(g, ws, 1) == [five] == LevelItems(g, ws, 2);
    var ts := LevelItems(g, ws, 3);
    assert ts == [five, three];
    var a, b := Place(ix, ts[0]), Place(ix, ts[1]);
    assert CompareCol(ix.cols, a, b, 0) == CompareAtt(ix.cols[0], a.atts[0], b.atts[0]);
    assert !Before(ix.cols, Place(ix, ts[1 - 1]), Place(ix, ts[1]));
  }

  // ------------------------------------------------------------------ the loops

  method RoundCheck(ix: Index, g: Graph, lv: Level, w: Walk) returns (ok: bool)
    requires ValidGraph(g) && !RoundHangs(ix, g, lv, w)
    ensures ok <==> RoundOk(ix, g, lv, w)
  {
    if w.cur !in g {
      return false;
    }
    var p := g[w.cur];
    if Ignorable(p) {
      if p.deleted || p.next == P_NONE {
        return false;
      }
    } else {
      if w.down.leftmost == INVALID_BLOCK && (p.prev != P_NONE || (lv.istrueroot && !p.root)) {
        return false;
      }
      if p.prev != w.left || lv.level != p.level {
        return false;
      }
      var good := TargetPageCheck(ix, g, p);
      if !good {
        return false;
      }
    }
    return !(w.cur == w.left || w.cur == p.prev);
  }

  /** A level was walked to its right end. */
  ghost predicate Accepted(ix: Index, g: Graph, lv: Level, down: Level)
    requires ValidGraph(g)
  {
    exists ws: seq<Walk> :: Run(ix, g, lv, ws) && ws[|ws| - 1].cur == P_NONE && ws[|ws| - 1].down == down
  }

  /** The walk of a level is determined. */
  lemma {:induction false} RunsAgree(ix: Index, g: Graph, lv: Level, ws: seq<Walk>, vs: seq<Walk>, i: nat)
    requires ValidGraph(g) && Run(ix, g, lv, ws) && Run(ix, g, lv, vs) && i < |ws| && i < |vs|
    ensures ws[i] == vs[i]
  {
    if i > 0 {
      RunsAgree(ix, g, lv, ws, vs, i - 1);
      assert ws[i - 1 + 1] == Round(g, ws[i - 1]) && vs[i - 1 + 1] == Round(g, vs[i - 1]);
    }
  }

  /** A walk that cannot go on and did not reach the end is not part of one that does. */
  lemma StuckIsRejected(ix: Index, g: Graph, lv: Level, ws: seq<Walk>, vs: seq<Walk>)
    requires ValidGraph(g) && Run(ix, g, lv, ws) && Run(ix, g, lv, vs)
    requires ws[|ws| - 1].cur != P_NONE && !RoundOk(ix, g, lv, ws[|ws| - 1])
    ensures vs[|vs| - 1].cur != P_NONE
  {
    if |vs| > |ws| {
      assert RoundOk(ix, g, lv, vs[|ws| - 1]);
      RunsAgree(ix, g, lv, ws, vs, |ws| - 1);
    } else {
      RunLinks(ix, g, lv, ws, |vs| - 1);
      RunsAgree(ix, g, lv, ws, vs, |vs| - 1);
    }
  }

  /** A walk that reached the end tells the level below. */
  lemma EndIsUnique(ix: Index, g: Graph, lv: Level, ws: seq<Walk>, vs: seq<Walk>)
    requires ValidGraph(g) && Run(ix, g, lv, ws) && Run(ix, g, lv, vs)
    requires ws[|ws| - 1].cur == P_NONE == vs[|vs| - 1].cur
    ensures ws[|ws| - 1] == vs[|vs| - 1]
  {
    if |vs| < |ws| {
      RunLinks(ix, g, lv, ws, |vs| - 1);
      RunsAgree(ix, g, lv, ws, vs, |vs| - 1);
    } else {
      RunLinks(ix, g, lv, vs, |ws| - 1);
      RunsAgree(ix, g, lv, ws, vs, |ws| - 1);
    }
  }

  lemma NeverAccepted(ix: Index, g: Graph, lv: Level, ws: seq<Walk>)
    requires ValidGraph(g) && Run(ix, g, lv, ws)
    requires ws[|ws| - 1].cur != P_NONE && !RoundOk(ix, g, lv, ws[|ws| - 1])
    ensures forall down :: !Accepted(ix, g, lv, down)
  {
    forall vs: seq<Walk> | Run(ix, g, lv, vs)
      ensures vs[|vs| - 1].cur != P_NONE
    {
      StuckIsRejected(ix, g, lv, ws, vs);
    }
  }

  /** If the check of a level never returns, no walk of it reaches the right end. */
  lemma NeverReturnsNotAccepted(ix: Index, g: Graph, lv: Level, down: Level)
    requires ValidGraph(g) && NeverReturns(ix, g, lv)
    ensures !Accepted(ix, g, lv, down)
  {
    if ws: seq<Walk> :| Hangs(ix, g, lv, ws) {
      HangsIsStuck(ix, g, lv, ws[|ws| - 1]);
      NeverAccepted(ix, g, lv, ws);
    } else if vs: seq<Walk> :| Run(ix, g, lv, vs) && vs[|vs| - 1].cur == P_NONE {
      assert HasRun(ix, g, lv, |vs|);
      var ws: seq<Walk> :| Run(ix, g, lv, ws) && |ws| == |vs| + 1;
      RunLinks(ix, g, lv, ws, |vs| - 1);
      RunsAgree(ix, g, lv, ws, vs, |vs| - 1);
    }
  }

  /** The level below is determined by the level. */
  lemma AcceptedUnique(ix: Index, g: Graph, lv: Level, a: Level, b: Level)
    requires ValidGraph(g) && Accepted(ix, g, lv, a) && Accepted(ix, g, lv, b)
    ensures a == b
  {
    var ws: seq<Walk> :| Run(ix, g, lv, ws) && ws[|ws| - 1].cur == P_NONE && ws[|ws| - 1].down == a;
    var vs: seq<Walk> :| Run(ix, g, lv, vs) && vs[|vs| - 1].cur == P_NONE && vs[|vs| - 1].down == b;
    EndIsUnique(ix, g, lv, ws, vs);
  }

  /** A level below that is known is one level lower. */
  ghost predicate OneLower(lv: Level, down: Level) {
    down.leftmost != P_NONE && down.leftmost != INVALID_BLOCK ==> down.level + 1 == lv.level && !down.istrueroot
  }

  /** Checks a level on which the check returns, in at most one round per block: the
      result is the level below that the walk to the right end gives, or none
      exactly when no walk reaches the right end without an error. */
  method CheckLevel(ix: Index, g: Graph, lv: Level) returns (r: Option<Level>, rounds: nat)
    requires ValidGraph(g) && lv.leftmost != P_NONE && !NeverReturns(ix, g, lv)
    ensures rounds <= |g|
    ensures r.Some? ==> Accepted(ix, g, lv, r.value) && OneLower(lv, r.value)
    ensures r.None? ==> forall down :: !Accepted(ix, g, lv, down)
  {
    var w := Start(lv);
    ghost var ws := [w];
    rounds := 0;
    while true
      invariant Run(ix, g, lv, ws) && w == ws[|ws| - 1] && rounds == |ws| - 1
      invariant w.cur != P_NONE && OneLower(lv, w.down)
      decreases |g| - rounds
    {
      EndsInBlocks(ix, g, lv, ws);
      assert !Hangs(ix, g, lv, ws);
      var ok := RoundCheck(ix, g, lv, w);
      if !ok {
        NeverAccepted(ix, g, lv, ws);
        return None, rounds;
      }
      RunGrows(ix, g, lv, ws);
      w := Round(g, w);
      ws := ws + [w];
      rounds := rounds + 1;
      EndsInBlocks(ix, g, lv, ws);
      if w.cur == P_NONE {
        return Some(w.down), rounds;
      }
    }
  }

  /** No walk of the level reaches the end with a level below to go on with. */
  ghost predicate Rejected(ix: Index, g: Graph, lv: Level)
    requires ValidGraph(g)
  {
    forall down :: Accepted(ix, g, lv, down) ==> down.leftmost == INVALID_BLOCK
  }

  lemma RejectedWithout(ix: Index, g: Graph, lv: Level, next: Option<Level>)
    requires ValidGraph(g)
    requires if next.Some? then Accepted(ix, g, lv, next.value) && next.value.leftmost == INVALID_BLOCK
             else forall down :: !Accepted(ix, g, lv, down)
    ensures Rejected(ix, g, lv)
  {
    forall down | Accepted(ix, g, lv, down)
      ensures down.leftmost == INVALID_BLOCK
    {
      AcceptedUnique(ix, g, lv, next.value, down);
    }
  }

  /** Levels that follow one another from the root down. */
  ghost predicate Descent(ix: Index, g: Graph, rootLevel: nat, levels: seq<Level>)
    requires ValidGraph(g)
  {
    && |levels| <= rootLevel + 1
    && (forall k :: 0 <= k < |levels| ==> levels[k].level == rootLevel - k && levels[k].istrueroot == (k == 0))
    && (forall k :: 1 <= k < |levels| ==> Accepted(ix, g, levels[k - 1], levels[k]))
  }

  /** The level to check next. */
  ghost predicate NextLevel(ix: Index, g: Graph, rootLevel: nat, levels: seq<Level>, current: Level)
    requires ValidGraph(g)
  {
    && (levels != [] ==> Accepted(ix, g, levels[|levels| - 1], current))
    && (current.leftmost != P_NONE ==>
          |levels| <= rootLevel && current.level == rootLevel - |levels| && current.istrueroot == (levels == []))
  }

  lemma DescentGrows(ix: Index, g: Graph, rootLevel: nat, levels: seq<Level>, current: Level)
    requires ValidGraph(g) && Descent(ix, g, rootLevel, levels) && NextLevel(ix, g, rootLevel, levels, current)
    requires current.leftmost != P_NONE
    ensures Descent(ix, g, rootLevel, levels + [current])
  {
  }

  /** The check returns on every level that it comes to, from the root down. */
  ghost predicate Terminating(ix: Index, g: Graph, root: Block, rootLevel: nat)
    requires ValidGraph(g)
  {
    forall levels: seq<Level> :: Descent(ix, g, rootLevel, levels) && levels != [] && levels[0].leftmost == root ==>
      levels[|levels| - 1].leftmost == P_NONE || !NeverReturns(ix, g, levels[|levels| - 1])
  }

  /** Checks every level from the root down: each pass is one level lower, so
      there are at most the root level + 1 passes.  On success the last level
      walked is the one without a level below. */
  method CheckEveryLevel(ix: Index, g: Graph, root: Block, rootLevel: nat)
    returns (ok: bool, levels: seq<Level>, last: Level)
    requires ValidGraph(g) && Terminating(ix, g, root, rootLevel)
    ensures Descent(ix, g, rootLevel, levels)
    ensures if levels == [] then root == P_NONE else levels[0].leftmost == root
    ensures ok ==> last.leftmost == P_NONE && NextLevel(ix, g, rootLevel, levels, last)
    ensures !ok ==> levels != [] && Rejected(ix, g, levels[|levels| - 1])
  {
    levels := [];
    var current := Level(rootLevel, root, true);
    while current.leftmost != P_NONE
      invariant Descent(ix, g, rootLevel, levels)
      invariant NextLevel(ix, g, rootLevel, levels, current)
      invariant if levels == [] then current.leftmost == root else levels[0].leftmost == root
      decreases rootLevel + 1 - |levels|
    {
      DescentGrows(ix, g, rootLevel, levels, current);
      levels := levels + [current];
      assert levels[|levels| - 1] == current;
      var next, rounds := CheckLevel(ix, g, current);
      if next.None? || next.value.leftmost == INVALID_BLOCK {
        RejectedWithout(ix, g, current, next);
        return false, levels, current;
      }
      assert Accepted(ix, g, current, next.value);
      current := next.value;
    }
    return true, levels, current;
  }
}
