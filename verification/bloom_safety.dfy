/** Safety of the bloom index protocol over whole runs: no interleaving loses
    or duplicates an entry, a finished vacuum leaves no dead pointer, and a
    scan misses nothing that stayed in the index while it ran. */
module BloomSafety {
  import opened Wrappers
  import opened BloomSign
  import opened BloomPages
  import opened BloomProtocol

  // ------------------------------------------------------------ bags of tuples

  lemma BagCancel<T>(a: multiset<T>, b: multiset<T>, x: multiset<T>)
    requires a + x == b + x
    ensures a == b
  {
    forall t
      ensures a[t] == b[t]
    {
      assert (a + x)[t] == a[t] + x[t] && (b + x)[t] == b[t] + x[t];
    }
  }

  lemma BagAssoc<T>(a: multiset<T>, x: multiset<T>, y: multiset<T>)
    ensures a + (x + y) == (a + x) + y
  {
  }

  lemma BagSwap<T>(a: multiset<T>, x: multiset<T>, y: multiset<T>)
    ensures (a + x) + y == (a + y) + x
  {
  }

  lemma {:induction false} LiveUpdate(blocks: seq<Page>, b: nat, page: Page)
    requires b < |blocks|
    ensures Live(blocks[b := page]) + multiset(Tuples(blocks[b])) == Live(blocks) + multiset(Tuples(page))
  {
    var n := |blocks| - 1;
    var blocks' := blocks[b := page];
    if b < n {
      LiveUpdate(blocks[..n], b, page);
      assert blocks'[..n] == blocks[..n][b := page];
      assert blocks[..n][b] == blocks[b];
      var last, was, now := multiset(Tuples(blocks[n])), multiset(Tuples(blocks[b])), multiset(Tuples(page));
      assert Live(blocks') == Live(blocks[..n][b := page]) + last;
      BagSwap(Live(blocks[..n][b := page]), last, was);
      BagSwap(Live(blocks[..n]), now, last);
    } else {
      assert blocks'[..n] == blocks[..n];
      assert Live(blocks') == Live(blocks[..n]) + multiset(Tuples(page));
      BagSwap(Live(blocks[..n]), multiset(Tuples(page)), multiset(Tuples(blocks[b])));
    }
  }

  lemma LiveAppend(blocks: seq<Page>, page: Page)
    ensures Live(blocks + [page]) == Live(blocks) + multiset(Tuples(page))
  {
    assert (blocks + [page])[..|blocks|] == blocks;
  }

  ghost predicate SomePageHas(blocks: seq<Page>, t: BloomTuple) {
    exists b :: 0 <= b < |blocks| && t in Tuples(blocks[b])
  }

  lemma SomePageStep(blocks: seq<Page>, t: BloomTuple)
    requires blocks != []
    ensures var n := |blocks| - 1;
            SomePageHas(blocks, t) <==> SomePageHas(blocks[..n], t) || t in Tuples(blocks[n])
  {
    var n := |blocks| - 1;
    if SomePageHas(blocks[..n], t) {
      var b :| 0 <= b < n && t in Tuples(blocks[..n][b]);
      assert blocks[..n][b] == blocks[b];
    }
    if SomePageHas(blocks, t) {
      var b :| 0 <= b < |blocks| && t in Tuples(blocks[b]);
      assert b < n ==> blocks[..n][b] == blocks[b];
    }
  }

  lemma {:induction false} LiveMember(blocks: seq<Page>, t: BloomTuple)
    ensures t in Live(blocks) <==> SomePageHas(blocks, t)
  {
    if blocks != [] {
      var n := |blocks| - 1;
      LiveMember(blocks[..n], t);
      SomePageStep(blocks, t);
      assert t in Live(blocks) <==> t in Live(blocks[..n]) || t in multiset(Tuples(blocks[n]));
    }
  }

  // ------------------------------------------------------- growing the blocks

  /** The file did not shrink, data pages stayed data pages, no page lost a
      tuple, and every tuple that appeared is one of `extra`. */
  ghost predicate GrowsBy(old_: seq<Page>, new_: seq<Page>, extra: set<BloomTuple>) {
    && |old_| <= |new_|
    && (forall b :: 0 <= b < |old_| && old_[b].Data? ==> new_[b].Data?)
    && (forall b, t :: 0 <= b < |old_| && t in Tuples(old_[b]) ==> t in Tuples(new_[b]))
    && (forall b, t :: 0 <= b < |new_| && t in Tuples(new_[b]) ==>
          t in extra || (b < |old_| && t in Tuples(old_[b])))
  }

  lemma ProcStable(c: Config, s: State, s': State, r: Proc, extra: set<BloomTuple>)
    requires ProcOk(c, s, r) && GrowsBy(s.blocks, s'.blocks, extra) && s.inserted <= s'.inserted
    requires r.Loop? ==> s'.meta == s.meta
    requires r.Extended? ==> r.blk < |s'.blocks| && s'.blocks[r.blk].New?
    ensures ProcOk(c, s', r)
  {
    if r.Scan? {
      forall t | t in r.must && Owed(s.blocks, r.blk, r.npages, t)
        ensures Owed(s'.blocks, r.blk, r.npages, t)
      {
        var b :| r.blk <= b < r.npages && b < |s.blocks| && t in Tuples(s.blocks[b]);
        assert t in Tuples(s'.blocks[b]);
      }
    }
  }

  lemma FilledLive(blocks: seq<Page>, blk: nat, t: BloomTuple)
    requires blk < |blocks| && !blocks[blk].MetaPage?
    requires Tuples(Filled(blocks[blk], t)) == Tuples(blocks[blk]) + [t]
    ensures Live(blocks[blk := Filled(blocks[blk], t)]) == Live(blocks) + multiset{t}
  {
    var before, after := Live(blocks), Live(blocks[blk := Filled(blocks[blk], t)]);
    var ts := multiset(Tuples(blocks[blk]));
    LiveUpdate(blocks, blk, Filled(blocks[blk], t));
    assert multiset(Tuples(blocks[blk]) + [t]) == multiset{t} + ts;
    BagAssoc(before, multiset{t}, ts);
    BagCancel(after, before + multiset{t}, ts);
  }

  lemma FilledTuples(c: Config, page: Page, t: BloomTuple)
    requires HasRoom(c, page) && c.Valid() && WellFormedPage(c.cap, page)
    ensures Filled(page, t).Data? && WellFormedPage(c.cap, Filled(page, t))
    ensures Tuples(Filled(page, t)) == Tuples(page) + [t]
    ensures forall u :: u in Tuples(Filled(page, t)) <==> u in Tuples(page) || u == t
  {
    assert [] + [t] == [t];
    assert forall u :: u in Tuples(page) + [t] <==> u in Tuples(page) || u == t;
  }

  /** One page more tuples than before. */
  lemma OnePageGrows(c: Config, blocks: seq<Page>, blk: nat, page: Page, t: BloomTuple)
    requires PagesOk(c, blocks) && blk < |blocks| && !blocks[blk].MetaPage?
    requires page.Data? && WellFormedPage(c.cap, page)
    requires forall u :: u in Tuples(page) <==> u in Tuples(blocks[blk]) || u == t
    ensures PagesOk(c, blocks[blk := page]) && GrowsBy(blocks, blocks[blk := page], {t})
  {
  }

  lemma FilledGrows(c: Config, blocks: seq<Page>, blk: nat, t: BloomTuple)
    requires PagesOk(c, blocks) && c.Valid()
    requires blk < |blocks| && HasRoom(c, blocks[blk])
    ensures var blocks' := blocks[blk := Filled(blocks[blk], t)];
            && PagesOk(c, blocks') && GrowsBy(blocks, blocks', {t})
            && Live(blocks') == Live(blocks) + multiset{t}
  {
    FilledTuples(c, blocks[blk], t);
    OnePageGrows(c, blocks, blk, Filled(blocks[blk], t), t);
    FilledLive(blocks, blk, t);
  }

  // ------------------------------------------------------------ step by step

  /** A process moves on without touching a page. */
  lemma InvGoto(c: Config, s: State, p: Pid, r: Proc)
    requires Inv(c, s) && ProcOk(c, s, r)
    requires r.HoldsMeta() ==> s.metaLock == Some(p)
    ensures Inv(c, Goto(s, p, r))
  {
    var s' := Goto(s, p, r);
    forall i | i in s'.procs
      ensures ProcOk(c, s', s'.procs[i])
    {
      ProcStable(c, s, s', s'.procs[i], {});
    }
  }

  lemma InvLeave(c: Config, s: State, p: Pid)
    requires Inv(c, s)
    ensures Inv(c, Leave(s, p))
  {
    var s' := Leave(s, p);
    forall i | i in s'.procs
      ensures ProcOk(c, s', s'.procs[i])
    {
      ProcStable(c, s, s', s'.procs[i], {});
    }
  }

  /** What an insert needs to complete on a block. */
  ghost predicate CanPlace(c: Config, s: State, p: Pid, blk: nat, meta: Meta) {
    && Inv(c, s) && p in s.procs && s.procs[p].Inserting()
    && blk < |s.blocks| && HasRoom(c, s.blocks[blk])
    && (forall i :: i in s.procs && i != p && s.procs[i].HoldsMeta() ==>
          meta == s.meta && (s.procs[i].Extended? ==> s.procs[i].blk != blk))
    && MetaOk(c, s.blocks[blk := Filled(s.blocks[blk], s.procs[p].t)], meta)
  }

  lemma PlaceKeepsProc(c: Config, s: State, p: Pid, blk: nat, meta: Meta, i: Pid)
    requires CanPlace(c, s, p, blk, meta) && i in s.procs && i != p
    ensures ProcOk(c, Place(s, p, blk, s.procs[p].t, meta), s.procs[i])
  {
    FilledGrows(c, s.blocks, blk, s.procs[p].t);
    ProcStable(c, s, Place(s, p, blk, s.procs[p].t, meta), s.procs[i], {s.procs[p].t});
  }

  /** An insert completes: the only steps that add a tuple. */
  lemma InvPlace(c: Config, s: State, p: Pid, blk: nat, meta: Meta)
    requires CanPlace(c, s, p, blk, meta)
    ensures Inv(c, Place(s, p, blk, s.procs[p].t, meta))
  {
    var s' := Place(s, p, blk, s.procs[p].t, meta);
    forall i | i in s'.procs
      ensures ProcOk(c, s', s'.procs[i])
    {
      PlaceKeepsProc(c, s, p, blk, meta, i);
    }
    FilledGrows(c, s.blocks, blk, s.procs[p].t);
  }

  lemma OnlyHolder(c: Config, s: State, p: Pid)
    requires Inv(c, s) && p in s.procs && s.procs[p].HoldsMeta()
    ensures forall i :: i in s.procs && s.procs[i].HoldsMeta() ==> i == p
  {
  }

  lemma InvReadMeta(c: Config, s: State, p: Pid)
    requires Inv(c, s) && Enabled(c, s, ReadMeta(p))
    ensures Inv(c, Do(c, s, ReadMeta(p)))
  {
    var m := s.meta;
    if m.nEnd > m.nStart {
      assert m.notFull[..m.nEnd][m.nStart] == m.notFull[m.nStart];
      InvGoto(c, s, p, Try(s.procs[p].t, m.notFull[m.nStart]));
    } else {
      InvGoto(c, s, p, WantMeta(s.procs[p].t, None));
    }
  }

  lemma InvTryPage(c: Config, s: State, p: Pid)
    requires Inv(c, s) && Enabled(c, s, TryPage(p))
    ensures Inv(c, Do(c, s, TryPage(p)))
  {
    var Try(t, blk) := s.procs[p];
    if HasRoom(c, s.blocks[blk]) {
      InvPlaceTried(c, s, p, blk);
    } else {
      InvGoto(c, s, p, WantMeta(t, Some(blk)));
    }
  }

  lemma InvPlaceTried(c: Config, s: State, p: Pid, blk: nat)
    requires Inv(c, s) && p in s.procs && s.procs[p].Try? && s.procs[p].blk == blk
    requires blk < |s.blocks| && HasRoom(c, s.blocks[blk])
    ensures Inv(c, Place(s, p, blk, s.procs[p].t, s.meta))
  {
    assert ProcOk(c, s, s.procs[p]);
    FilledGrows(c, s.blocks, blk, s.procs[p].t);
    forall i | i in s.procs && s.procs[i].Extended?
      ensures s.procs[i].blk != blk
    {
      assert ProcOk(c, s, s.procs[i]);
    }
    InvPlace(c, s, p, blk, s.meta);
  }

  lemma InvLockMeta(c: Config, s: State, p: Pid)
    requires Inv(c, s) && Enabled(c, s, LockMeta(p))
    ensures Inv(c, Do(c, s, LockMeta(p)))
  {
    var s1 := s.(metaLock := Some(p));
    forall i | i in s.procs
      ensures ProcOk(c, s1, s1.procs[i])
    {
      ProcStable(c, s, s1, s.procs[i], {});
    }
    var n := s.meta.nStart;
    var skip := n < s.meta.nEnd && s.procs[p].tried == Some(s.meta.notFull[n]);
    InvGoto(c, s1, p, Loop(s.procs[p].t, if skip then n + 1 else n));
  }

  lemma ListedIsData(c: Config, s: State, n: nat)
    requires MetaOk(c, s.blocks, s.meta) && n < s.meta.nEnd
    ensures DataBlock(s.blocks, s.meta.notFull[n])
  {
    assert s.meta.notFull[..s.meta.nEnd][n] == s.meta.notFull[n];
  }

  lemma InvTryListed(c: Config, s: State, p: Pid)
    requires Inv(c, s) && Enabled(c, s, TryListed(p))
    ensures Inv(c, Do(c, s, TryListed(p)))
  {
    var Loop(t, n) := s.procs[p];
    assert ProcOk(c, s, s.procs[p]);
    ListedIsData(c, s, n);
    var blk := s.meta.notFull[n];
    if HasRoom(c, s.blocks[blk]) {
      InvPlaceListed(c, s, p, blk, n);
    } else {
      InvGoto(c, s, p, Loop(t, n + 1));
    }
  }

  lemma InvPlaceListed(c: Config, s: State, p: Pid, blk: nat, n: nat)
    requires Inv(c, s) && p in s.procs && s.procs[p].Loop?
    requires DataBlock(s.blocks, blk) && HasRoom(c, s.blocks[blk])
    requires n < s.meta.nEnd
    ensures Inv(c, Place(s, p, blk, s.procs[p].t, s.meta.(nStart := n)))
  {
    OnlyHolder(c, s, p);
    FilledGrows(c, s.blocks, blk, s.procs[p].t);
    InvPlace(c, s, p, blk, s.meta.(nStart := n));
  }

  lemma InvRecycle(c: Config, s: State, p: Pid, blk: nat)
    requires Inv(c, s) && Enabled(c, s, Recycle(p, blk))
    ensures Inv(c, Do(c, s, Recycle(p, blk)))
  {
    OnlyHolder(c, s, p);
    FilledGrows(c, s.blocks, blk, s.procs[p].t);
    var m := ResetList(s.meta, blk);
    assert m.notFull[..1] == [blk];
    InvPlace(c, s, p, blk, m);
  }

  lemma NewGrows(c: Config, blocks: seq<Page>)
    requires PagesOk(c, blocks)
    ensures PagesOk(c, blocks + [New]) && GrowsBy(blocks, blocks + [New], {})
    ensures Live(blocks + [New]) == Live(blocks)
  {
    LiveAppend(blocks, New);
  }

  lemma ExtendKeepsProc(c: Config, s: State, p: Pid, i: Pid)
    requires Inv(c, s) && Enabled(c, s, Extend(p)) && i in s.procs && i != p
    ensures ProcOk(c, Do(c, s, Extend(p)), s.procs[i])
  {
    OnlyHolder(c, s, p);
    NewGrows(c, s.blocks);
    ProcStable(c, s, Do(c, s, Extend(p)), s.procs[i], {});
  }

  lemma InvExtend(c: Config, s: State, p: Pid)
    requires Inv(c, s) && Enabled(c, s, Extend(p))
    ensures Inv(c, Do(c, s, Extend(p)))
  {
    var s' := Do(c, s, Extend(p));
    NewGrows(c, s.blocks);
    forall i | i in s'.procs
      ensures ProcOk(c, s', s'.procs[i])
    {
      if i != p {
        ExtendKeepsProc(c, s, p, i);
      }
    }
  }

  /** The source initialises the extended page unconditionally; the invariant
      knows that the page is still empty, so no tuple is destroyed. */
  lemma InvFinishExtended(c: Config, s: State, p: Pid)
    requires Inv(c, s) && Enabled(c, s, FinishExtended(p))
    ensures Inv(c, Do(c, s, FinishExtended(p)))
  {
    OnlyHolder(c, s, p);
    assert ProcOk(c, s, s.procs[p]);
    var Extended(t, blk) := s.procs[p];
    FilledGrows(c, s.blocks, blk, t);
    var m := ResetList(s.meta, blk);
    assert m.notFull[..1] == [blk];
    InvPlace(c, s, p, blk, m);
    assert Do(c, s, FinishExtended(p)) == Place(s, p, blk, t, m);
  }

  lemma InvStartVacuum(c: Config, s: State, p: Pid, dead: set<nat>)
    requires Inv(c, s) && Enabled(c, s, StartVacuum(p, dead))
    ensures Inv(c, Do(c, s, StartVacuum(p, dead)))
  {
    InvGoto(c, s, p, Vac(dead, 1, |s.blocks|, [], 0));
  }

  lemma InvVacuumMeta(c: Config, s: State, p: Pid)
    requires Inv(c, s) && Enabled(c, s, VacuumMeta(p))
    ensures Inv(c, Do(c, s, VacuumMeta(p)))
  {
    var s' := Do(c, s, VacuumMeta(p));
    assert ProcOk(c, s, s.procs[p]);
    var list := s.procs[p].list;
    assert s'.meta.notFull[..s'.meta.nEnd] == list;
    forall i | i in s'.procs
      ensures ProcOk(c, s', s'.procs[i])
    {
      ProcStable(c, s, s', s'.procs[i], {});
    }
  }

  lemma VacuumedLive(blocks: seq<Page>, blk: nat, dead: set<nat>)
    requires blk < |blocks| && blocks[blk].Data? && !blocks[blk].deleted
    ensures Live(blocks) == Live(blocks[blk := Vacuumed(blocks[blk], dead)])
                            + multiset(Casualties(blocks[blk].tuples, dead))
  {
    var ts := blocks[blk].tuples;
    var before, after := Live(blocks), Live(blocks[blk := Vacuumed(blocks[blk], dead)]);
    VacuumPartitions(ts, dead);
    LiveUpdate(blocks, blk, Vacuumed(blocks[blk], dead));
    var left, lost := multiset(Survivors(ts, dead)), multiset(Casualties(ts, dead));
    assert multiset(Tuples(Vacuumed(blocks[blk], dead))) == left;
    assert multiset(Tuples(blocks[blk])) == lost + left;
    BagAssoc(after, lost, left);
    BagCancel(before, after + lost, left);
  }

  lemma VacuumedPage(c: Config, page: Page, dead: set<nat>)
    requires page.Data? && !page.deleted && WellFormedPage(c.cap, page)
    ensures var page' := Vacuumed(page, dead);
            && page'.Data? && WellFormedPage(c.cap, page')
            && (forall t :: t in Tuples(page') ==> t in Tuples(page))
            && (forall t :: t in Tuples(page) ==> t in Tuples(page') || t in Casualties(page.tuples, dead))
  {
    VacuumPartitions(page.tuples, dead);
  }

  lemma InvVacuumPage(c: Config, s: State, p: Pid)
    requires Inv(c, s) && Enabled(c, s, VacuumPage(p))
    ensures Inv(c, Do(c, s, VacuumPage(p)))
  {
    var Vac(dead, blk, npages, list, gone) := s.procs[p];
    assert ProcOk(c, s, s.procs[p]);
    if blk == 0 || !s.blocks[blk].Data? || s.blocks[blk].deleted {
      InvGoto(c, s, p, Vac(dead, blk + 1, npages, list, gone));
    } else {
      InvVacuumData(c, s, p, blk);
    }
  }

  ghost predicate OnDataPage(c: Config, s: State, p: Pid, blk: nat) {
    && Inv(c, s) && Enabled(c, s, VacuumPage(p))
    && s.procs[p].blk == blk && 0 < blk < |s.blocks|
    && s.blocks[blk].Data? && !s.blocks[blk].deleted
  }

  lemma VacuumConserves(c: Config, s: State, p: Pid, blk: nat)
    requires OnDataPage(c, s, p, blk)
    ensures Conserved(VacuumPageEffect(c, s, p))
  {
    var lost := multiset(Casualties(s.blocks[blk].tuples, s.procs[p].dead));
    VacuumedLive(s.blocks, blk, s.procs[p].dead);
    BagAssoc(Live(VacuumPageEffect(c, s, p).blocks), lost, s.removed);
  }

  lemma VacuumKeepsPages(c: Config, s: State, p: Pid, blk: nat)
    requires OnDataPage(c, s, p, blk)
    ensures PagesOk(c, VacuumPageEffect(c, s, p).blocks)
    ensures MetaOk(c, VacuumPageEffect(c, s, p).blocks, s.meta)
  {
    VacuumedPage(c, s.blocks[blk], s.procs[p].dead);
  }

  lemma InvVacuumData(c: Config, s: State, p: Pid, blk: nat)
    requires OnDataPage(c, s, p, blk)
    ensures Inv(c, VacuumPageEffect(c, s, p))
  {
    var s' := VacuumPageEffect(c, s, p);
    VacuumConserves(c, s, p, blk);
    VacuumKeepsPages(c, s, p, blk);
    forall i | i in s'.procs
      ensures ProcOk(c, s', s'.procs[i])
    {
      VacuumKeepsProc(c, s, p, blk, i);
    }
  }

  lemma VacuumKeepsProc(c: Config, s: State, p: Pid, blk: nat, i: Pid)
    requires p in s.procs && s.procs[p].Vac? && s.procs[p].blk == blk < s.procs[p].npages
    requires 0 < blk < |s.blocks| && s.blocks[blk].Data? && !s.blocks[blk].deleted
    requires WellFormedPage(c.cap, s.blocks[blk])
    requires i in s.procs && ProcOk(c, s, s.procs[i]) && ProcOk(c, s, s.procs[p])
    ensures ProcOk(c, VacuumPageEffect(c, s, p), VacuumPageEffect(c, s, p).procs[i])
  {
    var s' := VacuumPageEffect(c, s, p);
    var dead := s.procs[p].dead;
    VacuumedPage(c, s.blocks[blk], dead);
    if i != p {
      VacuumKeepsOther(c, s, s', s.procs[i], blk, Casualties(s.blocks[blk].tuples, dead));
    }
  }

  /** A page that lost only casualties, seen by a bystander. */
  lemma VacuumKeepsOther(c: Config, s: State, s': State, r: Proc, blk: nat, lost: seq<BloomTuple>)
    requires ProcOk(c, s, r) && 0 < blk < |s.blocks| && s.blocks[blk].Data?
    requires |s'.blocks| == |s.blocks| && s'.blocks[blk].Data?
    requires forall b :: 0 <= b < |s.blocks| && b != blk ==> s'.blocks[b] == s.blocks[b]
    requires s'.meta == s.meta && s'.inserted == s.inserted
    requires forall t :: t in Tuples(s'.blocks[blk]) ==> t in Tuples(s.blocks[blk])
    requires forall t :: t in Tuples(s.blocks[blk]) ==> t in Tuples(s'.blocks[blk]) || t in lost
    ensures ProcOk(c, s', if r.Scan? then r.(must := set t | t in r.must && t !in lost) else r)
  {
    if r.Scan? {
      forall t | t in r.must && t !in lost && Owed(s.blocks, r.blk, r.npages, t)
        ensures Owed(s'.blocks, r.blk, r.npages, t)
      {
        var b :| r.blk <= b < r.npages && b < |s.blocks| && t in Tuples(s.blocks[b]);
        assert t in Tuples(s'.blocks[b]);
      }
    }
  }

  lemma InvStartScan(c: Config, s: State, p: Pid, q: Sign)
    requires Inv(c, s) && Enabled(c, s, StartScan(p, q))
    ensures Inv(c, Do(c, s, StartScan(p, q)))
  {
    var r := Do(c, s, StartScan(p, q)).procs[p];
    forall t | t in r.must
      ensures Owed(s.blocks, 1, |s.blocks|, t)
    {
      LiveMember(s.blocks, t);
      var b :| 0 <= b < |s.blocks| && t in Tuples(s.blocks[b]);
      assert b >= 1;
    }
    InvGoto(c, s, p, r);
  }

  lemma InvScanPage(c: Config, s: State, p: Pid)
    requires Inv(c, s) && Enabled(c, s, ScanPage(p))
    ensures Inv(c, Do(c, s, ScanPage(p)))
  {
    var r := s.procs[p];
    var r' := Do(c, s, ScanPage(p)).procs[p];
    assert ProcOk(c, s, r);
    forall t | t in r'.must && t.heapPtr !in r'.found
      ensures Owed(s.blocks, r'.blk, r'.npages, t)
    {
      var b :| r.blk <= b < r.npages && b < |s.blocks| && t in Tuples(s.blocks[b]);
      assert b != r.blk;
    }
    forall h | h in r'.found
      ensures exists t :: t in s.inserted && Hits(t, r.q) && t.heapPtr == h
    {
      if h !in r.found {
        var t :| t in Tuples(s.blocks[r.blk]) && Hits(t, r.q) && t.heapPtr == h;
        LiveMember(s.blocks, t);
      }
    }
    InvGoto(c, s, p, r');
  }

  /** Every step of every process keeps the invariant. */
  lemma InvStep(c: Config, s: State, step: Step)
    requires Inv(c, s) && Enabled(c, s, step)
    ensures Inv(c, Do(c, s, step))
  {
    match step
    case StartInsert(p, t) => InvGoto(c, s, p, Start(t));
    case ReadMeta(p) => InvReadMeta(c, s, p);
    case TryPage(p) => InvTryPage(c, s, p);
    case LockMeta(p) => InvLockMeta(c, s, p);
    case TryListed(p) => InvTryListed(c, s, p);
    case GiveUpList(p) => InvGoto(c, s, p, Alloc(s.procs[p].t));
    case Recycle(p, blk) => InvRecycle(c, s, p, blk);
    case Extend(p) => InvExtend(c, s, p);
    case FinishExtended(p) => InvFinishExtended(c, s, p);
    case Abort(p) => InvLeave(c, s, p);
    case StartVacuum(p, dead) => InvStartVacuum(c, s, p, dead);
    case VacuumPage(p) => InvVacuumPage(c, s, p);
    case VacuumMeta(p) => InvVacuumMeta(c, s, p);
    case StartScan(p, q) => InvStartScan(c, s, p, q);
    case ScanPage(p) => InvScanPage(c, s, p);
    case FinishScan(p) => InvLeave(c, s, p);
  }

  // -------------------------------------------------------------- whole runs

  ghost predicate Runnable(c: Config, s: State, steps: seq<Step>)
    requires c.Valid()
    decreases |steps|
  {
    steps == [] ||
    (|s.meta.notFull| == c.slots && Enabled(c, s, steps[0]) && Runnable(c, Do(c, s, steps[0]), steps[1..]))
  }

  ghost function Exec(c: Config, s: State, steps: seq<Step>): State
    requires c.Valid() && Runnable(c, s, steps)
    decreases |steps|
  {
    if steps == [] then s else Exec(c, Do(c, s, steps[0]), steps[1..])
  }

  /** Every reachable state is well formed and has lost or duplicated nothing:
      what is live together with what vacuums removed is what was inserted. */
  lemma {:induction false} RunSafe(c: Config, s: State, steps: seq<Step>)
    requires Inv(c, s) && Runnable(c, s, steps)
    ensures Inv(c, Exec(c, s, steps))
    ensures Exec(c, s, steps).inserted == Live(Exec(c, s, steps).blocks) + Exec(c, s, steps).removed
    decreases |steps|
  {
    if steps != [] {
      InvStep(c, s, steps[0]);
      RunSafe(c, Do(c, s, steps[0]), steps[1..]);
    }
  }

  /** The step ends the process: it finishes or aborts. */
  ghost predicate Ends(step: Step, p: Pid) {
    step == Abort(p) || step == FinishScan(p) || step == VacuumMeta(p)
  }

  ghost predicate KeepsAlive(steps: seq<Step>, p: Pid) {
    forall i :: 0 <= i < |steps| ==> !Ends(steps[i], p)
  }

  /** The scan is running and still owes t, unless t was removed after `base`. */
  ghost predicate RunsScan(s: State, p: Pid, q: Sign, t: BloomTuple, base: nat) {
    && p in s.procs && s.procs[p].Scan? && s.procs[p].q == q
    && base <= s.removed[t] && (s.removed[t] == base ==> t in s.procs[p].must)
  }

  lemma ScanStays(c: Config, s: State, p: Pid, q: Sign, t: BloomTuple, base: nat, step: Step)
    requires c.Valid() && |s.meta.notFull| == c.slots && Enabled(c, s, step)
    requires !Ends(step, p) && RunsScan(s, p, q, t, base)
    ensures RunsScan(Do(c, s, step), p, q, t, base)
  {
    if step.VacuumPage? {
      assert RunsScan(VacuumPageEffect(c, s, step.p), p, q, t, base);
    }
  }

  lemma {:induction false} ScanStaysRun(c: Config, s: State, p: Pid, q: Sign, t: BloomTuple, base: nat, steps: seq<Step>)
    requires c.Valid() && Runnable(c, s, steps) && KeepsAlive(steps, p)
    requires RunsScan(s, p, q, t, base)
    ensures RunsScan(Exec(c, s, steps), p, q, t, base)
    decreases |steps|
  {
    if steps != [] {
      assert !Ends(steps[0], p);
      ScanStays(c, s, p, q, t, base, steps[0]);
      ScanStaysRun(c, Do(c, s, steps[0]), p, q, t, base, steps[1..]);
    }
  }

  lemma FoundAtEnd(c: Config, s: State, p: Pid)
    requires Inv(c, s) && Enabled(c, s, FinishScan(p))
    ensures forall t :: t in s.procs[p].must ==> t.heapPtr in s.procs[p].found
    ensures forall h :: h in s.procs[p].found ==>
              exists u :: u in s.inserted && Hits(u, s.procs[p].q) && u.heapPtr == h
  {
    assert ProcOk(c, s, s.procs[p]);
  }

  /** A scan misses nothing: an entry that was in the index when the scan began,
      passes its signature test and was not vacuumed away meanwhile is found,
      whatever inserters, vacuums and other scans did in between.  And it
      invents nothing: every pointer found belongs to an inserted entry that
      passes the test. */
  lemma ScanComplete(c: Config, s: State, p: Pid, q: Sign, steps: seq<Step>, t: BloomTuple)
    requires Inv(c, s) && Enabled(c, s, StartScan(p, q))
    requires Runnable(c, Do(c, s, StartScan(p, q)), steps) && KeepsAlive(steps, p)
    requires Enabled(c, Exec(c, Do(c, s, StartScan(p, q)), steps), FinishScan(p))
    requires t in Live(s.blocks) && Hits(t, q)
    ensures var s' := Exec(c, Do(c, s, StartScan(p, q)), steps);
            && s.removed[t] <= s'.removed[t]
            && (s'.removed[t] == s.removed[t] ==> t.heapPtr in s'.procs[p].found)
            && forall h :: h in s'.procs[p].found ==>
                 exists u :: u in s'.inserted && Hits(u, q) && u.heapPtr == h
  {
    var s0 := Do(c, s, StartScan(p, q));
    InvStep(c, s, StartScan(p, q));
    ScanStaysRun(c, s0, p, q, t, s.removed[t], steps);
    RunSafe(c, s0, steps);
    FoundAtEnd(c, Exec(c, s0, steps), p);
  }

  /** The answer to a query: a row that satisfies every key and whose entry
      stays in the index is among the pointers the scan returns. */
  lemma QueryFindsRow(c: Config, opts: Options, s: State, p: Pid, q: Sign, steps: seq<Step>,
                      row: Row, keys: seq<ScanKey>, t: BloomTuple)
    requires Inv(c, s) && Enabled(c, s, StartScan(p, q)) && opts.Valid() && c.words == opts.bloomLength
    requires Runnable(c, Do(c, s, StartScan(p, q)), steps) && KeepsAlive(steps, p)
    requires Enabled(c, Exec(c, Do(c, s, StartScan(p, q)), steps), FinishScan(p))
    requires |row| <= INDEX_MAX_KEYS && RowUsable(row, |row|) && KeysUsable(keys, |keys|)
    requires RowSatisfies(row, keys)
    requires |t.sign| == c.words && BitsOf(t.sign) == RowBits(opts, row, |row|)
    requires BitsOf(q) == KeyBits(opts, keys, |keys|)
    requires t in Live(s.blocks)
    requires Exec(c, Do(c, s, StartScan(p, q)), steps).removed[t] == s.removed[t]
    ensures t.heapPtr in Exec(c, Do(c, s, StartScan(p, q)), steps).procs[p].found
  {
    SatisfyingRowMatches(opts, row, keys, t.sign, q);
    ScanComplete(c, s, p, q, steps, t);
  }

  /** In no reachable state does an insert find a block of its list
      uninitialised, and the page it allocates always takes the tuple. */
  lemma InsertNeverStuck(c: Config, s: State, steps: seq<Step>, p: Pid)
    requires Inv(c, s) && Runnable(c, s, steps) && p in Exec(c, s, steps).procs
    ensures var s' := Exec(c, s, steps);
            var r := s'.procs[p];
            && (r.Try? ==> DataBlock(s'.blocks, r.blk))
            && (r.Loop? && r.next < s'.meta.nEnd ==>
                  r.next < |s'.meta.notFull| && DataBlock(s'.blocks, s'.meta.notFull[r.next]))
            && (r.Extended? ==> r.blk < |s'.blocks| && HasRoom(c, s'.blocks[r.blk]))
  {
    RunSafe(c, s, steps);
    var s' := Exec(c, s, steps);
    var r := s'.procs[p];
    assert ProcOk(c, s', r);
    if r.Loop? && r.next < s'.meta.nEnd {
      ListedIsData(c, s', r.next);
    }
  }
}
