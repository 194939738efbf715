/** What becomes of an insert: every insert that is asked for ends with its tuple in
    the index unless it is aborted, after a bounded number of its own steps, and a
    new page is taken only when the listed ones are full (contrib/bloom/blinsert.c,
    blutils.c). */
module BloomInsert {
  import opened Wrappers
  import opened BloomSign
  import opened BloomPages
  import opened BloomProtocol
  import opened BloomSafety

  // ---------------------------------------------------- what a step leaves alone

  /** The same process, up to what a scan still owes. */
  ghost predicate Same(r: Proc, r': Proc) {
    r == r' || (r.Scan? && r'.Scan? && r' == r.(must := r'.must))
  }

  ghost predicate SameAt(s: State, s': State, i: Pid) {
    (i in s.procs <==> i in s'.procs) && (i in s.procs ==> Same(s.procs[i], s'.procs[i]))
  }

  /** A step leaves the other processes alone. */
  lemma OthersUntouched(c: Config, s: State, step: Step, i: Pid)
    requires c.Valid() && |s.meta.notFull| == c.slots && Enabled(c, s, step) && i != step.p
    ensures SameAt(s, Do(c, s, step), i)
  {
    if step.VacuumPage? {
      VacuumTouchesNone(c, s, step.p, i);
    }
    hide VacuumPageEffect, ScanPageEffect, Live, HasRoom, Hits;
  }

  lemma VacuumTouchesNone(c: Config, s: State, p: Pid, i: Pid)
    requires Enabled(c, s, VacuumPage(p)) && i != p
    ensures SameAt(s, VacuumPageEffect(c, s, p), i)
  {
  }

  /** While one process holds the metapage, no other changes it. */
  lemma MetaStays(c: Config, s: State, step: Step, i: Pid)
    requires Inv(c, s) && Enabled(c, s, step) && i != step.p && i in s.procs && s.procs[i].HoldsMeta()
    ensures Do(c, s, step).meta == s.meta
  {
    hide Live, PagesOk, MetaOk, ProcOk;
    assert s.metaLock == Some(i);
    if step.p in s.procs {
      assert !s.procs[step.p].HoldsMeta();
    }
    if step.VacuumPage? {
      assert VacuumPageEffect(c, s, step.p).meta == s.meta;
    }
  }

  lemma NotFullSize(c: Config, s: State)
    requires Inv(c, s)
    ensures c.Valid() && |s.meta.notFull| == c.slots
  {
  }

  // ------------------------------------------------------------- the accounts

  /** Process p is inserting t. */
  ghost predicate Inserts(s: State, p: Pid, t: BloomTuple) {
    p in s.procs && s.procs[p].Inserting() && s.procs[p].t == t
  }

  lemma OnlyInsertedGrows(c: Config, s: State, s': State, t: BloomTuple)
    requires Inv(c, s) && Inv(c, s') && s'.removed == s.removed && s'.inserted == s.inserted + multiset{t}
    ensures Live(s'.blocks) == Live(s.blocks) + multiset{t}
  {
    var x := multiset{t};
    assert Live(s'.blocks) + s.removed == (Live(s.blocks) + s.removed) + x;
    BagSwap(Live(s.blocks), s.removed, x);
    BagCancel(Live(s'.blocks), Live(s.blocks) + x, s.removed);
  }

  /** The insert of t by p ended with the tuple in the index. */
  ghost predicate Completed(s: State, s': State, p: Pid, t: BloomTuple) {
    && p !in s'.procs && s'.inserted == s.inserted + multiset{t} && s'.removed == s.removed
    && Live(s'.blocks) == Live(s.blocks) + multiset{t}
  }

  /** After a step of its own an insert goes on with its tuple, is aborted, or has
      put exactly that tuple into the index. */
  lemma InsertStep(c: Config, s: State, step: Step, t: BloomTuple)
    requires Inv(c, s) && Enabled(c, s, step) && Inserts(s, step.p, t)
    ensures var s' := Do(c, s, step);
            || (Inserts(s', step.p, t) && s'.inserted == s.inserted)
            || (step.Abort? && step.p !in s'.procs && s'.inserted == s.inserted)
            || Completed(s, s', step.p, t)
  {
    var s' := Do(c, s, step);
    InsertEffect(c, s, step, t);
    if step.p !in s'.procs && !step.Abort? {
      InvStep(c, s, step);
      OnlyInsertedGrows(c, s, s', t);
    }
  }

  lemma InsertEffect(c: Config, s: State, step: Step, t: BloomTuple)
    requires Inv(c, s) && Enabled(c, s, step) && Inserts(s, step.p, t)
    ensures var s' := Do(c, s, step);
            if step.p in s'.procs then Inserts(s', step.p, t) && s'.inserted == s.inserted
            else s'.removed == s.removed && s'.inserted == if step.Abort? then s.inserted else s.inserted + multiset{t}
  {
    hide Inv, Live, HasRoom, Filled, VacuumPageEffect, ScanPageEffect, ResetList, OverwriteList;
    InsertFacts(c, s, step.p);
  }

  /** What the invariant says of one insert. */
  lemma InsertFacts(c: Config, s: State, p: Pid)
    requires Inv(c, s) && p in s.procs && s.procs[p].Inserting()
    ensures c.Valid() && s.meta.nStart <= s.meta.nEnd <= |s.meta.notFull| == c.slots
    ensures s.procs[p].Loop? ==> s.meta.nStart <= s.procs[p].next <= s.meta.nEnd
    ensures s.procs[p].Extended? ==> s.procs[p].blk < |s.blocks| && s.blocks[s.procs[p].blk].New?
    ensures s.procs[p].Try? ==> DataBlock(s.blocks, s.procs[p].blk)
  {
    assert ProcOk(c, s, s.procs[p]);
    hide PagesOk, LockOk, Conserved, AllData;
  }

  /** Nobody else's insert is touched by a step. */
  lemma OthersInsert(c: Config, s: State, step: Step, i: Pid, t: BloomTuple)
    requires Inv(c, s) && Enabled(c, s, step) && i != step.p
    ensures Inserts(Do(c, s, step), i, t) <==> Inserts(s, i, t)
  {
    OthersUntouched(c, s, step, i);
    hide Do, Enabled;
  }

  /** A step of a process that is not inserting. */
  lemma NoInsertStep(c: Config, s: State, step: Step)
    requires Inv(c, s) && Enabled(c, s, step) && !step.StartInsert?
    requires step.p in s.procs ==> !s.procs[step.p].Inserting()
    ensures var s' := Do(c, s, step);
            s'.inserted == s.inserted && (step.p in s'.procs ==> !s'.procs[step.p].Inserting())
  {
    if step.VacuumPage? {
      assert VacuumPageEffect(c, s, step.p).inserted == s.inserted;
    }
  }

  /** The processes that are inserting t. */
  ghost function UnderWay(s: State, t: BloomTuple): set<Pid> {
    set p | p in s.procs && Inserts(s, p, t)
  }

  lemma AllButOne(a: set<Pid>, b: set<Pid>, p: Pid)
    requires forall i :: i != p ==> (i in a <==> i in b)
    ensures |a| + (if p in b then 1 else 0) == |b| + if p in a then 1 else 0
  {
    assert a - {p} == b - {p};
    assert p in a ==> a == (a - {p}) + {p};
    assert p in b ==> b == (b - {p}) + {p};
    assert p !in a ==> a == a - {p};
    assert p !in b ==> b == b - {p};
  }

  ghost predicate Asks(step: Step, t: BloomTuple) {
    step.StartInsert? && step.t == t
  }

  ghost predicate Aborts(s: State, step: Step, t: BloomTuple) {
    step.Abort? && Inserts(s, step.p, t)
  }

  function One(b: bool): nat {
    if b then 1 else 0
  }

  lemma BalanceStep(c: Config, s: State, step: Step, t: BloomTuple)
    requires Inv(c, s) && Enabled(c, s, step)
    ensures var s' := Do(c, s, step);
            s.inserted[t] + |UnderWay(s, t)| + One(Asks(step, t))
            == s'.inserted[t] + |UnderWay(s', t)| + One(Aborts(s, step, t))
  {
    var p, s' := step.p, Do(c, s, step);
    forall i | i != p
      ensures i in UnderWay(s, t) <==> i in UnderWay(s', t)
    {
      OthersInsert(c, s, step, i, t);
    }
    AllButOne(UnderWay(s, t), UnderWay(s', t), p);
    assert p in UnderWay(s, t) <==> Inserts(s, p, t);
    assert p in UnderWay(s', t) <==> Inserts(s', p, t);
    if p in s.procs && s.procs[p].Inserting() {
      InsertStep(c, s, step, s.procs[p].t);
    } else if !step.StartInsert? {
      NoInsertStep(c, s, step);
    }
  }

  /** How often the steps ask for an insert of t. */
  ghost function Asked(steps: seq<Step>, t: BloomTuple): nat {
    if steps == [] then 0 else One(Asks(steps[0], t)) + Asked(steps[1..], t)
  }

  /** How often an insert of t is aborted in the run. */
  ghost function Aborted(c: Config, s: State, steps: seq<Step>, t: BloomTuple): nat
    requires c.Valid() && Runnable(c, s, steps)
    decreases |steps|
  {
    if steps == [] then 0 else One(Aborts(s, steps[0], t)) + Aborted(c, Do(c, s, steps[0]), steps[1..], t)
  }

  /** In every run, and for every tuple: the inserts that were asked for, with those
      under way at the start, are those that put the tuple into the index, those
      still under way and those aborted. */
  lemma {:induction false} RunBalance(c: Config, s: State, steps: seq<Step>, t: BloomTuple)
    requires Inv(c, s) && Runnable(c, s, steps)
    ensures var s' := Exec(c, s, steps);
            s.inserted[t] + |UnderWay(s, t)| + Asked(steps, t)
            == s'.inserted[t] + |UnderWay(s', t)| + Aborted(c, s, steps, t)
    decreases |steps|
  {
    if steps != [] {
      BalanceStep(c, s, steps[0], t);
      InvStep(c, s, steps[0]);
      RunBalance(c, Do(c, s, steps[0]), steps[1..], t);
    }
  }

  /** If none is under way in the end and none was aborted, every insert that was
      asked for is in the index or was vacuumed away again. */
  lemma NothingIsLost(c: Config, s: State, steps: seq<Step>, t: BloomTuple)
    requires Inv(c, s) && Runnable(c, s, steps) && UnderWay(s, t) == {}
    requires UnderWay(Exec(c, s, steps), t) == {} && Aborted(c, s, steps, t) == 0
    ensures var s' := Exec(c, s, steps);
            Live(s.blocks)[t] + s.removed[t] + Asked(steps, t) == Live(s'.blocks)[t] + s'.removed[t]
  {
    RunBalance(c, s, steps, t);
    RunSafe(c, s, steps);
  }

  // ------------------------------------------------------------- where it goes

  /** Only one block changed: t was put behind its tuples. */
  ghost predicate PutOn(s: State, s': State, blk: nat, t: BloomTuple) {
    && blk < |s.blocks| == |s'.blocks|
    && Tuples(s'.blocks[blk]) == Tuples(s.blocks[blk]) + [t]
    && forall b :: 0 <= b < |s.blocks| && b != blk ==> s'.blocks[b] == s.blocks[b]
  }

  lemma PlacePuts(c: Config, s: State, p: Pid, blk: nat, t: BloomTuple, meta: Meta)
    requires Inv(c, s) && blk < |s.blocks| && HasRoom(c, s.blocks[blk])
    ensures PutOn(s, Place(s, p, blk, t, meta), blk, t) && Place(s, p, blk, t, meta).meta == meta
  {
    FilledTuples(c, s.blocks[blk], t);
    hide Filled, Live, ProcOk, MetaOk, LockOk, HasRoom;
  }

  lemma ExtendedPuts(c: Config, s: State, p: Pid)
    requires Inv(c, s) && Enabled(c, s, FinishExtended(p))
    ensures var s', blk := Do(c, s, FinishExtended(p)), s.procs[p].blk;
            PutOn(s, s', blk, s.procs[p].t) && s'.meta == ResetList(s.meta, blk)
  {
    assert ProcOk(c, s, s.procs[p]);
    hide Live, LockOk, MetaOk, ResetList;
    assert [] + [s.procs[p].t] == [s.procs[p].t];
  }

  /** The steps with which an insert ends. */
  lemma EndingSteps(c: Config, s: State, step: Step)
    requires Inv(c, s) && Enabled(c, s, step) && step.p in s.procs && s.procs[step.p].Inserting()
    requires step.p !in Do(c, s, step).procs && !step.Abort?
    ensures step.TryPage? || step.TryListed? || step.Recycle? || step.FinishExtended?
  {
    hide Inv, Live, HasRoom, Filled, VacuumPageEffect, ScanPageEffect;
  }

  /** An insert that ends puts its tuple on one block.  If it held the metapage, the
      list of pages with room now starts with that block. */
  lemma PutSomewhere(c: Config, s: State, step: Step, t: BloomTuple) returns (blk: nat)
    requires Inv(c, s) && Enabled(c, s, step) && Inserts(s, step.p, t)
    requires step.p !in Do(c, s, step).procs && !step.Abort?
    ensures var s' := Do(c, s, step);
            && PutOn(s, s', blk, t)
            && if s.procs[step.p].HoldsMeta()
               then s'.meta.nStart < s'.meta.nEnd <= |s'.meta.notFull| && s'.meta.notFull[s'.meta.nStart] == blk
               else s'.meta == s.meta
  {
    hide Inv, Live, Filled, VacuumPageEffect, ScanPageEffect, PutOn;
    EndingSteps(c, s, step);
    InsertFacts(c, s, step.p);
    match step
    case TryPage(p) =>
      blk := s.procs[p].blk;
      PlacePuts(c, s, p, blk, t, s.meta);
    case TryListed(p) =>
      blk := s.meta.notFull[s.procs[p].next];
      PlacePuts(c, s, p, blk, t, s.meta.(nStart := s.procs[p].next));
    case Recycle(p, b) =>
      blk := b;
      PlacePuts(c, s, p, blk, t, ResetList(s.meta, blk));
    case FinishExtended(p) =>
      blk := s.procs[p].blk;
      ExtendedPuts(c, s, p);
  }

  lemma RunThree(c: Config, s: State, a: Step, b: Step, d: Step)
    requires c.Valid() && |s.meta.notFull| == c.slots && Enabled(c, s, a)
    requires var s1 := Do(c, s, a); |s1.meta.notFull| == c.slots && Enabled(c, s1, b)
    requires var s2 := Do(c, Do(c, s, a), b); |s2.meta.notFull| == c.slots && Enabled(c, s2, d)
    ensures Runnable(c, s, [a, b, d]) && Exec(c, s, [a, b, d]) == Do(c, Do(c, Do(c, s, a), b), d)
  {
    hide Do, Enabled;
    var s1 := Do(c, s, a);
    var s2 := Do(c, s1, b);
    var s3 := Do(c, s2, d);
    assert [d][1..] == [] && Runnable(c, s3, []);
    assert Runnable(c, s2, [d]) && Exec(c, s2, [d]) == s3;
    assert [b, d][1..] == [d];
    assert Runnable(c, s1, [b, d]) && Exec(c, s1, [b, d]) == s3;
    assert [a, b, d][1..] == [b, d];
  }

  /** When nobody holds the metapage and the first listed page has room, an insert is
      done after reading the metapage once and writing that page: it never locks the
      metapage. */
  lemma FastPath(c: Config, s: State, p: Pid, t: BloomTuple)
    requires Inv(c, s) && Enabled(c, s, StartInsert(p, t)) && s.metaLock.None?
    requires s.meta.nStart < s.meta.nEnd && HasRoom(c, s.blocks[FirstListed(c, s)])
    ensures var steps := [StartInsert(p, t), ReadMeta(p), TryPage(p)];
            && Runnable(c, s, steps)
            && PutOn(s, Exec(c, s, steps), FirstListed(c, s), t) && Exec(c, s, steps).meta == s.meta
            && p !in Exec(c, s, steps).procs
  {
    var blk := FirstListed(c, s);
    var s1 := Do(c, s, StartInsert(p, t));
    var s2 := Do(c, s1, ReadMeta(p));
    hide Live, LockOk, Filled, VacuumPageEffect, ScanPageEffect, HasRoom, Runnable, Exec, ProcOk;
    assert s2.procs[p] == Try(t, blk) && s2.blocks == s.blocks && s2.meta == s.meta;
    RunThree(c, s, StartInsert(p, t), ReadMeta(p), TryPage(p));
    PlacePuts(c, s, p, blk, t, s.meta);
    assert Do(c, s2, TryPage(p)) == Place(s2, p, blk, t, s.meta);
    assert Place(s2, p, blk, t, s.meta).blocks == Place(s, p, blk, t, s.meta).blocks;
  }

  ghost function FirstListed(c: Config, s: State): (b: nat)
    requires Inv(c, s) && s.meta.nStart < s.meta.nEnd
    ensures DataBlock(s.blocks, b)
  {
    ListedIsData(c, s, s.meta.nStart);
    s.meta.notFull[s.meta.nStart]
  }

  /** The page takes no more tuples. */
  ghost predicate Full(c: Config, blocks: seq<Page>, b: nat) {
    b < |blocks| && blocks[b].Data? && !blocks[b].deleted && |blocks[b].tuples| == c.cap
  }

  /** The pages that an insert has found full, and does not try again, are full. */
  ghost predicate SeenFull(c: Config, s: State, r: Proc) {
    match r
    case WantMeta(_, tried) => tried.Some? ==> Full(c, s.blocks, tried.value)
    case Loop(_, n) => ListFull(c, s, n)
    case Alloc(_) => ListFull(c, s, s.meta.nEnd)
    case Extended(_, _) => ListFull(c, s, s.meta.nEnd)
    case _ => true
  }

  /** The listed pages before place n are full. */
  ghost predicate ListFull(c: Config, s: State, n: nat) {
    forall m :: s.meta.nStart <= m < n && m < |s.meta.notFull| ==> Full(c, s.blocks, s.meta.notFull[m])
  }

  ghost predicate AllSeenFull(c: Config, s: State) {
    forall p :: p in s.procs ==> SeenFull(c, s, s.procs[p])
  }

  lemma NoRoomIsFull(c: Config, s: State, b: nat)
    requires Inv(c, s) && 0 < b < |s.blocks| && !HasRoom(c, s.blocks[b])
    ensures Full(c, s.blocks, b)
  {
  }

  /** Full pages stay full in every step but that of a vacuum. */
  lemma FullStays(c: Config, s: State, step: Step, b: nat)
    requires Inv(c, s) && Enabled(c, s, step) && !step.VacuumPage? && Full(c, s.blocks, b)
    ensures Full(c, Do(c, s, step).blocks, b)
  {
    if step.FinishExtended? {
      assert ProcOk(c, s, s.procs[step.p]);
    }
  }

  lemma SeenFullMoves(c: Config, s: State, s': State, r: Proc, r': Proc)
    requires SeenFull(c, s, r) && Same(r, r') && (r.HoldsMeta() ==> s'.meta == s.meta)
    requires forall b: nat :: Full(c, s.blocks, b) ==> Full(c, s'.blocks, b)
    ensures SeenFull(c, s', r')
  {
    hide Full;
  }

  /** A step of somebody else. */
  lemma OthersSeenFull(c: Config, s: State, step: Step, i: Pid)
    requires Inv(c, s) && Enabled(c, s, step) && !step.VacuumPage? && i != step.p
    requires i in s.procs && SeenFull(c, s, s.procs[i])
    ensures var s' := Do(c, s, step); i in s'.procs && SeenFull(c, s', s'.procs[i])
  {
    hide Inv, Do, Enabled, Full, SeenFull;
    NotFullSize(c, s);
    var s' := Do(c, s, step);
    OthersUntouched(c, s, step, i);
    if s.procs[i].HoldsMeta() {
      MetaStays(c, s, step, i);
    }
    forall b: nat | Full(c, s.blocks, b)
      ensures Full(c, s'.blocks, b)
    {
      FullStays(c, s, step, b);
    }
    SeenFullMoves(c, s, s', s.procs[i], s'.procs[i]);
  }

  lemma TriedIsFull(c: Config, s: State, p: Pid)
    requires Inv(c, s) && Enabled(c, s, TryPage(p))
    ensures var s' := TryPageEffect(c, s, p); p in s'.procs ==> SeenFull(c, s', s'.procs[p])
  {
    assert ProcOk(c, s, s.procs[p]);
    if !HasRoom(c, s.blocks[s.procs[p].blk]) {
      NoRoomIsFull(c, s, s.procs[p].blk);
    }
  }

  lemma ListedIsFull(c: Config, s: State, p: Pid)
    requires Inv(c, s) && Enabled(c, s, TryListed(p)) && SeenFull(c, s, s.procs[p])
    ensures var s' := TryListedEffect(c, s, p); p in s'.procs ==> SeenFull(c, s', s'.procs[p])
  {
    var n := s.procs[p].next;
    ListedIsData(c, s, n);
    if !HasRoom(c, s.blocks[s.meta.notFull[n]]) {
      NoRoomIsFull(c, s, s.meta.notFull[n]);
    }
  }

  lemma LockedIsFull(c: Config, s: State, p: Pid)
    requires Inv(c, s) && Enabled(c, s, LockMeta(p)) && SeenFull(c, s, s.procs[p])
    ensures SeenFull(c, LockMetaEffect(s, p), LockMetaEffect(s, p).procs[p])
  {
  }

  lemma ExtendedIsFull(c: Config, s: State, p: Pid)
    requires Inv(c, s) && Enabled(c, s, Extend(p)) && SeenFull(c, s, s.procs[p])
    ensures var s' := Do(c, s, Extend(p)); SeenFull(c, s', s'.procs[p])
  {
    var s' := Do(c, s, Extend(p));
    forall b: nat | Full(c, s.blocks, b)
      ensures Full(c, s'.blocks, b)
    {
      FullStays(c, s, Extend(p), b);
    }
  }

  lemma OwnSeenFull(c: Config, s: State, step: Step)
    requires Inv(c, s) && Enabled(c, s, step) && !step.VacuumPage?
    requires step.p in s.procs ==> SeenFull(c, s, s.procs[step.p])
    ensures var s' := Do(c, s, step); step.p in s'.procs ==> SeenFull(c, s', s'.procs[step.p])
  {
    hide Live, ProcOk, PagesOk, MetaOk, LockOk, Full;
    match step
    case TryPage(p) => TriedIsFull(c, s, p);
    case TryListed(p) => ListedIsFull(c, s, p);
    case LockMeta(p) => LockedIsFull(c, s, p);
    case Extend(p) => ExtendedIsFull(c, s, p);
    case FinishExtended(p) => InsertEffect(c, s, step, s.procs[p].t);
    case _ =>
  }

  lemma SeenFullStep(c: Config, s: State, step: Step)
    requires Inv(c, s) && Enabled(c, s, step) && !step.VacuumPage? && AllSeenFull(c, s)
    ensures AllSeenFull(c, Do(c, s, step))
  {
    var s' := Do(c, s, step);
    forall i | i in s'.procs
      ensures SeenFull(c, s', s'.procs[i])
    {
      if i == step.p {
        OwnSeenFull(c, s, step);
      } else {
        OthersUntouched(c, s, step, i);
        OthersSeenFull(c, s, step, i);
      }
    }
  }

  lemma {:induction false} SeenFullRun(c: Config, s: State, steps: seq<Step>)
    requires Inv(c, s) && Runnable(c, s, steps) && AllSeenFull(c, s)
    requires forall i :: 0 <= i < |steps| ==> !steps[i].VacuumPage?
    ensures AllSeenFull(c, Exec(c, s, steps))
    decreases |steps|
  {
    if steps != [] {
      SeenFullStep(c, s, steps[0]);
      InvStep(c, s, steps[0]);
      SeenFullRun(c, Do(c, s, steps[0]), steps[1..]);
    }
  }

  /** As long as no vacuum makes room meanwhile, an insert looks for a new page only
      when every listed page holds as many tuples as fit. */
  lemma NewPageOnlyWhenFull(c: Config, s: State, steps: seq<Step>, p: Pid, m: nat)
    requires Inv(c, s) && Runnable(c, s, steps) && AllSeenFull(c, s)
    requires forall i :: 0 <= i < |steps| ==> !steps[i].VacuumPage?
    requires var s' := Exec(c, s, steps);
             && p in s'.procs && (s'.procs[p].Alloc? || s'.procs[p].Extended?)
             && s'.meta.nStart <= m < s'.meta.nEnd
    ensures var s' := Exec(c, s, steps);
            m < |s'.meta.notFull| && Full(c, s'.blocks, s'.meta.notFull[m])
  {
    RunSafe(c, s, steps);
    SeenFullRun(c, s, steps);
    var s' := Exec(c, s, steps);
    assert SeenFull(c, s', s'.procs[p]);
  }

  // ------------------------------------------------------------------ progress

  /** How many steps a process can still take. */
  ghost function Rank(c: Config, s: State, r: Proc): nat {
    match r
    case Start(_) => c.slots + 6
    case Try(_, _) => c.slots + 5
    case WantMeta(_, _) => c.slots + 4
    case Loop(_, n) => if n <= s.meta.nEnd then s.meta.nEnd - n + 3 else 3
    case Alloc(_) => 2
    case Extended(_, _) => 1
    case Vac(_, blk, npages, _, _) => if blk <= npages then npages - blk + 1 else 1
    case Scan(_, blk, npages, _, _) => if blk <= npages then npages - blk + 1 else 1
  }

  lemma VacuumAdvances(c: Config, s: State, p: Pid)
    requires Enabled(c, s, VacuumPage(p))
    ensures var s' := VacuumPageEffect(c, s, p);
            p in s'.procs && Rank(c, s', s'.procs[p]) < Rank(c, s, s.procs[p])
  {
    var v := VacuumPageEffect(c, s, p).procs[p];
    assert v.Vac? && v.blk == s.procs[p].blk + 1 && v.npages == s.procs[p].npages;
  }

  /** From where an insert goes where, as long as it does not end. */
  ghost predicate GoesTo(s: State, r: Proc, r': Proc) {
    match r
    case Start(_) => r'.Try? || r'.WantMeta?
    case Try(_, _) => r'.WantMeta?
    case WantMeta(_, _) => r'.Loop?
    case Loop(_, n) => if n < s.meta.nEnd then r'.Loop? && r'.next == n + 1 else r'.Alloc?
    case Alloc(_) => r'.Extended?
    case _ => false
  }

  lemma TryGoesTo(c: Config, s: State, p: Pid)
    requires Enabled(c, s, TryPage(p))
    ensures var s' := TryPageEffect(c, s, p);
            p in s'.procs ==> GoesTo(s, s.procs[p], s'.procs[p]) && s'.meta == s.meta
  {
    hide HasRoom, Filled;
  }

  lemma ListedGoesTo(c: Config, s: State, p: Pid)
    requires Enabled(c, s, TryListed(p))
    ensures var s' := TryListedEffect(c, s, p);
            p in s'.procs ==> GoesTo(s, s.procs[p], s'.procs[p]) && s'.meta == s.meta
  {
    hide HasRoom, Filled;
  }

  lemma InsertGoesTo(c: Config, s: State, step: Step)
    requires Inv(c, s) && Enabled(c, s, step) && step.p in s.procs && s.procs[step.p].Inserting()
    ensures var s' := Do(c, s, step);
            step.p in s'.procs ==> GoesTo(s, s.procs[step.p], s'.procs[step.p]) && s'.meta == s.meta
  {
    hide Inv, TryPageEffect, TryListedEffect, VacuumPageEffect, ScanPageEffect, ResetList, Filled, Live;
    InsertFacts(c, s, step.p);
    match step
    case TryPage(p) => TryGoesTo(c, s, p);
    case TryListed(p) => ListedGoesTo(c, s, p);
    case _ =>
  }

  lemma InsertAdvances(c: Config, s: State, step: Step)
    requires Inv(c, s) && Enabled(c, s, step) && step.p in s.procs && s.procs[step.p].Inserting()
    ensures var s' := Do(c, s, step);
            step.p in s'.procs ==> Rank(c, s', s'.procs[step.p]) < Rank(c, s, s.procs[step.p])
  {
    hide Inv, Do, Enabled;
    InsertFacts(c, s, step.p);
    InsertGoesTo(c, s, step);
  }

  lemma OwnStepAdvances(c: Config, s: State, step: Step)
    requires Inv(c, s) && Enabled(c, s, step) && step.p in s.procs
    ensures var s' := Do(c, s, step);
            step.p in s'.procs ==> Rank(c, s', s'.procs[step.p]) < Rank(c, s, s.procs[step.p])
  {
    assert ProcOk(c, s, s.procs[step.p]);
    if s.procs[step.p].Inserting() {
      InsertAdvances(c, s, step);
    } else {
      if step.VacuumPage? {
        VacuumAdvances(c, s, step.p);
      }
      hide Live, PagesOk, MetaOk, LockOk, ProcOk, Hits, VacuumPageEffect, OverwriteList;
    }
  }

  lemma OthersLeaveRank(c: Config, s: State, step: Step, p: Pid)
    requires Inv(c, s) && Enabled(c, s, step) && p in s.procs && p != step.p
    ensures var s' := Do(c, s, step); p in s'.procs && Rank(c, s', s'.procs[p]) == Rank(c, s, s.procs[p])
  {
    OthersUntouched(c, s, step, p);
    if s.procs[p].Loop? {
      MetaStays(c, s, step, p);
    }
    hide Do, Enabled;
  }

  /** The steps of p in the run. */
  ghost function OwnSteps(steps: seq<Step>, p: Pid): nat {
    if steps == [] then 0 else One(steps[0].p == p) + OwnSteps(steps[1..], p)
  }

  /** Process p is there in every state of the run. */
  ghost predicate Stays(c: Config, s: State, steps: seq<Step>, p: Pid)
    requires c.Valid() && Runnable(c, s, steps)
    decreases |steps|
  {
    p in s.procs && (steps == [] || Stays(c, Do(c, s, steps[0]), steps[1..], p))
  }

  /** No process can take more steps than its rank, however the others interleave:
      an insert at most slots + 6, a vacuum or scan one per page and one more. */
  lemma {:induction false} BoundedWork(c: Config, s: State, steps: seq<Step>, p: Pid)
    requires Inv(c, s) && Runnable(c, s, steps) && Stays(c, s, steps, p)
    ensures p in Exec(c, s, steps).procs
    ensures OwnSteps(steps, p) + Rank(c, Exec(c, s, steps), Exec(c, s, steps).procs[p]) <= Rank(c, s, s.procs[p])
    decreases |steps|
  {
    if steps != [] {
      InvStep(c, s, steps[0]);
      if steps[0].p == p {
        OwnStepAdvances(c, s, steps[0]);
      } else {
        OthersLeaveRank(c, s, steps[0], p);
      }
      BoundedWork(c, Do(c, s, steps[0]), steps[1..], p);
    }
  }

  /** The metapage is locked only by a process that is there to unlock it. */
  ghost predicate NoLeak(s: State) {
    s.metaLock.Some? ==> s.metaLock.value in s.procs && s.procs[s.metaLock.value].HoldsMeta()
  }

  lemma NoLeakStep(c: Config, s: State, step: Step)
    requires Inv(c, s) && Enabled(c, s, step) && NoLeak(s)
    ensures NoLeak(Do(c, s, step))
  {
    hide Inv, Live, HasRoom, Filled, Hits, VacuumPageEffect, ResetList, OverwriteList;
    if step.VacuumPage? {
      VacuumNoLeak(c, s, step.p);
    }
  }

  lemma VacuumNoLeak(c: Config, s: State, p: Pid)
    requires Enabled(c, s, VacuumPage(p)) && NoLeak(s)
    ensures NoLeak(VacuumPageEffect(c, s, p))
  {
  }

  lemma {:induction false} NoLeakRun(c: Config, s: State, steps: seq<Step>)
    requires Inv(c, s) && Runnable(c, s, steps) && NoLeak(s)
    ensures NoLeak(Exec(c, s, steps))
    decreases |steps|
  {
    if steps != [] {
      NoLeakStep(c, s, steps[0]);
      InvStep(c, s, steps[0]);
      NoLeakRun(c, Do(c, s, steps[0]), steps[1..]);
    }
  }

  /** The process waits for the metapage. */
  ghost predicate Waits(r: Proc) {
    r.Start? || r.WantMeta? || (r.Vac? && r.blk >= r.npages)
  }

  /** What a process does next, when it does not wait. */
  lemma CanStep(c: Config, s: State, p: Pid) returns (step: Step)
    requires Inv(c, s) && p in s.procs && (Waits(s.procs[p]) ==> s.metaLock.None?)
    ensures Enabled(c, s, step) && step.p == p && !step.Abort?
  {
    assert ProcOk(c, s, s.procs[p]);
    match s.procs[p]
    case Start(_) => step := ReadMeta(p);
    case Try(_, _) => step := TryPage(p);
    case WantMeta(_, _) => step := LockMeta(p);
    case Loop(_, n) => step := if n < s.meta.nEnd then TryListed(p) else GiveUpList(p);
    case Alloc(_) => step := Extend(p);
    case Extended(_, _) => step := FinishExtended(p);
    case Vac(_, blk, npages, _, _) => step := if blk < npages then VacuumPage(p) else VacuumMeta(p);
    case Scan(_, blk, npages, _, _) => step := if blk < npages then ScanPage(p) else FinishScan(p);
  }

  /** There is no deadlock: in every reachable state with a process some process can
      go on, and if one of them waits for the metapage, its holder can. */
  lemma NoDeadlock(c: Config, s: State, steps: seq<Step>) returns (step: Step)
    requires Inv(c, s) && Runnable(c, s, steps) && NoLeak(s) && Exec(c, s, steps).procs != map[]
    ensures var s' := Exec(c, s, steps);
            && Enabled(c, s', step) && !step.Abort? && step.p in s'.procs
            && (s'.metaLock.Some? ==> step.p == s'.metaLock.value)
  {
    RunSafe(c, s, steps);
    NoLeakRun(c, s, steps);
    var s' := Exec(c, s, steps);
    var p: Pid :| p in s'.procs;
    step := CanStep(c, s', if s'.metaLock.Some? then s'.metaLock.value else p);
  }
}
