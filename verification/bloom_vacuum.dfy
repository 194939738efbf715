/** What a vacuum achieves while inserters, scans and other vacuums run
    (contrib/bloom/blvacuum.c). */
module BloomVacuum {
  import opened BloomSign
  import opened BloomPages
  import opened BloomProtocol
  import opened BloomSafety

  ghost predicate RunsVacuum(s: State, p: Pid, dead: set<nat>) {
    p in s.procs && s.procs[p].Vac? && s.procs[p].dead == dead
  }

  // ------------------------------------------------------------ the new list

  /** The page holds tuples and has room for more. */
  ghost predicate HalfFull(c: Config, p: Page) {
    p.Data? && !p.deleted && 0 < |p.tuples| < c.cap
  }

  /** The blocks from 1 on and before n that are so, in order. */
  ghost function WithRoom(c: Config, blocks: seq<Page>, n: nat): seq<nat>
    requires n <= |blocks|
  {
    if n <= 1 then [] else WithRoom(c, blocks, n - 1) + if HalfFull(c, blocks[n - 1]) then [n - 1] else []
  }

  ghost predicate Ascending(l: seq<nat>) {
    forall i, j :: 0 <= i < j < |l| ==> l[i] < l[j]
  }

  lemma AscendingAppend(l: seq<nat>, b: nat)
    requires Ascending(l) && forall x :: x in l ==> x < b
    ensures Ascending(l + [b])
  {
    forall i | 0 <= i < |l|
      ensures l[i] < b
    {
      assert l[i] in l;
    }
  }

  lemma {:induction false} WithRoomIff(c: Config, blocks: seq<Page>, n: nat)
    requires n <= |blocks|
    ensures forall b :: b in WithRoom(c, blocks, n) <==> 1 <= b < n && HalfFull(c, blocks[b])
    ensures Ascending(WithRoom(c, blocks, n))
  {
    if n > 1 {
      WithRoomIff(c, blocks, n - 1);
      AscendingAppend(WithRoom(c, blocks, n - 1), n - 1);
    }
  }

  lemma {:induction false} WithRoomSame(c: Config, blocks: seq<Page>, blocks': seq<Page>, n: nat)
    requires n <= |blocks| && n <= |blocks'| && forall b :: 0 <= b < n ==> blocks[b] == blocks'[b]
    ensures WithRoom(c, blocks, n) == WithRoom(c, blocks', n)
  {
    if n > 1 {
      WithRoomSame(c, blocks, blocks', n - 1);
    }
  }

  function FirstOf(l: seq<nat>, n: nat): seq<nat> {
    if |l| <= n then l else l[..n]
  }

  /** The vacuum has gathered the first such blocks among those it has passed, as
      many as the metapage holds. */
  ghost predicate Gathered(c: Config, s: State, p: Pid) {
    && p in s.procs && s.procs[p].Vac? && 1 <= s.procs[p].blk
    && (s.procs[p].blk <= s.procs[p].npages <= |s.blocks| ==>
          s.procs[p].list == FirstOf(WithRoom(c, s.blocks, s.procs[p].blk), c.slots))
  }

  /** What a vacuum does to a page, as the gathering sees it. */
  lemma GatherEffect(c: Config, s: State, p: Pid)
    requires Inv(c, s) && Enabled(c, s, VacuumPage(p)) && 1 <= s.procs[p].blk
    ensures var s', blk := VacuumPageEffect(c, s, p), s.procs[p].blk;
            && blk < s.procs[p].npages <= |s'.blocks| == |s.blocks| && p in s'.procs && s'.procs[p].Vac?
            && (forall b :: 0 <= b < blk ==> s'.blocks[b] == s.blocks[b])
            && s'.procs[p].blk == blk + 1 && s'.procs[p].npages == s.procs[p].npages
            && s'.procs[p].list == if HalfFull(c, s'.blocks[blk]) && |s.procs[p].list| < c.slots
                                   then s.procs[p].list + [blk] else s.procs[p].list
  {
    assert ProcOk(c, s, s.procs[p]);
    hide Live, MetaOk, LockOk, ProcOk;
  }

  lemma GatherStep(c: Config, s: State, p: Pid)
    requires Inv(c, s) && Enabled(c, s, VacuumPage(p)) && Gathered(c, s, p)
    ensures Gathered(c, VacuumPageEffect(c, s, p), p)
    ensures |VacuumPageEffect(c, s, p).blocks| == |s.blocks|
    ensures VacuumPageEffect(c, s, p).procs[p].npages == s.procs[p].npages
  {
    hide Inv, Live, VacuumPageEffect, FirstOf, HalfFull;
    var s', blk := VacuumPageEffect(c, s, p), s.procs[p].blk;
    GatherEffect(c, s, p);
    WithRoomSame(c, s.blocks, s'.blocks, blk);
    FirstOfAppend(WithRoom(c, s.blocks, blk), blk, c.slots);
    assert WithRoom(c, s'.blocks, blk + 1)
        == WithRoom(c, s'.blocks, blk) + if HalfFull(c, s'.blocks[blk]) then [blk] else [];
  }

  lemma FirstOfAppend(l: seq<nat>, b: nat, n: nat)
    ensures FirstOf(l + [b], n) == if |FirstOf(l, n)| < n then FirstOf(l, n) + [b] else FirstOf(l, n)
    ensures l + [] == l
  {
  }

  lemma {:induction false} GatherRun(c: Config, s: State, steps: seq<Step>, p: Pid)
    requires Inv(c, s) && Runnable(c, s, steps) && Gathered(c, s, p)
    requires forall i :: 0 <= i < |steps| ==> steps[i] == VacuumPage(p)
    ensures var s' := Exec(c, s, steps);
            Gathered(c, s', p) && |s'.blocks| == |s.blocks| && s'.procs[p].npages == s.procs[p].npages
    decreases |steps|
  {
    if steps != [] {
      GatherStep(c, s, p);
      InvStep(c, s, steps[0]);
      GatherRun(c, Do(c, s, steps[0]), steps[1..], p);
    }
  }

  /** After a vacuum that runs by itself, the list of pages with room is exactly the
      blocks that hold tuples and have room for more, in order, cut off where the
      metapage is full. */
  lemma VacuumListsRoom(c: Config, s: State, p: Pid, dead: set<nat>, steps: seq<Step>)
    requires Inv(c, s) && Enabled(c, s, StartVacuum(p, dead))
    requires Runnable(c, Do(c, s, StartVacuum(p, dead)), steps)
    requires forall i :: 0 <= i < |steps| ==> steps[i] == VacuumPage(p)
    requires |steps| == |s.blocks| - 1
    requires Enabled(c, Exec(c, Do(c, s, StartVacuum(p, dead)), steps), VacuumMeta(p))
    ensures var s1 := Exec(c, Do(c, s, StartVacuum(p, dead)), steps);
            |s1.meta.notFull| == c.slots &&
            var s' := Do(c, s1, VacuumMeta(p));
            && |s'.blocks| == |s.blocks| && s'.meta.nStart == 0 && s'.meta.nEnd <= |s'.meta.notFull|
            && s'.meta.notFull[..s'.meta.nEnd] == FirstOf(WithRoom(c, s'.blocks, |s'.blocks|), c.slots)
  {
    var s0 := Do(c, s, StartVacuum(p, dead));
    InvStep(c, s, StartVacuum(p, dead));
    GatherRun(c, s0, steps, p);
    RunSafe(c, s0, steps);
    GatherEnds(c, s0, steps, p);
    ListWritten(c, Exec(c, s0, steps), p);
    hide Live, Enabled, WithRoom, ProcOk, PagesOk;
  }

  lemma ListWritten(c: Config, s: State, p: Pid)
    requires Inv(c, s) && Enabled(c, s, VacuumMeta(p))
    ensures var s' := Do(c, s, VacuumMeta(p));
            && s'.blocks == s.blocks && s'.meta.nStart == 0 && s'.meta.nEnd <= |s'.meta.notFull|
            && s'.meta.notFull[..s'.meta.nEnd] == s.procs[p].list
  {
    assert ProcOk(c, s, s.procs[p]);
    var list := s.procs[p].list;
    assert (list + s.meta.notFull[|list|..])[..|list|] == list;
  }

  /** Every step takes the vacuum one block further. */
  lemma {:induction false} GatherEnds(c: Config, s: State, steps: seq<Step>, p: Pid)
    requires Inv(c, s) && Runnable(c, s, steps) && p in s.procs && s.procs[p].Vac?
    requires forall i :: 0 <= i < |steps| ==> steps[i] == VacuumPage(p)
    ensures var s' := Exec(c, s, steps); p in s'.procs && s'.procs[p].Vac? && s'.procs[p].blk == s.procs[p].blk + |steps|
    decreases |steps|
  {
    if steps != [] {
      assert VacuumPageEffect(c, s, p).procs[p].Vac? && VacuumPageEffect(c, s, p).procs[p].blk == s.procs[p].blk + 1;
      InvStep(c, s, steps[0]);
      GatherEnds(c, Do(c, s, steps[0]), steps[1..], p);
    }
  }

  // -------------------------------------------------------------- dead tuples

  ghost predicate NoDead(p: Page, dead: set<nat>) {
    forall t :: t in Tuples(p) ==> t.heapPtr !in dead
  }

  /** A block the vacuum has passed, or that appeared after it started. */
  ghost predicate Passed(v: Proc, b: nat)
    requires v.Vac?
  {
    b < v.blk || v.npages <= b
  }

  /** The vacuum p is running, no block that it has passed holds a dead tuple, and
      no insert is under way that would bring one. */
  ghost predicate Swept(s: State, p: Pid, dead: set<nat>) {
    && RunsVacuum(s, p, dead)
    && (forall b :: 0 <= b < |s.blocks| && Passed(s.procs[p], b) ==> NoDead(s.blocks[b], dead))
    && (forall i :: i in s.procs && s.procs[i].Inserting() ==> s.procs[i].t.heapPtr !in dead)
  }

  /** The step does not begin the insert of a dead heap pointer. */
  ghost predicate BringsNoDead(step: Step, dead: set<nat>) {
    step.StartInsert? ==> step.t.heapPtr !in dead
  }

  ghost predicate BringNoDead(steps: seq<Step>, dead: set<nat>) {
    forall i :: 0 <= i < |steps| ==> BringsNoDead(steps[i], dead)
  }

  /** The new pages hold no tuples but those of the old ones and that of an
      inserting process. */
  ghost predicate NothingElse(s: State, blocks: seq<Page>) {
    && |s.blocks| <= |blocks|
    && forall b, u :: 0 <= b < |blocks| && u in Tuples(blocks[b]) ==>
         (b < |s.blocks| && u in Tuples(s.blocks[b])) || OfInserter(s, u)
  }

  ghost predicate OfInserter(s: State, u: BloomTuple) {
    exists i :: i in s.procs && s.procs[i].Inserting() && s.procs[i].t == u
  }

  lemma UpdateAdds(s: State, blk: nat, page: Page)
    requires blk < |s.blocks|
    requires forall u :: u in Tuples(page) ==> u in Tuples(s.blocks[blk]) || OfInserter(s, u)
    ensures NothingElse(s, s.blocks[blk := page])
  {
  }

  lemma FilledAdds(s: State, p: Pid, blk: nat)
    requires p in s.procs && s.procs[p].Inserting() && blk < |s.blocks| && !s.blocks[blk].MetaPage?
    ensures NothingElse(s, s.blocks[blk := Filled(s.blocks[blk], s.procs[p].t)])
    ensures NothingElse(s, s.blocks[blk := Data(false, [s.procs[p].t])])
  {
    assert OfInserter(s, s.procs[p].t);
    UpdateAdds(s, blk, Filled(s.blocks[blk], s.procs[p].t));
    UpdateAdds(s, blk, Data(false, [s.procs[p].t]));
  }

  lemma VacuumedMembers(page: Page, dead: set<nat>)
    requires page.Data?
    ensures forall u :: u in Tuples(Vacuumed(page, dead)) ==> u in Tuples(page) && u.heapPtr !in dead
  {
    forall u | u in Tuples(Vacuumed(page, dead))
      ensures u in Tuples(page) && u.heapPtr !in dead
    {
      VacuumMembers(Tuples(page), dead, u);
    }
  }

  lemma StepAdds(c: Config, s: State, step: Step)
    requires c.Valid() && |s.meta.notFull| == c.slots && Enabled(c, s, step)
    ensures NothingElse(s, Do(c, s, step).blocks)
  {
    match step
    case TryPage(p) =>
      if HasRoom(c, s.blocks[s.procs[p].blk]) {
        FilledAdds(s, p, s.procs[p].blk);
      }
    case TryListed(p) =>
      var n := s.procs[p].next;
      if n < |s.meta.notFull| && s.meta.notFull[n] < |s.blocks| && HasRoom(c, s.blocks[s.meta.notFull[n]]) {
        FilledAdds(s, p, s.meta.notFull[n]);
      }
    case Recycle(p, blk) => FilledAdds(s, p, blk);
    case FinishExtended(p) =>
      if s.procs[p].blk < |s.blocks| && !s.blocks[s.procs[p].blk].MetaPage? {
        FilledAdds(s, p, s.procs[p].blk);
      }
    case VacuumPage(p) =>
      var blk := s.procs[p].blk;
      if blk < |s.blocks| && s.blocks[blk].Data? {
        VacuumedMembers(s.blocks[blk], s.procs[p].dead);
        UpdateAdds(s, blk, Vacuumed(s.blocks[blk], s.procs[p].dead));
      }
    case _ =>
  }

  /** An insert that is under way after a step was under way before, or begins with it. */
  lemma StepInserts(c: Config, s: State, step: Step, dead: set<nat>)
    requires c.Valid() && |s.meta.notFull| == c.slots && Enabled(c, s, step) && BringsNoDead(step, dead)
    requires forall i :: i in s.procs && s.procs[i].Inserting() ==> s.procs[i].t.heapPtr !in dead
    ensures var s' := Do(c, s, step);
            forall i :: i in s'.procs && s'.procs[i].Inserting() ==> s'.procs[i].t.heapPtr !in dead
  {
    hide Live, HasRoom, Filled, Hits, Vacuumed, Casualties, ResetList, OverwriteList;
  }

  lemma KeepsNoDead(s: State, blocks: seq<Page>, b: nat, dead: set<nat>)
    requires NothingElse(s, blocks) && b < |blocks|
    requires forall i :: i in s.procs && s.procs[i].Inserting() ==> s.procs[i].t.heapPtr !in dead
    requires b < |s.blocks| ==> NoDead(s.blocks[b], dead)
    ensures NoDead(blocks[b], dead)
  {
    forall u | u in Tuples(blocks[b])
      ensures u.heapPtr !in dead
    {
      if OfInserter(s, u) {
        var i :| i in s.procs && s.procs[i].Inserting() && s.procs[i].t == u;
      }
    }
  }

  /** The page that the vacuum is on has no dead tuple after its step. */
  lemma PassesNoDead(c: Config, s: State, p: Pid)
    requires Inv(c, s) && Enabled(c, s, VacuumPage(p)) && s.procs[p].blk < |s.blocks|
    ensures NoDead(VacuumPageEffect(c, s, p).blocks[s.procs[p].blk], s.procs[p].dead)
  {
    if s.blocks[s.procs[p].blk].Data? {
      VacuumedMembers(s.blocks[s.procs[p].blk], s.procs[p].dead);
    }
  }

  lemma SweptStep(c: Config, s: State, p: Pid, dead: set<nat>, step: Step)
    requires Inv(c, s) && Enabled(c, s, step) && Swept(s, p, dead)
    requires !Ends(step, p) && BringsNoDead(step, dead)
    ensures Swept(Do(c, s, step), p, dead)
  {
    var s' := Do(c, s, step);
    StepAdds(c, s, step);
    StepInserts(c, s, step, dead);
    if step == VacuumPage(p) {
      OwnStep(c, s, p);
    } else {
      OthersLeaveVacuum(c, s, p, step);
    }
    forall b | 0 <= b < |s'.blocks| && Passed(s'.procs[p], b)
      ensures NoDead(s'.blocks[b], dead)
    {
      if step == VacuumPage(p) && b == s.procs[p].blk {
        PassesNoDead(c, s, p);
      } else {
        assert Passed(s.procs[p], b);
        KeepsNoDead(s, s'.blocks, b, dead);
      }
    }
  }

  /** Only its own page step moves a vacuum on. */
  lemma OthersLeaveVacuum(c: Config, s: State, p: Pid, step: Step)
    requires c.Valid() && |s.meta.notFull| == c.slots && Enabled(c, s, step)
    requires p in s.procs && s.procs[p].Vac? && !Ends(step, p) && step != VacuumPage(p)
    ensures p in Do(c, s, step).procs && Do(c, s, step).procs[p] == s.procs[p]
  {
  }

  lemma OwnStep(c: Config, s: State, p: Pid)
    requires p in s.procs && s.procs[p].Vac? && s.procs[p].blk < s.procs[p].npages
    ensures var r, s' := s.procs[p], VacuumPageEffect(c, s, p);
            && p in s'.procs && s'.procs[p].Vac? && s'.procs[p].dead == r.dead
            && s'.procs[p].npages == r.npages && s'.procs[p].blk == r.blk + 1
            && s.removed <= s'.removed && s'.procs[p].gone == r.gone + |s'.removed - s.removed|
  {
    var Vac(dead, blk, npages, list, gone) := s.procs[p];
    if !(blk >= |s.blocks| || !s.blocks[blk].Data? || s.blocks[blk].deleted) {
      var lost := Casualties(s.blocks[blk].tuples, dead);
      assert (s.removed + multiset(lost)) - s.removed == multiset(lost);
    }
  }

  lemma {:induction false} SweptRun(c: Config, s: State, p: Pid, dead: set<nat>, steps: seq<Step>)
    requires Inv(c, s) && Runnable(c, s, steps) && KeepsAlive(steps, p) && BringNoDead(steps, dead)
    requires Swept(s, p, dead)
    ensures Swept(Exec(c, s, steps), p, dead)
    decreases |steps|
  {
    if steps != [] {
      assert !Ends(steps[0], p) && BringsNoDead(steps[0], dead);
      SweptStep(c, s, p, dead, steps[0]);
      InvStep(c, s, steps[0]);
      SweptRun(c, Do(c, s, steps[0]), p, dead, steps[1..]);
    }
  }

  lemma SweptStart(c: Config, s: State, p: Pid, dead: set<nat>)
    requires Inv(c, s) && Enabled(c, s, StartVacuum(p, dead))
    requires forall i :: i in s.procs && s.procs[i].Inserting() ==> s.procs[i].t.heapPtr !in dead
    ensures Swept(Do(c, s, StartVacuum(p, dead)), p, dead)
  {
  }

  lemma SweptEnd(s: State, p: Pid, dead: set<nat>, t: BloomTuple)
    requires Swept(s, p, dead) && s.procs[p].blk >= s.procs[p].npages && t in Live(s.blocks)
    ensures t.heapPtr !in dead
  {
    LiveMember(s.blocks, t);
    var b :| 0 <= b < |s.blocks| && t in Tuples(s.blocks[b]);
    assert Passed(s.procs[p], b);
  }

  /** A vacuum keeps its promise against any interleaving in which no dead heap
      pointer is being inserted or comes to be: when it rewrites the metapage, no
      live entry anywhere points to a dead heap tuple, not even on pages added or
      recycled since it started. */
  lemma VacuumLeavesNoDead(c: Config, s: State, p: Pid, dead: set<nat>, steps: seq<Step>, t: BloomTuple)
    requires Inv(c, s) && Enabled(c, s, StartVacuum(p, dead))
    requires forall i :: i in s.procs && s.procs[i].Inserting() ==> s.procs[i].t.heapPtr !in dead
    requires Runnable(c, Do(c, s, StartVacuum(p, dead)), steps) && KeepsAlive(steps, p) && BringNoDead(steps, dead)
    requires Enabled(c, Exec(c, Do(c, s, StartVacuum(p, dead)), steps), VacuumMeta(p))
    requires t in Live(Exec(c, Do(c, s, StartVacuum(p, dead)), steps).blocks)
    ensures t.heapPtr !in dead
  {
    var s0 := Do(c, s, StartVacuum(p, dead));
    InvStep(c, s, StartVacuum(p, dead));
    SweptStart(c, s, p, dead);
    SweptRun(c, s0, p, dead, steps);
    SweptEnd(Exec(c, s0, steps), p, dead, t);
  }

  // ------------------------------------------------------------- what it counts

  /** The tuples that page steps of p, or with mine false of the other vacuums,
      remove in a run. */
  ghost function Lost(c: Config, s: State, p: Pid, mine: bool, steps: seq<Step>): multiset<BloomTuple>
    requires c.Valid() && Runnable(c, s, steps)
    decreases |steps|
  {
    if steps == [] then multiset{}
    else
      var s' := Do(c, s, steps[0]);
      (if (steps[0] == VacuumPage(p)) == mine then s'.removed - s.removed else multiset{}) + Lost(c, s', p, mine, steps[1..])
  }

  lemma StepRemoves(c: Config, s: State, step: Step)
    requires c.Valid() && |s.meta.notFull| == c.slots && Enabled(c, s, step)
    ensures s.removed <= Do(c, s, step).removed
  {
  }

  lemma StepCounts(c: Config, s: State, p: Pid, dead: set<nat>, step: Step)
    requires c.Valid() && |s.meta.notFull| == c.slots && Enabled(c, s, step)
    requires !Ends(step, p) && RunsVacuum(s, p, dead)
    ensures RunsVacuum(Do(c, s, step), p, dead)
    ensures var s' := Do(c, s, step);
            s'.procs[p].gone == s.procs[p].gone + (if step == VacuumPage(p) then |s'.removed - s.removed| else 0)
  {
    if step == VacuumPage(p) {
      OwnStep(c, s, p);
    } else {
      OthersLeaveVacuum(c, s, p, step);
    }
  }

  /** What a vacuum reports at its end, tuples_removed, is the number of tuples that
      its own page steps removed in the whole run; with those of the other vacuums
      they are all that was removed. */
  lemma {:induction false} VacuumReports(c: Config, s: State, p: Pid, dead: set<nat>, steps: seq<Step>)
    requires c.Valid() && Runnable(c, s, steps) && KeepsAlive(steps, p) && RunsVacuum(s, p, dead)
    ensures RunsVacuum(Exec(c, s, steps), p, dead)
    ensures Exec(c, s, steps).procs[p].gone == s.procs[p].gone + |Lost(c, s, p, true, steps)|
    ensures Exec(c, s, steps).removed == s.removed + Lost(c, s, p, true, steps) + Lost(c, s, p, false, steps)
    decreases |steps|
  {
    if steps != [] {
      assert !Ends(steps[0], p);
      StepCounts(c, s, p, dead, steps[0]);
      StepRemoves(c, s, steps[0]);
      VacuumReports(c, Do(c, s, steps[0]), p, dead, steps[1..]);
    }
  }

  // ------------------------------------------------------------ living tuples

  /** No vacuum that is running has the pointer of t among the dead. */
  ghost predicate Spared(s: State, t: BloomTuple) {
    forall p :: p in s.procs && s.procs[p].Vac? ==> t.heapPtr !in s.procs[p].dead
  }

  ghost predicate Spares(step: Step, t: BloomTuple) {
    step.StartVacuum? ==> t.heapPtr !in step.dead
  }

  lemma PageSpares(c: Config, s: State, p: Pid, t: BloomTuple)
    requires Inv(c, s) && Enabled(c, s, VacuumPage(p)) && Spared(s, t)
    ensures var s' := VacuumPageEffect(c, s, p); s'.removed[t] == s.removed[t] && Spared(s', t)
  {
    var r := s.procs[p];
    if r.blk < |s.blocks| && s.blocks[r.blk].Data? {
      VacuumMembers(s.blocks[r.blk].tuples, r.dead, t);
    }
  }

  lemma SpareStep(c: Config, s: State, step: Step, t: BloomTuple)
    requires Inv(c, s) && Enabled(c, s, step) && Spared(s, t) && Spares(step, t)
    ensures var s' := Do(c, s, step); s'.removed[t] == s.removed[t] && Spared(s', t)
  {
    hide Live, ProcOk, PagesOk, MetaOk, LockOk;
    if step.VacuumPage? {
      PageSpares(c, s, step.p, t);
    }
  }

  /** A tuple whose heap pointer no vacuum was told to be dead is never removed: it
      stays in the index as often as it was there. */
  lemma {:induction false} LivingStay(c: Config, s: State, steps: seq<Step>, t: BloomTuple)
    requires Inv(c, s) && Runnable(c, s, steps) && Spared(s, t)
    requires forall i :: 0 <= i < |steps| ==> Spares(steps[i], t)
    ensures Exec(c, s, steps).removed[t] == s.removed[t]
    ensures Live(Exec(c, s, steps).blocks)[t] >= Live(s.blocks)[t]
    decreases |steps|
  {
    if steps != [] {
      SpareStep(c, s, steps[0], t);
      InvStep(c, s, steps[0]);
      InsertedStays(c, s, steps[0], t);
      LivingStay(c, Do(c, s, steps[0]), steps[1..], t);
    }
  }

  lemma InsertedStays(c: Config, s: State, step: Step, t: BloomTuple)
    requires Inv(c, s) && Enabled(c, s, step)
    ensures s.inserted[t] <= Do(c, s, step).inserted[t]
  {
    hide Live, ProcOk, PagesOk, MetaOk, LockOk;
    if step.VacuumPage? {
      assert VacuumPageEffect(c, s, step.p).inserted == s.inserted;
    }
  }
}
