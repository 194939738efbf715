/** The bloom index under concurrency: inserters, vacuums and scans as
    processes whose page-locked critical sections are atomic steps
    (contrib/bloom/blinsert.c, blvacuum.c, blscan.c, blutils.c).

    The free space map is not part of the state.  It is not logged and may be
    stale, so it is allowed to offer any block at all. */
module BloomProtocol {
  import opened Wrappers
  import opened BloomSign
  import opened BloomPages

  type Pid = nat

  /** Tuples per page, slots in the not-full list, words per signature. */
  datatype Config = Config(cap: nat, slots: nat, words: nat) {
    ghost predicate Valid() {
      cap >= 1 && slots >= 1
    }
  }

  datatype Meta = Meta(nStart: nat, nEnd: nat, notFull: seq<nat>)

  /** What a process has in its local variables between two steps.
      Insert: `Start` before reading the metapage, `Try` with a block to try
      and no lock, `WantMeta` before the exclusive metapage lock, then with
      that lock held `Loop`, `Alloc` in the recycling loop of BloomNewBuffer, and
      `Extended` with a fresh block of the file not yet locked.
      Vacuum: the next block, the file length read at the start, the list
      being collected, the number of tuples removed.
      Scan: the next block, the file length, the pointers found; `must` is the
      obligation of the scan, the matching tuples present ever since it began. */
  datatype Proc =
    | Start(t: BloomTuple)
    | Try(t: BloomTuple, blk: nat)
    | WantMeta(t: BloomTuple, tried: Option<nat>)
    | Loop(t: BloomTuple, next: nat)
    | Alloc(t: BloomTuple)
    | Extended(t: BloomTuple, blk: nat)
    | Vac(dead: set<nat>, blk: nat, npages: nat, list: seq<nat>, gone: nat)
    | Scan(q: Sign, blk: nat, npages: nat, found: set<nat>, must: set<BloomTuple>)
  {
    predicate Inserting() {
      !Vac? && !Scan?
    }

    predicate HoldsMeta() {
      Loop? || Alloc? || Extended?
    }
  }

  datatype State = State(
    blocks: seq<Page>,
    meta: Meta,
    metaLock: Option<Pid>,
    procs: map<Pid, Proc>,
    inserted: multiset<BloomTuple>,
    removed: multiset<BloomTuple>)

  datatype Step =
    | StartInsert(p: Pid, t: BloomTuple)
    | ReadMeta(p: Pid)
    | TryPage(p: Pid)
    | LockMeta(p: Pid)
    | TryListed(p: Pid)
    | GiveUpList(p: Pid)
    | Recycle(p: Pid, blk: nat)
    | Extend(p: Pid)
    | FinishExtended(p: Pid)
    | Abort(p: Pid)
    | StartVacuum(p: Pid, dead: set<nat>)
    | VacuumPage(p: Pid)
    | VacuumMeta(p: Pid)
    | StartScan(p: Pid, q: Sign)
    | ScanPage(p: Pid)
    | FinishScan(p: Pid)

  ghost predicate HasRoom(c: Config, p: Page) {
    Reusable(p) || (p.Data? && |p.tuples| < c.cap)
  }

  ghost predicate Hits(t: BloomTuple, q: Sign) {
    |t.sign| == |q| && Matches(t.sign, q)
  }

  /** The tuples of all live pages, as a bag. */
  ghost function Live(blocks: seq<Page>): multiset<BloomTuple> {
    if blocks == [] then multiset{}
    else Live(blocks[..|blocks| - 1]) + multiset(Tuples(blocks[|blocks| - 1]))
  }

  /** The not-full list is reset to one freshly filled block. */
  function ResetList(m: Meta, blk: nat): Meta
    requires |m.notFull| > 0
  {
    Meta(0, 1, m.notFull[0 := blk])
  }

  /** The collected list overwrites the front of the array. */
  function OverwriteList(m: Meta, list: seq<nat>): Meta
    requires |list| <= |m.notFull|
  {
    Meta(0, |list|, list + m.notFull[|list|..])
  }

  /** When a step may be taken.  Locks appear here: reading the metapage needs
      that nobody holds it exclusively. */
  ghost predicate Enabled(c: Config, s: State, step: Step) {
    match step
    case StartInsert(p, t) => p !in s.procs && |t.sign| == c.words
    case ReadMeta(p) => p in s.procs && s.procs[p].Start? && s.metaLock.None?
    case TryPage(p) => p in s.procs && s.procs[p].Try? && s.procs[p].blk < |s.blocks|
    case LockMeta(p) => p in s.procs && s.procs[p].WantMeta? && s.metaLock.None?
    case TryListed(p) => p in s.procs && s.procs[p].Loop? && s.procs[p].next < s.meta.nEnd
    case GiveUpList(p) => p in s.procs && s.procs[p].Loop? && s.procs[p].next >= s.meta.nEnd
    case Recycle(p, blk) => p in s.procs && s.procs[p].Alloc? && blk < |s.blocks| && Reusable(s.blocks[blk])
    case Extend(p) => p in s.procs && s.procs[p].Alloc?
    case FinishExtended(p) => p in s.procs && s.procs[p].Extended?
    case Abort(p) => p in s.procs
    case StartVacuum(p, dead) => p !in s.procs
    case VacuumPage(p) => p in s.procs && s.procs[p].Vac? && s.procs[p].blk < s.procs[p].npages
    case VacuumMeta(p) => p in s.procs && s.procs[p].Vac? && s.procs[p].blk >= s.procs[p].npages && s.metaLock.None?
    case StartScan(p, q) => p !in s.procs && |q| == c.words
    case ScanPage(p) => p in s.procs && s.procs[p].Scan? && s.procs[p].blk < s.procs[p].npages
    case FinishScan(p) => p in s.procs && s.procs[p].Scan? && s.procs[p].blk >= s.procs[p].npages
  }

  ghost function Goto(s: State, p: Pid, to: Proc): State {
    s.(procs := s.procs[p := to])
  }

  ghost function Leave(s: State, p: Pid): State {
    s.(procs := s.procs - {p}, metaLock := if s.metaLock == Some(p) then None else s.metaLock)
  }

  /** The tuple goes onto the block and the insert returns. */
  ghost function Place(s: State, p: Pid, blk: nat, t: BloomTuple, meta: Meta): State
    requires blk < |s.blocks| && !s.blocks[blk].MetaPage?
  {
    Leave(s, p).(
    blocks := s.blocks[blk := Filled(s.blocks[blk], t)],
    meta := meta,
    inserted := s.inserted + multiset{t})
  }

  ghost function ReadMetaEffect(s: State, p: Pid): State
    requires p in s.procs && s.procs[p].Start?
  {
    var t := s.procs[p].t;
    if s.meta.nEnd > s.meta.nStart && s.meta.nStart < |s.meta.notFull|
    then Goto(s, p, Try(t, s.meta.notFull[s.meta.nStart]))
    else Goto(s, p, WantMeta(t, None))
  }

  ghost function TryPageEffect(c: Config, s: State, p: Pid): State
    requires p in s.procs && s.procs[p].Try? && s.procs[p].blk < |s.blocks|
  {
    var Try(t, blk) := s.procs[p];
    if HasRoom(c, s.blocks[blk]) then Place(s, p, blk, t, s.meta)
    else Goto(s, p, WantMeta(t, Some(blk)))
  }

  ghost function LockMetaEffect(s: State, p: Pid): State
    requires p in s.procs && s.procs[p].WantMeta?
  {
    var WantMeta(t, tried) := s.procs[p];
    var n := s.meta.nStart;
    var skip := n < s.meta.nEnd && n < |s.meta.notFull| && tried == Some(s.meta.notFull[n]);
    Goto(s, p, Loop(t, if skip then n + 1 else n)).(metaLock := Some(p))
  }

  ghost function TryListedEffect(c: Config, s: State, p: Pid): State
    requires p in s.procs && s.procs[p].Loop?
  {
    var Loop(t, n) := s.procs[p];
    if n < |s.meta.notFull| && s.meta.notFull[n] < |s.blocks| && HasRoom(c, s.blocks[s.meta.notFull[n]])
    then Place(s, p, s.meta.notFull[n], t, s.meta.(nStart := n))
    else Goto(s, p, Loop(t, n + 1))
  }

  ghost function VacuumPageEffect(c: Config, s: State, p: Pid): State
    requires p in s.procs && s.procs[p].Vac? && s.procs[p].blk < s.procs[p].npages
  {
    var Vac(dead, blk, npages, list, gone) := s.procs[p];
    if blk >= |s.blocks| || !s.blocks[blk].Data? || s.blocks[blk].deleted
    then Goto(s, p, Vac(dead, blk + 1, npages, list, gone))
    else
      var page := Vacuumed(s.blocks[blk], dead);
      var lost := Casualties(s.blocks[blk].tuples, dead);
      var listed := 0 < |page.tuples| < c.cap && |list| < c.slots;
      var procs := s.procs[p := Vac(dead, blk + 1, npages, if listed then list + [blk] else list, gone + |lost|)];
      s.(blocks := s.blocks[blk := page],
      procs := Discharge(procs, lost),
      removed := s.removed + multiset(lost))
  }

  /** Tuples a vacuum removes are no longer owed by any running scan. */
  ghost function Discharge(procs: map<Pid, Proc>, lost: seq<BloomTuple>): map<Pid, Proc> {
    map i | i in procs ::
      if procs[i].Scan? then procs[i].(must := set t | t in procs[i].must && t !in lost) else procs[i]
  }

  ghost function ScanPageEffect(s: State, p: Pid): State
    requires p in s.procs && s.procs[p].Scan? && s.procs[p].blk < s.procs[p].npages
  {
    var Scan(q, blk, npages, found, must) := s.procs[p];
    var hits := if blk < |s.blocks|
      then (set t | t in Tuples(s.blocks[blk]) && Hits(t, q) :: t.heapPtr) else {};
    Goto(s, p, Scan(q, blk + 1, npages, found + hits, must))
  }

  ghost function Do(c: Config, s: State, step: Step): State
    requires Enabled(c, s, step) && c.Valid() && |s.meta.notFull| == c.slots
  {
    match step
    case StartInsert(p, t) => Goto(s, p, Start(t))
    case ReadMeta(p) => ReadMetaEffect(s, p)
    case TryPage(p) => TryPageEffect(c, s, p)
    case LockMeta(p) => LockMetaEffect(s, p)
    case TryListed(p) => TryListedEffect(c, s, p)
    case GiveUpList(p) => Goto(s, p, Alloc(s.procs[p].t))
    case Recycle(p, blk) => Place(s, p, blk, s.procs[p].t, ResetList(s.meta, blk))
    case Extend(p) => Goto(s, p, Extended(s.procs[p].t, |s.blocks|)).(blocks := s.blocks + [New])
    case FinishExtended(p) =>
      var Extended(t, blk) := s.procs[p];
      if blk < |s.blocks| && !s.blocks[blk].MetaPage? then
        // the source initialises the page without looking at it
        Leave(s, p).(
        blocks := s.blocks[blk := Data(false, [t])],
        meta := ResetList(s.meta, blk),
        inserted := s.inserted + multiset{t})
      else s
    case Abort(p) => Leave(s, p)
    case StartVacuum(p, dead) => Goto(s, p, Vac(dead, 1, |s.blocks|, [], 0))
    case VacuumPage(p) => VacuumPageEffect(c, s, p)
    case VacuumMeta(p) =>
      if |s.procs[p].list| <= c.slots
      then Leave(s, p).(meta := OverwriteList(s.meta, s.procs[p].list))
      else s
    case StartScan(p, q) =>
      Goto(s, p, Scan(q, 1, |s.blocks|, {}, set t | t in Live(s.blocks) && Hits(t, q)))
    case ScanPage(p) => ScanPageEffect(s, p)
    case FinishScan(p) => Leave(s, p)
  }

  // ---------------------------------------------------------------- invariant

  ghost predicate PagesOk(c: Config, blocks: seq<Page>) {
    && |blocks| >= 1 && blocks[0].MetaPage?
    && forall i :: 0 < i < |blocks| ==> !blocks[i].MetaPage? && WellFormedPage(c.cap, blocks[i])
  }

  ghost predicate DataBlock(blocks: seq<Page>, b: nat) {
    b < |blocks| && blocks[b].Data?
  }

  ghost predicate AllData(blocks: seq<Page>, list: seq<nat>) {
    forall i :: 0 <= i < |list| ==> DataBlock(blocks, list[i])
  }

  ghost predicate MetaOk(c: Config, blocks: seq<Page>, m: Meta) {
    m.nStart <= m.nEnd <= |m.notFull| == c.slots && AllData(blocks, m.notFull[..m.nEnd])
  }

  ghost predicate Owed(blocks: seq<Page>, blk: nat, npages: nat, t: BloomTuple) {
    exists b :: blk <= b < npages && b < |blocks| && t in Tuples(blocks[b])
  }

  ghost predicate ProcOk(c: Config, s: State, r: Proc) {
    match r
    case Try(_, blk) => DataBlock(s.blocks, blk)
    case Loop(_, n) => s.meta.nStart <= n <= s.meta.nEnd
    case Extended(_, blk) => blk < |s.blocks| && s.blocks[blk].New?
    case Vac(dead, blk, npages, list, _) =>
      npages <= |s.blocks| && |list| <= c.slots && AllData(s.blocks, list)
    case Scan(q, blk, npages, found, must) =>
      && npages <= |s.blocks|
      && (forall t :: t in must ==> Hits(t, q) && (t.heapPtr in found || Owed(s.blocks, blk, npages, t)))
      && (forall h :: h in found ==> exists t :: t in s.inserted && Hits(t, q) && t.heapPtr == h)
    case _ => true
  }

  ghost predicate LockOk(s: State) {
    forall p :: p in s.procs && s.procs[p].HoldsMeta() ==> s.metaLock == Some(p)
  }

  ghost predicate Conserved(s: State) {
    s.inserted == Live(s.blocks) + s.removed
  }

  ghost predicate Inv(c: Config, s: State) {
    && c.Valid()
    && PagesOk(c, s.blocks)
    && MetaOk(c, s.blocks, s.meta)
    && (forall p :: p in s.procs ==> ProcOk(c, s, s.procs[p]))
    && LockOk(s)
    && Conserved(s)
  }
}
