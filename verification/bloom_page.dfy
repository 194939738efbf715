/** Data pages of the bloom index: the value a page stands for, and the
    in-place operations on it (contrib/bloom/bloom.h, blutils.c, blvacuum.c). */
module BloomPages {
  import opened BloomSign

  const BLCKSZ: nat := 32768
  const PAGE_HEADER: nat := 24
  const PAGE_OPAQUE: nat := 8
  const TUPLE_HEADER: nat := 6

  /** The space of the metapage left for block numbers, divided by their size:
      header, opaque area and the aligned fixed fields are taken off first. */
  const META_BLOCKS: nat := (BLCKSZ - PAGE_HEADER - PAGE_OPAQUE - 144) / 4

  function TupleSize(bloomLength: nat): nat {
    TUPLE_HEADER + 2 * bloomLength
  }

  function FreeSpace(size: nat, maxoff: nat): int {
    BLCKSZ - PAGE_HEADER - maxoff * size - PAGE_OPAQUE
  }

  function Capacity(size: nat): nat
    requires size > 0
  {
    (BLCKSZ - PAGE_HEADER - PAGE_OPAQUE) / size
  }

  /** The free-space test admits exactly Capacity tuples; an offset number
      counts them, and an empty page takes at least 63 of any legal size. */
  lemma FreeSpaceIffRoom(opts: Options, maxoff: nat)
    requires opts.Valid()
    ensures var size := TupleSize(opts.bloomLength);
            && (FreeSpace(size, maxoff) >= size <==> maxoff < Capacity(size))
            && 63 <= Capacity(size) < 0x1_0000
  {
    var size := TupleSize(opts.bloomLength);
    var room := BLCKSZ - PAGE_HEADER - PAGE_OPAQUE;
    assert room == Capacity(size) * size + room % size;
    if maxoff < Capacity(size) {
      assert (maxoff + 1) * size <= Capacity(size) * size;
    } else {
      assert maxoff * size >= Capacity(size) * size;
    }
    assert 8 <= size <= 518;
    CapacityBounds(size);
  }

  lemma DivLower(a: nat, d: nat, k: nat)
    requires d > 0 && k * d <= a
    ensures k <= a / d
  {
    assert k * d < (a / d + 1) * d;
  }

  lemma DivUpper(a: nat, d: nat, k: nat)
    requires d > 0 && a < (k + 1) * d
    ensures a / d <= k
  {
    assert (a / d) * d < (k + 1) * d;
  }

  lemma CapacityBounds(size: nat)
    requires 8 <= size <= 518
    ensures 63 <= Capacity(size) <= 4092
  {
    var room := BLCKSZ - PAGE_HEADER - PAGE_OPAQUE;
    DivLower(room, size, 63);
    assert 4093 * size >= 4093 * 8;
    DivUpper(room, size, 4092);
  }

  /** What a block of the index file holds. */
  datatype Page = MetaPage | New | Data(deleted: bool, tuples: seq<BloomTuple>)

  ghost predicate Reusable(p: Page) {
    p.New? || (p.Data? && p.deleted)
  }

  ghost function Tuples(p: Page): seq<BloomTuple> {
    if p.Data? && !p.deleted then p.tuples else []
  }

  ghost predicate WellFormedPage(cap: nat, p: Page) {
    p.Data? ==> if p.deleted then p.tuples == [] else 1 <= |p.tuples| <= cap
  }

  /** The page after an insert: a reusable page is initialised first. */
  ghost function Filled(p: Page, t: BloomTuple): Page
    requires !p.MetaPage?
  {
    if Reusable(p) then Data(false, [t]) else Data(false, p.tuples + [t])
  }

  /** The tuples a vacuum leaves: those whose heap pointer is not dead, in order. */
  ghost function Survivors(ts: seq<BloomTuple>, dead: set<nat>): seq<BloomTuple> {
    if ts == [] then [] else
      var rest := Survivors(ts[..|ts| - 1], dead);
      if ts[|ts| - 1].heapPtr in dead then rest else rest + [ts[|ts| - 1]]
  }

  ghost function Casualties(ts: seq<BloomTuple>, dead: set<nat>): seq<BloomTuple> {
    if ts == [] then [] else
      var rest := Casualties(ts[..|ts| - 1], dead);
      if ts[|ts| - 1].heapPtr in dead then rest + [ts[|ts| - 1]] else rest
  }

  ghost function Vacuumed(p: Page, dead: set<nat>): Page {
    if Tuples(p) == [] then p else
      var ts := Survivors(Tuples(p), dead);
      if ts == [] then Data(true, []) else Data(false, ts)
  }

  lemma VacuumStep(ts: seq<BloomTuple>, dead: set<nat>)
    requires ts != []
    ensures var n := |ts| - 1;
            var a, b, t := Survivors(ts[..n], dead), Casualties(ts[..n], dead), ts[n];
            ts == ts[..n] + [t]
            && Survivors(ts, dead) == (if t.heapPtr in dead then a else a + [t])
            && Casualties(ts, dead) == (if t.heapPtr in dead then b + [t] else b)
  {
  }

  lemma {:induction false} VacuumMembers(ts: seq<BloomTuple>, dead: set<nat>, t: BloomTuple)
    ensures t in Survivors(ts, dead) <==> t in ts && t.heapPtr !in dead
    ensures t in Casualties(ts, dead) <==> t in ts && t.heapPtr in dead
  {
    if ts != [] {
      VacuumMembers(ts[..|ts| - 1], dead, t);
      VacuumStep(ts, dead);
    }
  }

  lemma {:induction false} VacuumCounts(ts: seq<BloomTuple>, dead: set<nat>)
    ensures multiset(ts) == multiset(Survivors(ts, dead)) + multiset(Casualties(ts, dead))
    ensures |ts| == |Survivors(ts, dead)| + |Casualties(ts, dead)|
  {
    if ts != [] {
      VacuumCounts(ts[..|ts| - 1], dead);
      VacuumStep(ts, dead);
    }
  }

  /** A vacuum splits the tuples of a page in two: nothing is lost, nothing is
      kept that should go, nothing goes that should be kept. */
  lemma VacuumPartitions(ts: seq<BloomTuple>, dead: set<nat>)
    ensures multiset(ts) == multiset(Survivors(ts, dead)) + multiset(Casualties(ts, dead))
    ensures |ts| == |Survivors(ts, dead)| + |Casualties(ts, dead)|
    ensures forall t :: t in Survivors(ts, dead) <==> t in ts && t.heapPtr !in dead
    ensures forall t :: t in Casualties(ts, dead) <==> t in ts && t.heapPtr in dead
  {
    VacuumCounts(ts, dead);
    forall t
      ensures t in Survivors(ts, dead) <==> t in ts && t.heapPtr !in dead
      ensures t in Casualties(ts, dead) <==> t in ts && t.heapPtr in dead
    {
      VacuumMembers(ts, dead, t);
    }
  }

  lemma VacuumNext(ts: seq<BloomTuple>, dead: set<nat>, i: nat)
    requires i < |ts|
    ensures var a, b, t := Survivors(ts[..i], dead), Casualties(ts[..i], dead), ts[i];
            && Survivors(ts[..i + 1], dead) == (if t.heapPtr in dead then a else a + [t])
            && Casualties(ts[..i + 1], dead) == (if t.heapPtr in dead then b + [t] else b)
  {
    VacuumStep(ts[..i + 1], dead);
    assert ts[..i + 1][..i] == ts[..i];
  }

  /** A data page buffer.  Slot i of `data` is offset number i + 1. */
  class PageBuffer {
    const size: nat
    var isNew: bool
    var deleted: bool
    var maxoff: nat
    var pdLower: nat
    const data: array<BloomTuple>

    ghost predicate Valid()
      reads this, data
    {
      && 8 <= size <= 518
      && data.Length == Capacity(size)
      && maxoff <= data.Length
      && (!isNew ==> pdLower == PAGE_HEADER + maxoff * size <= BLCKSZ - PAGE_OPAQUE)
      && (isNew || deleted ==> maxoff == 0)
    }

    ghost function Value(): Page
      requires Valid()
      reads this, data
    {
      if isNew then New else Data(deleted, data[..maxoff])
    }

    constructor (size: nat)
      requires 8 <= size <= 518
      ensures Valid() && fresh(data) && this.size == size && Value() == New
    {
      this.size := size;
      isNew, deleted, maxoff, pdLower := true, false, 0, 0;
      data := new BloomTuple[Capacity(size)];
    }

    lemma SlotFits(n: nat)
      requires 8 <= size && n <= Capacity(size)
      ensures PAGE_HEADER + n * size <= BLCKSZ - PAGE_OPAQUE
    {
      var room := BLCKSZ - PAGE_HEADER - PAGE_OPAQUE;
      assert n * size <= Capacity(size) * size <= room;
    }

    lemma RoomIff()
      requires 8 <= size && data.Length == Capacity(size)
      ensures FreeSpace(size, maxoff) >= size <==> maxoff < data.Length
    {
      var room := BLCKSZ - PAGE_HEADER - PAGE_OPAQUE;
      assert Capacity(size) * size <= room < (Capacity(size) + 1) * size;
      if maxoff < Capacity(size) {
        assert (maxoff + 1) * size <= Capacity(size) * size;
      } else {
        assert (maxoff + 1) * size >= (Capacity(size) + 1) * size;
      }
    }

    method InitPage()
      requires 8 <= size <= 518 && data.Length == Capacity(size)
      modifies this
      ensures Valid() && Value() == Data(false, [])
    {
      isNew, deleted, maxoff, pdLower := false, false, 0, PAGE_HEADER;
    }

    /** Appends the tuple, or reports that the page is full and leaves it. */
    method AddItem(t: BloomTuple) returns (added: bool)
      requires Valid() && !isNew && !deleted
      modifies this, data
      ensures Valid()
      ensures added <==> old(maxoff) < Capacity(size)
      ensures !isNew && !deleted
      ensures data[..maxoff] == if added then old(data[..maxoff]) + [t] else old(data[..maxoff])
    {
      RoomIff();
      if FreeSpace(size, maxoff) < size {
        return false;
      }
      SlotFits(maxoff + 1);
      data[maxoff] := t;
      maxoff := maxoff + 1;
      pdLower := PAGE_HEADER + maxoff * size;
      added := true;
    }

    /** The page attempt of an insert: reinitialise a reusable page, then add.
        On failure the buffer is as it was. */
    method TryInsert(t: BloomTuple) returns (added: bool)
      requires Valid()
      modifies this, data
      ensures Valid()
      ensures added <==> old(Reusable(Value())) || |old(Value().tuples)| < Capacity(size)
      ensures added ==> Value() == Filled(old(Value()), t)
      ensures !added ==> Value() == old(Value())
    {
      if isNew || deleted {
        CapacityBounds(size);
        InitPage();
        assert data[..maxoff] == [];
      }
      added := AddItem(t);
    }

    /** Moves the tuple of a slot down to a free slot, or leaves it in place. */
    method KeepSlot(to: nat, from: nat)
      requires to <= from < data.Length
      modifies data
      ensures data[..to + 1] == old(data[..to]) + [old(data[from])]
      ensures forall k :: from < k < data.Length ==> data[k] == old(data[k])
    {
      if to != from {
        data[to] := data[from];
      }
    }

    /** The two-pointer compaction of a vacuum, in place. */
    method Compact(dead: set<nat>) returns (removed: nat)
      requires maxoff <= data.Length
      modifies this`maxoff, data
      ensures maxoff <= old(maxoff)
      ensures data[..maxoff] == Survivors(old(data[..maxoff]), dead)
      ensures removed == |Casualties(old(data[..maxoff]), dead)| == old(maxoff) - maxoff
    {
      ghost var all, ts := data[..], data[..maxoff];
      var itup, itupPtr, itupEnd := 0, 0, maxoff;
      removed := 0;
      while itup < itupEnd
        invariant 0 <= itupPtr <= itup <= itupEnd == |ts| <= data.Length == |all|
        invariant data[..itupPtr] == Survivors(ts[..itup], dead)
        invariant forall k :: itup <= k < data.Length ==> data[k] == all[k]
        invariant itup - itupPtr == removed == |Casualties(ts[..itup], dead)|
        invariant maxoff == itupEnd - removed
      {
        VacuumNext(ts, dead, itup);
        assert data[itup] == ts[itup];
        if data[itup].heapPtr in dead {
          maxoff := maxoff - 1;
          removed := removed + 1;
        } else {
          KeepSlot(itupPtr, itup);
          itupPtr := itupPtr + 1;
        }
        itup := itup + 1;
      }
      assert ts[..itup] == ts;
      assert itupPtr == maxoff;
    }

    /** One page of a vacuum: compact it, and mark it deleted if nothing is
        left.  `listed` says whether it goes into the new not-full list. */
    method Vacuum(dead: set<nat>, countPage: nat) returns (removed: nat, listed: bool)
      requires Valid() && !isNew && !deleted
      modifies this, data
      ensures Valid()
      ensures old(maxoff) > 0 ==> Value() == Vacuumed(old(Value()), dead)
      ensures removed == |Casualties(old(Value().tuples), dead)|
      ensures listed <==> 0 < maxoff < Capacity(size) && countPage < META_BLOCKS
    {
      removed := Compact(dead);
      RoomIff();
      listed := maxoff != 0 && FreeSpace(size, maxoff) >= size && countPage < META_BLOCKS;
      SlotFits(maxoff);
      if removed != 0 {
        if maxoff == 0 {
          deleted := true;
        }
        pdLower := PAGE_HEADER + maxoff * size;
      }
    }
  }
}
