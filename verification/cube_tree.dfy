/** The GiST operator class for boxes (contrib/cube/cube.c) and what it makes true
    of every tree. */
module CubeTree {
  import opened GistSupport
  import opened CubeBox
  import opened CubeDistance

  // -------------------------------------------------------------------- unions

  ghost predicate EnclosesTo(k: Box, es: seq<Box>, n: nat)
    requires n <= |es|
  {
    forall i :: 0 <= i < n ==> Encloses(k, es[i])
  }

  /** The key encloses the first n entries, and every box that does so encloses
      the key. */
  ghost predicate LeastTo(key: Box, es: seq<Box>, n: nat)
    requires n <= |es|
  {
    EnclosesTo(key, es, n) && forall k {:trigger EnclosesTo(k, es, n)} :: Valid(k) && EnclosesTo(k, es, n) ==> Encloses(k, key)
  }

  ghost predicate Least(key: Box, es: seq<Box>) {
    LeastTo(key, es, |es|)
  }

  lemma EnclosesItself(c: Box)
    requires Valid(c)
    ensures Encloses(c, c)
  {
    assert forall i: nat :: Inside(c, c, i);
  }

  lemma LeastOfFirst(es: seq<Box>)
    requires es != [] && Valid(es[0])
    ensures LeastTo(es[0], es, 1)
  {
    EnclosesItself(es[0]);
    forall k | Valid(k) && EnclosesTo(k, es, 1)
      ensures Encloses(k, es[0])
    {
    }
  }

  lemma EnclosesNext(key: Box, es: seq<Box>, i: nat, key': Box)
    requires i < |es| && EnclosesTo(key, es, i) && Encloses(key', key) && Encloses(key', es[i])
    ensures EnclosesTo(key', es, i + 1)
  {
    forall j | 0 <= j < i
      ensures Encloses(key', es[j])
    {
      EnclosesTransitive(key', key, es[j]);
    }
  }

  lemma LeastStep(key: Box, es: seq<Box>, i: nat, key': Box, k: Box)
    requires i < |es| && LeastTo(key, es, i) && Hull(key', key, es[i])
    requires Valid(k) && EnclosesTo(k, es, i + 1)
    ensures Encloses(k, key')
  {
    assert EnclosesTo(k, es, i) && Encloses(k, es[i]);
    HullIsLeast(key', key, es[i], k);
  }

  lemma LeastOfNext(key: Box, es: seq<Box>, i: nat, key': Box)
    requires i < |es| && LeastTo(key, es, i) && Hull(key', key, es[i])
    ensures LeastTo(key', es, i + 1)
  {
    HullIsLeast(key', key, es[i], key');
    EnclosesNext(key, es, i, key');
    forall k | Valid(k) && EnclosesTo(k, es, i + 1)
      ensures Encloses(k, key')
    {
      LeastStep(key, es, i, key', k);
    }
  }

  /** Only the entries that count matter. */
  lemma LeastSame(key: Box, es: seq<Box>, fs: seq<Box>, n: nat)
    requires n <= |es| && n <= |fs| && LeastTo(key, es, n)
    requires forall i :: 0 <= i < n ==> es[i] == fs[i]
    ensures LeastTo(key, fs, n)
  {
    forall k | Valid(k) && EnclosesTo(k, fs, n)
      ensures Encloses(k, key)
    {
      assert EnclosesTo(k, es, n);
    }
  }

  lemma LeastGrows(key: Box, es: seq<Box>, c: Box, key': Box)
    requires Least(key, es) && Hull(key', key, c)
    ensures Least(key', es + [c])
  {
    LeastSame(key, es, es + [c], |es|);
    LeastOfNext(key, es + [c], |es|, key');
  }

  /** The key of a page: the least box that encloses its entries. */
  method UnionAll(es: seq<Box>) returns (key: Box)
    requires |es| >= 2 && forall i :: 0 <= i < |es| ==> Valid(es[i])
    ensures Valid(key) && Least(key, es)
  {
    key := es[0];
    LeastOfFirst(es);
    var i := 1;
    while i < |es|
      invariant 1 <= i <= |es| && Valid(key)
      invariant LeastTo(key, es, i)
    {
      var out := Union(key, es[i], false);
      LeastOfNext(key, es, i, out);
      key := out;
      i := i + 1;
    }
  }

  // ------------------------------------------------------------ the page split

  function Abs(x: real): real {
    if x < 0.0 then -x else x
  }

  function Times(x: real, y: real): real {
    x * y
  }

  ghost function Volume(c: Box, n: nat): real
    requires Valid(c) && n <= c.dim
  {
    if n == 0 then 1.0 else Times(Volume(c, n - 1), Hi(c, n - 1) - Lo(c, n - 1))
  }

  /** The volume of a box; without dimensions it is zero. */
  ghost function SizeOf(c: Box): real
    requires Valid(c)
  {
    if c.dim == 0 then 0.0 else Volume(c, c.dim)
  }

  method Size(c: Box) returns (size: real)
    requires Valid(c)
    ensures size == SizeOf(c)
  {
    if c.point || c.dim == 0 {
      assert c.dim > 0 ==> Hi(c, c.dim - 1) - Lo(c, c.dim - 1) == 0.0;
      return 0.0;
    }
    size := 1.0;
    var i := 0;
    while i < c.dim
      invariant 0 <= i <= c.dim && size == Volume(c, i)
    {
      var d := UR(c, i) - LL(c, i);
      size := Times(size, Abs(d));
      i := i + 1;
    }
  }

  function Width(c: Box, i: nat): (w: real)
    requires Valid(c)
    ensures w >= 0.0
  {
    LoHi(c, i);
    Hi(c, i) - Lo(c, i)
  }

  /** A volume is zero exactly when the box is flat in some dimension. */
  lemma {:induction false} VolumeZeroIff(c: Box, n: nat)
    requires Valid(c) && n <= c.dim
    ensures Volume(c, n) >= 0.0
    ensures Volume(c, n) == 0.0 <==> exists i :: 0 <= i < n && Width(c, i) == 0.0
  {
    if n > 0 {
      VolumeZeroIff(c, n - 1);
      assert Width(c, n - 1) >= 0.0;
      TimesZeroIff(Volume(c, n - 1), Width(c, n - 1));
    }
  }

  lemma TimesZeroIff(x: real, y: real)
    requires x >= 0.0 && y >= 0.0
    ensures Times(x, y) >= 0.0 && (Times(x, y) == 0.0 <==> x == 0.0 || y == 0.0)
  {
  }

  lemma TimesMonotone(x: real, x': real, y: real, y': real)
    requires 0.0 <= x <= x' && 0.0 <= y <= y'
    ensures Times(x, y) <= Times(x', y')
  {
    assert x * y <= x' * y <= x' * y';
  }

  /** A box of the same dimensions that encloses another is no smaller. */
  lemma {:induction false} VolumeGrows(k: Box, c: Box, n: nat)
    requires Encloses(k, c) && n <= c.dim
    ensures Volume(c, n) <= Volume(k, n)
  {
    if n > 0 {
      VolumeGrows(k, c, n - 1);
      VolumeZeroIff(c, n - 1);
      assert Inside(c, k, n - 1);
      TimesMonotone(Volume(c, n - 1), Volume(k, n - 1), Width(c, n - 1), Width(k, n - 1));
    }
  }

  lemma {:induction false} VolumeOfTwo(c: Box, i: nat, j: nat, n: nat)
    requires Valid(c) && i < j && n <= c.dim
    requires forall k :: 0 <= k < n && k != i && k != j ==> Width(c, k) == 1.0
    ensures Volume(c, n) == Times(if i < n then Width(c, i) else 1.0, if j < n then Width(c, j) else 1.0)
  {
    if n > 0 {
      VolumeOfTwo(c, i, j, n - 1);
      TimesOne(Volume(c, n - 1));
      TimesOne(Width(c, n - 1));
      assert n - 1 != i && n - 1 != j ==> Width(c, n - 1) == 1.0;
    }
  }

  lemma TimesOne(x: real)
    ensures Times(x, 1.0) == x == Times(1.0, x)
  {
  }

  /** The size of a box of width 1 in all dimensions but two is the area in these
      two, and a point has no size. */
  lemma SizeIsArea(c: Box, i: nat, j: nat)
    requires Valid(c) && i < j < c.dim
    requires forall k :: 0 <= k < c.dim && k != i && k != j ==> Width(c, k) == 1.0
    ensures SizeOf(c) == Width(c, i) * Width(c, j)
  {
    VolumeOfTwo(c, i, j, c.dim);
  }

  // The volumes of the union and of the intersection of two boxes.

  ghost function HullWidth(a: Box, b: Box, i: nat): real
    requires Valid(a) && Valid(b)
  {
    Max(Hi(a, i), Hi(b, i)) - Min(Lo(a, i), Lo(b, i))
  }

  ghost function InterWidth(a: Box, b: Box, i: nat): real
    requires Valid(a) && Valid(b)
  {
    Abs(Min(Hi(a, i), Hi(b, i)) - Max(Lo(a, i), Lo(b, i)))
  }

  ghost function HullVolume(a: Box, b: Box, n: nat): real
    requires Valid(a) && Valid(b)
  {
    if n == 0 then 1.0
    else Times(HullVolume(a, b, n - 1), HullWidth(a, b, n - 1))
  }

  ghost function InterVolume(a: Box, b: Box, n: nat): real
    requires Valid(a) && Valid(b)
  {
    if n == 0 then 1.0
    else Times(InterVolume(a, b, n - 1), InterWidth(a, b, n - 1))
  }

  ghost function HullSize(a: Box, b: Box): real
    requires Valid(a) && Valid(b)
  {
    if Larger(a, b) == 0 then 0.0 else HullVolume(a, b, Larger(a, b))
  }

  /** What a page loses by holding both boxes. */
  ghost function Waste(a: Box, b: Box): real
    requires Valid(a) && Valid(b)
  {
    HullSize(a, b) - (if Larger(a, b) == 0 then 0.0 else InterVolume(a, b, Larger(a, b)))
  }

  lemma {:induction false} HullVolumeIs(r: Box, a: Box, b: Box, n: nat)
    requires Hull(r, a, b) && n <= r.dim
    ensures Volume(r, n) == HullVolume(a, b, n)
  {
    if n > 0 {
      HullVolumeIs(r, a, b, n - 1);
      assert HullAt(r, a, b, n - 1);
      assert Hi(r, n - 1) - Lo(r, n - 1) == HullWidth(a, b, n - 1);
    }
  }

  lemma InterWidthIs(r: Box, a: Box, b: Box, i: nat)
    requires Valid(r) && Valid(a) && Valid(b) && i < r.dim && CommonAt(r, a, b, i)
    ensures Hi(r, i) - Lo(r, i) == InterWidth(a, b, i)
  {
  }

  lemma {:induction false} InterVolumeIs(r: Box, a: Box, b: Box, n: nat)
    requires Valid(r) && Valid(a) && Valid(b) && n <= r.dim && Common(r, a, b)
    ensures Volume(r, n) == InterVolume(a, b, n)
  {
    if n > 0 {
      InterVolumeIs(r, a, b, n - 1);
      InterWidthIs(r, a, b, n - 1);
    }
  }

  predicate CommonAt(r: Box, a: Box, b: Box, i: nat)
    requires Valid(r) && Valid(a) && Valid(b) && i < r.dim
  {
    LL(r, i) == Max(Lo(a, i), Lo(b, i)) && UR(r, i) == Min(Hi(a, i), Hi(b, i))
  }

  /** r goes from the larger lower end to the smaller upper end in every dimension. */
  ghost predicate Common(r: Box, a: Box, b: Box)
    requires Valid(r) && Valid(a) && Valid(b)
  {
    forall i: nat :: i < r.dim ==> CommonAt(r, a, b, i)
  }

  /** The loops of the intersection. */
  method FillInter(a: Box, b: Box) returns (x: array<real>)
    requires Valid(a) && Valid(b) && a.dim >= b.dim
    ensures fresh(x) && x.Length == 2 * a.dim
    ensures forall i :: 0 <= i < a.dim ==> x[i] == Max(Lo(a, i), Lo(b, i)) && x[i + a.dim] == Min(Hi(a, i), Hi(b, i))
  {
    x := new real[2 * a.dim](i => 0.0);
    var i := 0;
    while i < b.dim
      invariant 0 <= i <= b.dim
      invariant forall k :: 0 <= k < i ==> x[k] == Max(Lo(a, k), Lo(b, k)) && x[k + a.dim] == Min(Hi(a, k), Hi(b, k))
    {
      x[i] := Max(Min(LL(a, i), UR(a, i)), Min(LL(b, i), UR(b, i)));
      x[i + a.dim] := Min(Max(LL(a, i), UR(a, i)), Max(LL(b, i), UR(b, i)));
      i := i + 1;
    }
    while i < a.dim
      invariant b.dim <= i <= a.dim
      invariant forall k :: 0 <= k < i ==> x[k] == Max(Lo(a, k), Lo(b, k)) && x[k + a.dim] == Min(Hi(a, k), Hi(b, k))
    {
      x[i] := Max(0.0, Min(LL(a, i), UR(a, i)));
      x[i + a.dim] := Min(0.0, Max(LL(a, i), UR(a, i)));
      i := i + 1;
    }
  }

  /** The intersection: in each dimension from the larger lower end to the smaller
      upper end, which are in order exactly when the boxes meet there. */
  method Intersect(a: Box, b: Box) returns (r: Box)
    requires Valid(a) && Valid(b)
    ensures Valid(r) && r.dim == Larger(a, b)
    ensures Common(r, a, b)
    ensures forall i: nat :: i < r.dim ==> (LL(r, i) <= UR(r, i) <==> Meet(a, b, i))
  {
    var p, q := a, b;
    if a.dim < b.dim {
      p, q := b, a;
    }
    var x := FillInter(p, q);
    r := Normalize(x, p.dim);
    forall i: nat | i < r.dim
      ensures CommonAt(r, a, b, i)
      ensures LL(r, i) <= UR(r, i) <==> Meet(a, b, i)
    {
      assert LL(r, i) == x[i] && UR(r, i) == x[i + p.dim];
      LoHi(a, i);
      LoHi(b, i);
    }
  }

  /** The entries, which are at the offsets from 1 on. */
  ghost predicate AllValid(es: seq<Box>) {
    forall i :: 1 <= i < |es| ==> Valid(es[i])
  }

  method WasteOf(a: Box, b: Box) returns (waste: real)
    requires Valid(a) && Valid(b)
    ensures waste == Waste(a, b)
  {
    var u := Union(a, b, false);
    var sizeUnion := Size(u);
    var n := Intersect(a, b);
    var sizeInter := Size(n);
    HullVolumeIs(u, a, b, u.dim);
    InterVolumeIs(n, a, b, n.dim);
    return sizeUnion - sizeInter;
  }

  ghost function WasteAt(es: seq<Box>, i: nat, j: nat): real
    requires AllValid(es) && 1 <= i < |es| && 1 <= j < |es|
  {
    Waste(es[i], es[j])
  }

  /** The seeds are a pair of offsets up to maxoff with the waste given. */
  ghost predicate SeedsAt(es: seq<Box>, maxoff: nat, waste: real, seed1: nat, seed2: nat)
    requires AllValid(es) && maxoff < |es|
  {
    1 <= seed1 < seed2 <= maxoff && waste == WasteAt(es, seed1, seed2)
  }

  /** The inner loop: entry i against every later entry up to maxoff. */
  method SeedRow(es: seq<Box>, maxoff: nat, i: nat, firsttime0: bool, waste0: real, s1: nat, s2: nat)
    returns (waste: real, seed1: nat, seed2: nat)
    requires AllValid(es) && 1 <= i < maxoff < |es|
    requires firsttime0 || SeedsAt(es, maxoff, waste0, s1, s2)
    ensures SeedsAt(es, maxoff, waste, seed1, seed2) && (firsttime0 || waste0 <= waste)
    ensures forall j :: i < j <= maxoff ==> WasteAt(es, i, j) <= waste
  {
    var firsttime := firsttime0;
    waste, seed1, seed2 := waste0, s1, s2;
    var j := i + 1;
    while j <= maxoff
      invariant i < j <= maxoff + 1 && (firsttime0 || waste0 <= waste) && (firsttime ==> firsttime0 && j == i + 1)
      invariant firsttime || SeedsAt(es, maxoff, waste, seed1, seed2)
      invariant forall l :: i < l < j ==> WasteAt(es, i, l) <= waste
    {
      var w := WasteOf(es[i], es[j]);
      if w > waste || firsttime {
        waste, seed1, seed2, firsttime := w, i, j, false;
      }
      j := j + 1;
    }
  }

  /** The seeds: a pair that wastes most among all entries but the last, or the
      first two entries when there is no such pair. */
  method PickSeeds(es: seq<Box>) returns (seed1: nat, seed2: nat)
    requires |es| >= 3 && AllValid(es)
    ensures 1 <= seed1 < seed2 < |es|
    ensures forall i, j :: 1 <= i < j <= |es| - 2 ==> WasteAt(es, i, j) <= WasteAt(es, seed1, seed2)
  {
    var maxoff, waste := |es| - 2, 0.0;
    seed1, seed2 := 1, 2;
    var i := 1;
    while i < maxoff
      invariant 1 <= i <= maxoff
      invariant if i == 1 then seed1 == 1 && seed2 == 2 else SeedsAt(es, maxoff, waste, seed1, seed2)
      invariant forall k, j :: 1 <= k < i && k < j <= maxoff ==> WasteAt(es, k, j) <= waste
    {
      waste, seed1, seed2 := SeedRow(es, maxoff, i, i == 1, waste, seed1, seed2);
      i := i + 1;
    }
  }

  function Pick(es: seq<Box>, offs: seq<nat>): (r: seq<Box>)
    requires forall i :: 0 <= i < |offs| ==> offs[i] < |es|
    ensures |r| == |offs| && forall i :: 0 <= i < |offs| ==> r[i] == es[offs[i]]
  {
    seq(|offs|, i requires 0 <= i < |offs| => es[offs[i]])
  }

  /** The key is the least box over the entries of its side. */
  ghost predicate SideOk(es: seq<Box>, key: Box, offs: seq<nat>) {
    es != [] && InRange(offs, |es| - 1) && Valid(key) && Least(key, Pick(es, offs))
  }

  /** The same while the seed counts, whether or not it was moved yet. */
  ghost predicate Growing(es: seq<Box>, key: Box, seed: nat, offs: seq<nat>)
    requires seed < |es|
  {
    InRange(offs, |es| - 1) && Valid(key) && Least(key, [es[seed]] + Pick(es, offs))
  }

  lemma Grows(es: seq<Box>, key: Box, seed: nat, offs: seq<nat>, j: nat, key': Box)
    requires seed < |es| && 1 <= j < |es| && Growing(es, key, seed, offs) && Hull(key', key, es[j])
    ensures Growing(es, key', seed, offs + [j])
  {
    LeastGrows(key, [es[seed]] + Pick(es, offs), es[j], key');
    assert [es[seed]] + Pick(es, offs) + [es[j]] == [es[seed]] + Pick(es, offs + [j]);
  }

  lemma SeedMoved(es: seq<Box>, key: Box, seed: nat, offs: seq<nat>)
    requires 1 <= seed < |es| && Growing(es, key, seed, offs)
    ensures Growing(es, key, seed, offs + [seed])
  {
    var was, now := [es[seed]] + Pick(es, offs), [es[seed]] + Pick(es, offs + [seed]);
    assert now == was + [es[seed]];
    LeastRepeats(key, was, 0);
  }

  lemma LeastRepeats(key: Box, es: seq<Box>, i: nat)
    requires i < |es| && Least(key, es)
    ensures Least(key, es + [es[i]])
  {
    var more := es + [es[i]];
    forall k | Valid(k) && EnclosesTo(k, more, |more|)
      ensures Encloses(k, key)
    {
      assert forall j :: 0 <= j < |es| ==> es[j] == more[j];
      assert EnclosesTo(k, es, |es|);
    }
  }

  lemma LeastDrops(key: Box, c: Box, side: seq<Box>, i: nat)
    requires Least(key, [c] + side) && i < |side| && side[i] == c
    ensures Least(key, side)
  {
    var all := [c] + side;
    assert forall j :: 0 <= j < |side| ==> side[j] == all[j + 1];
    forall k | Valid(k) && EnclosesTo(k, side, |side|)
      ensures Encloses(k, key)
    {
      assert Encloses(k, side[i]);
      assert EnclosesTo(k, all, |all|);
    }
  }

  lemma SeedArrived(es: seq<Box>, key: Box, seed: nat, offs: seq<nat>)
    requires 1 <= seed < |es| && Growing(es, key, seed, offs) && seed in offs
    ensures SideOk(es, key, offs)
  {
    var i :| 0 <= i < |offs| && offs[i] == seed;
    LeastDrops(key, es[seed], Pick(es, offs), i);
  }

  /** A side, as the distribution leaves it after entry i. */
  ghost predicate SideAfter(es: seq<Box>, i: nat, seed: nat, offs: seq<nat>, key: Box) {
    1 <= seed < |es| && Growing(es, key, seed, offs) && (seed <= i ==> seed in offs)
  }

  lemma SideStarts(es: seq<Box>, seed: nat)
    requires 1 <= seed < |es| && Valid(es[seed])
    ensures SideAfter(es, 0, seed, [], es[seed])
  {
    assert [es[seed]] + Pick(es, []) == [es[seed]];
    LeastOfFirst([es[seed]]);
  }

  /** The key of a side after entry j joined it; a seed is in it already. */
  ghost predicate Joined(es: seq<Box>, j: nat, seed: nat, key: Box, key': Box)
    requires j < |es|
  {
    if j == seed then key' == key else Hull(key', key, es[j])
  }

  lemma SideGrows(es: seq<Box>, i: nat, seed: nat, offs: seq<nat>, key: Box, key': Box)
    requires SideAfter(es, i, seed, offs, key) && i + 1 < |es|
    requires Joined(es, i + 1, seed, key, key')
    ensures SideAfter(es, i + 1, seed, offs + [i + 1], key')
  {
    if i + 1 == seed {
      SeedMoved(es, key, seed, offs);
    } else {
      Grows(es, key, seed, offs, i + 1, key');
    }
  }

  lemma SideWaits(es: seq<Box>, i: nat, seed: nat, offs: seq<nat>, key: Box)
    requires SideAfter(es, i, seed, offs, key) && i + 1 != seed
    ensures SideAfter(es, i + 1, seed, offs, key)
  {
  }

  /** Chooses the side that entry j makes grow less; equal growth goes right. */
  method Choose(es: seq<Box>, j: nat, l: Box, r: Box, sizeL: real, sizeR: real)
    returns (toLeft: bool, key: Box, size: real)
    requires j < |es| && Valid(es[j]) && Valid(l) && Valid(r)
    ensures toLeft ==> Hull(key, l, es[j])
    ensures !toLeft ==> Hull(key, r, es[j])
    ensures Valid(key) && size == SizeOf(key)
    ensures toLeft <==> HullSize(l, es[j]) - sizeL < HullSize(r, es[j]) - sizeR
  {
    var ul := Union(l, es[j], false);
    var ur := Union(r, es[j], false);
    var sizeAlpha := Size(ul);
    var sizeBeta := Size(ur);
    HullVolumeIs(ul, l, es[j], ul.dim);
    HullVolumeIs(ur, r, es[j], ur.dim);
    if sizeAlpha - sizeL < sizeBeta - sizeR {
      return true, ul, sizeAlpha;
    } else {
      return false, ur, sizeBeta;
    }
  }

  /** Where entry j goes, and the key of that side afterwards: a seed goes to its
      side, any other entry to the side that it makes grow less. */
  method Place(es: seq<Box>, j: nat, seed1: nat, seed2: nat, l: Box, r: Box, sizeL: real, sizeR: real)
    returns (toLeft: bool, key: Box, size: real)
    requires j < |es| && Valid(es[j]) && Valid(l) && Valid(r) && seed1 != seed2
    ensures toLeft ==> j != seed2 && Joined(es, j, seed1, l, key)
    ensures !toLeft ==> j != seed1 && Joined(es, j, seed2, r, key)
  {
    if j == seed1 {
      return true, l, sizeL;
    } else if j == seed2 {
      return false, r, sizeR;
    }
    toLeft, key, size := Choose(es, j, l, r, sizeL, sizeR);
  }

  /** The side that entry i + 1 goes to, and the other one. */
  lemma SidesMove(es: seq<Box>, i: nat, to: nat, offs: seq<nat>, key: Box, key': Box, from: nat, rest: seq<nat>, other: Box)
    requires SideAfter(es, i, to, offs, key) && SideAfter(es, i, from, rest, other)
    requires i + 1 < |es| && i + 1 != from
    requires Joined(es, i + 1, to, key, key')
    ensures SideAfter(es, i + 1, to, offs + [i + 1], key')
    ensures SideAfter(es, i + 1, from, rest, other)
  {
    SideGrows(es, i, to, offs, key, key');
    SideWaits(es, i, from, rest, other);
  }

  /** Moves entry i + 1. */
  method Move(es: seq<Box>, i: nat, seed1: nat, seed2: nat, left: seq<nat>, right: seq<nat>, l: Box, r: Box,
              sizeL: real, sizeR: real)
    returns (left': seq<nat>, right': seq<nat>, l': Box, r': Box, sizeL': real, sizeR': real)
    requires i + 1 < |es| && Valid(es[i + 1]) && seed1 != seed2
    requires Partition(i, left, right)
    requires SideAfter(es, i, seed1, left, l)
    requires SideAfter(es, i, seed2, right, r)
    ensures Partition(i + 1, left', right')
    ensures SideAfter(es, i + 1, seed1, left', l')
    ensures SideAfter(es, i + 1, seed2, right', r')
  {
    PartitionGrows(i, left, right);
    var toLeft, key, size := Place(es, i + 1, seed1, seed2, l, r, sizeL, sizeR);
    if toLeft {
      SidesMove(es, i, seed1, left, l, key, seed2, right, r);
      return left + [i + 1], right, key, r, size, sizeR;
    } else {
      SidesMove(es, i, seed2, right, r, key, seed1, left, l);
      return left, right + [i + 1], l, key, sizeL, size;
    }
  }

  /** The split: every entry is on exactly one side, neither side is empty, and the
      key of a side is the least box over its entries. */
  method PickSplit(es: seq<Box>) returns (left: seq<nat>, right: seq<nat>, l: Box, r: Box)
    requires |es| >= 3 && AllValid(es)
    ensures Partition(|es| - 1, left, right) && left != [] && right != []
    ensures SideOk(es, l, left) && SideOk(es, r, right)
  {
    var seed1, seed2 := PickSeeds(es);
    l := Union(es[seed1], es[seed1], true);
    var sizeL := Size(l);
    r := Union(es[seed2], es[seed2], true);
    var sizeR := Size(r);
    SideStarts(es, seed1);
    SideStarts(es, seed2);
    left, right := [], [];
    var i := 0;
    while i < |es| - 1
      invariant 0 <= i <= |es| - 1
      invariant Partition(i, left, right)
      invariant SideAfter(es, i, seed1, left, l)
      invariant SideAfter(es, i, seed2, right, r)
    {
      left, right, l, r, sizeL, sizeR := Move(es, i, seed1, seed2, left, right, l, r, sizeL, sizeR);
      i := i + 1;
    }
    SeedArrived(es, l, seed1, left);
    SeedArrived(es, r, seed2, right);
  }

  // ----------------------------------------------------------------- searching

  datatype Strategy = Overlap | SameAs | ContainsIt | ContainedBy

  /** What the operator says of a stored box. */
  ghost predicate Matches(s: Strategy, c: Box, q: Box)
    requires Valid(c) && Valid(q)
  {
    match s
    case Overlap => Overlaps(c, q)
    case SameAs => Same(c, q)
    case ContainsIt => Contains(c, q)
    case ContainedBy => Contains(q, c)
  }

  /** What the key of an inner entry says about a search. */
  ghost predicate MayMatch(s: Strategy, key: Box, q: Box)
    requires Valid(key) && Valid(q)
  {
    match s
    case Overlap => Overlaps(key, q)
    case SameAs => Contains(key, q)
    case ContainsIt => Contains(key, q)
    case ContainedBy => Overlaps(key, q)
  }

  method LeafConsistent(s: Strategy, key: Box, q: Box) returns (res: bool)
    requires Valid(key) && Valid(q)
    ensures res <==> Matches(s, key, q)
  {
    match s {
      case Overlap => res := CubeOverlap(key, q);
      case SameAs =>
        CmpLaws(key, q);
        var c := CubeCmp(key, q);
        res := c == 0;
      case ContainsIt => res := CubeContains(key, q);
      case ContainedBy => res := CubeContains(q, key);
    }
  }

  method InternalConsistent(s: Strategy, key: Box, q: Box) returns (res: bool)
    requires Valid(key) && Valid(q)
    ensures res <==> MayMatch(s, key, q)
  {
    match s {
      case Overlap => res := CubeOverlap(key, q);
      case SameAs => res := CubeContains(key, q);
      case ContainsIt => res := CubeContains(key, q);
      case ContainedBy => res := CubeOverlap(key, q);
    }
  }

  /** In every dimension of the query from d on, the query reaches zero. */
  ghost predicate Straddles(q: Box, d: nat)
    requires Valid(q)
  {
    forall i: nat :: d <= i < q.dim ==> Lo(q, i) <= 0.0 <= Hi(q, i)
  }

  lemma OverlapUpward(k: Box, c: Box, q: Box)
    requires Encloses(k, c) && Valid(q) && Overlaps(c, q)
    ensures Overlaps(k, q)
  {
    forall i: nat
      ensures Meet(k, q, i)
    {
      assert Meet(c, q, i) && Inside(c, k, i);
    }
  }

  lemma ContainsUpward(k: Box, c: Box, q: Box)
    requires Encloses(k, c) && Valid(q) && Contains(c, q)
    ensures Contains(k, q)
  {
    forall i: nat | i < q.dim
      ensures Inside(q, k, i)
    {
      assert Inside(q, c, i) && Inside(c, k, i);
    }
  }

  lemma SameContains(c: Box, q: Box)
    requires Valid(c) && Valid(q) && Same(c, q)
    ensures Contains(c, q)
  {
  }

  /** A contained box overlaps what contains it, where the query reaches zero in
      the dimensions that the box does not have. */
  lemma ContainedOverlaps(c: Box, q: Box)
    requires Valid(c) && Valid(q) && Contains(q, c) && Straddles(q, c.dim)
    ensures Overlaps(c, q)
  {
    forall i: nat
      ensures Meet(c, q, i)
    {
      LoHi(c, i);
      LoHi(q, i);
      assert i < c.dim ==> Inside(c, q, i);
    }
  }

  /** Condition under which a search with the strategy is sound on leaves of
      dimension d or more. */
  ghost predicate Sound(s: Strategy, q: Box, d: nat)
    requires Valid(q)
  {
    s.ContainedBy? ==> Straddles(q, d)
  }

  /** A key never rules out a search that a box it encloses matches. */
  lemma Upward(s: Strategy, k: Box, c: Box, q: Box, d: nat)
    requires Encloses(k, c) && Valid(q) && Matches(s, c, q) && Sound(s, q, d) && d <= c.dim
    ensures MayMatch(s, k, q)
  {
    match s {
      case Overlap => OverlapUpward(k, c, q);
      case SameAs =>
        SameContains(c, q);
        ContainsUpward(k, c, q);
      case ContainsIt => ContainsUpward(k, c, q);
      case ContainedBy =>
        ContainedOverlaps(c, q);
        OverlapUpward(k, c, q);
    }
  }

  /** The part of the key that the query covers, of the dimensions of both. */
  ghost function Overlapping(key: Box, q: Box): Box
    requires Valid(key) && Valid(q)
  {
    var n := key.dim;
    Box(n, false, seq(2 * n, i requires 0 <= i < 2 * n =>
      if i < n then Max(Lo(key, i), Lo(q, i)) else Min(Hi(key, i - n), Hi(q, i - n))))
  }

  lemma OverlappingInside(key: Box, q: Box)
    requires Valid(key) && Valid(q) && key.dim == q.dim && Overlaps(key, q)
    ensures var c := Overlapping(key, q); Encloses(key, c) && Contains(q, c)
  {
    var c := Overlapping(key, q);
    forall i: nat
      ensures Inside(c, key, i) && Inside(c, q, i)
    {
      assert Meet(key, q, i);
      LoHi(key, i);
      LoHi(q, i);
      assert i < c.dim ==> LL(c, i) == Max(Lo(key, i), Lo(q, i)) && UR(c, i) == Min(Hi(key, i), Hi(q, i));
    }
  }

  lemma ContainedInside(key: Box, q: Box)
    requires Valid(key) && Valid(q) && key.dim == q.dim && Contains(key, q)
    ensures Encloses(key, q) && Same(q, q)
  {
    forall i: nat
      ensures Inside(q, key, i)
    {
    }
  }

  /** The test on a key is as sharp as can be: among boxes of the dimensions of the
      query, a key passes exactly when a box inside it could match the search. */
  lemma KeyTestIsSharp(s: Strategy, key: Box, q: Box)
    requires Valid(key) && Valid(q) && key.dim == q.dim
    ensures MayMatch(s, key, q) <==> exists c: Box :: c.dim == q.dim && Encloses(key, c) && Matches(s, c, q)
  {
    if MayMatch(s, key, q) {
      EnclosesItself(key);
      match s {
        case Overlap => assert Encloses(key, key) && Matches(s, key, q);
        case SameAs =>
          ContainedInside(key, q);
          assert Encloses(key, q) && Matches(s, q, q);
        case ContainsIt => assert Encloses(key, key) && Matches(s, key, q);
        case ContainedBy =>
          OverlappingInside(key, q);
          assert Encloses(key, Overlapping(key, q)) && Matches(s, Overlapping(key, q), q);
      }
    }
    if c: Box :| c.dim == q.dim && Encloses(key, c) && Matches(s, c, q) {
      Upward(s, key, c, q, q.dim);
    }
  }

  // ------------------------------------------------------------------ the tree

  datatype Tree = Leaf(key: Box) | Node(key: Box, kids: seq<Tree>)

  /** Every inner key encloses the keys below it. */
  ghost predicate Built(t: Tree) {
    match t
    case Leaf(key) => Valid(key)
    case Node(key, kids) => Valid(key) && forall i :: 0 <= i < |kids| ==> Built(kids[i]) && Encloses(key, kids[i].key)
  }

  /** Every stored box has at least d dimensions. */
  ghost predicate AtLeast(t: Tree, d: nat) {
    match t
    case Leaf(key) => key.dim >= d
    case Node(key, kids) => forall i :: 0 <= i < |kids| ==> AtLeast(kids[i], d)
  }

  /** c is stored at, or is the key of, a node at or below t. */
  ghost predicate Below(t: Tree, c: Box) {
    t.key == c || (t.Node? && exists i :: 0 <= i < |t.kids| && Below(t.kids[i], c))
  }

  /** The key of a node encloses everything below it. */
  lemma {:induction false} KeyEncloses(t: Tree, c: Box)
    requires Built(t) && Below(t, c)
    ensures Encloses(t.key, c)
    decreases t
  {
    if t.key == c {
      assert forall i: nat :: Inside(c, c, i);
    } else {
      var i :| 0 <= i < |t.kids| && Below(t.kids[i], c);
      KeyEncloses(t.kids[i], c);
      EnclosesTransitive(t.key, t.kids[i].key, c);
    }
  }

  /** No node is farther from a query, in any of the three norms, than what is
      below it, and none comes later in a coordinate order. */
  lemma NodeIsNearer(t: Tree, c: Box, q: Box, coord: int, isLeaf: bool)
    requires Built(t) && Below(t, c) && Valid(q) && coord != 0
    ensures Valid(c)
    ensures Taxicab(t.key, q, Larger(t.key, q)) <= Taxicab(c, q, Larger(c, q))
    ensures Chebyshev(t.key, q, Larger(t.key, q)) <= Chebyshev(c, q, Larger(c, q))
    ensures SquaredEuclid(t.key, q, Larger(t.key, q)) <= SquaredEuclid(c, q, Larger(c, q))
    ensures CoordDistance(t.key, coord, false).value <= CoordDistance(c, coord, isLeaf).value
  {
    KeyEncloses(t, c);
    EnclosingIsNearer(t.key, c, q);
    CoordIsNearer(t.key, c, coord, isLeaf);
  }

  /** The stored boxes that match, from left to right. */
  ghost function Answers(t: Tree, s: Strategy, q: Box): seq<Box>
    requires Built(t) && Valid(q)
    decreases t
  {
    match t
    case Leaf(key) => if Matches(s, key, q) then [key] else []
    case Node(key, kids) => Concat(seq(|kids|, i requires 0 <= i < |kids| => Answers(kids[i], s, q)))
  }

  /** The index search, which skips what is below an inconsistent key. */
  ghost function Search(t: Tree, s: Strategy, q: Box): seq<Box>
    requires Built(t) && Valid(q)
    decreases t
  {
    match t
    case Leaf(key) => if Matches(s, key, q) then [key] else []
    case Node(key, kids) =>
      if MayMatch(s, key, q) then Concat(seq(|kids|, i requires 0 <= i < |kids| => Search(kids[i], s, q))) else []
  }

  /** Where there is an answer, a stored box below matches. */
  lemma {:induction false} AnswerBelow(t: Tree, s: Strategy, q: Box, d: nat) returns (c: Box)
    requires Built(t) && Valid(q) && AtLeast(t, d) && Answers(t, s, q) != []
    ensures Below(t, c) && Valid(c) && Matches(s, c, q) && c.dim >= d
    decreases t
  {
    match t {
      case Leaf(key) => c := key;
      case Node(key, kids) =>
        var i := ConcatSome(seq(|kids|, i requires 0 <= i < |kids| => Answers(kids[i], s, q)));
        c := AnswerBelow(kids[i], s, q, d);
    }
  }

  /** The index search finds exactly what looking at every stored box would, for
      every query and every tree of boxes of mixed dimensions; for contained-by,
      provided the query reaches zero in the dimensions a stored box may lack. */
  lemma {:induction false} SearchIsExact(t: Tree, s: Strategy, q: Box, d: nat)
    requires Built(t) && Valid(q) && AtLeast(t, d) && Sound(s, q, d)
    ensures Search(t, s, q) == Answers(t, s, q)
    decreases t
  {
    if t.Node? {
      var kids := t.kids;
      if MayMatch(s, t.key, q) {
        forall i | 0 <= i < |kids|
          ensures Search(kids[i], s, q) == Answers(kids[i], s, q)
        {
          SearchIsExact(kids[i], s, q, d);
        }
        assert seq(|kids|, i requires 0 <= i < |kids| => Search(kids[i], s, q)) ==
               seq(|kids|, i requires 0 <= i < |kids| => Answers(kids[i], s, q));
      } else if Answers(t, s, q) != [] {
        var c := AnswerBelow(t, s, q, d);
        KeyEncloses(t, c);
        Upward(s, t.key, c, q, d);
      }
    }
  }

  // ------------------------------------------------------------- contained-by

  /** The point at a corner of the query, cut to d dimensions. */
  function Corner(q: Box, d: nat): Box
    requires Valid(q) && d <= q.dim
  {
    Box(d, true, seq(d, i requires 0 <= i < d => LL(q, i)))
  }

  lemma {:induction false} OneLeaf(c: Box, s: Strategy, q: Box)
    requires Valid(c) && Valid(q) && Matches(s, c, q) && !MayMatch(s, c, q)
    ensures Built(Node(c, [Leaf(c)])) && AtLeast(Node(c, [Leaf(c)]), c.dim)
    ensures Answers(Node(c, [Leaf(c)]), s, q) == [c] && Search(Node(c, [Leaf(c)]), s, q) == []
  {
    EnclosesItself(c);
    var kids := [Leaf(c)];
    var parts := seq(1, i requires 0 <= i < 1 => Answers(kids[i], s, q));
    assert Answers(kids[0], s, q) == [c];
    assert parts == [[c]];
    assert parts[..0] == [] && Concat(parts) == Concat(parts[..0]) + parts[0];
    assert seq(|kids|, i requires 0 <= i < |kids| => Answers(kids[i], s, q)) == parts;
  }

  lemma CornerMissed(q: Box, d: nat, i: nat)
    requires Valid(q) && d <= i < q.dim && !(Lo(q, i) <= 0.0 <= Hi(q, i))
    ensures Matches(ContainedBy, Corner(q, d), q) && !MayMatch(ContainedBy, Corner(q, d), q)
  {
    var c := Corner(q, d);
    forall k: nat | k < d
      ensures Inside(c, q, k)
    {
      assert LL(c, k) == UR(c, k) == LL(q, k);
    }
    assert !Meet(c, q, i);
  }

  ghost predicate ExactOn(t: Tree, q: Box, d: nat)
    requires Valid(q)
  {
    Built(t) && AtLeast(t, d) ==> Search(t, ContainedBy, q) == Answers(t, ContainedBy, q)
  }

  /** A contained-by search is exact on all trees of boxes of d or more dimensions
      if and only if the query reaches zero in all its dimensions from d on. */
  lemma ContainedByExactIff(q: Box, d: nat)
    requires Valid(q)
    ensures (forall t :: ExactOn(t, q, d)) <==> Straddles(q, d)
  {
    if Straddles(q, d) {
      forall t
        ensures ExactOn(t, q, d)
      {
        if Built(t) && AtLeast(t, d) {
          SearchIsExact(t, ContainedBy, q, d);
        }
      }
    } else {
      var i: nat :| d <= i < q.dim && !(Lo(q, i) <= 0.0 <= Hi(q, i));
      var c := Corner(q, d);
      CornerMissed(q, d, i);
      OneLeaf(c, ContainedBy, q);
      assert !ExactOn(Node(c, [Leaf(c)]), q, d);
    }
  }

  /** For one, the stored point (0) is not found by a search for what is contained
      in (0, 5), (0, 6). */
  lemma ContainedByMisses()
    ensures var c, q := Box(1, true, [0.0]), Box(2, false, [0.0, 5.0, 0.0, 6.0]);
            Contains(q, c) && Built(Node(c, [Leaf(c)]))
            && Answers(Node(c, [Leaf(c)]), ContainedBy, q) == [c] && Search(Node(c, [Leaf(c)]), ContainedBy, q) == []
  {
    var c, q := Box(1, true, [0.0]), Box(2, false, [0.0, 5.0, 0.0, 6.0]);
    assert Corner(q, 1) == c;
    CornerMissed(q, 1, 1);
    OneLeaf(c, ContainedBy, q);
  }

  // The operations keep the tree built.

  function KeysOf(kids: seq<Tree>): (es: seq<Box>)
    ensures |es| == |kids| && forall i :: 0 <= i < |kids| ==> es[i] == kids[i].key
  {
    seq(|kids|, i requires 0 <= i < |kids| => kids[i].key)
  }

  ghost predicate AllBuilt(kids: seq<Tree>) {
    forall i :: 0 <= i < |kids| ==> Built(kids[i])
  }

  /** A parent whose key is the union of its children's keys. */
  method MakeNode(kids: seq<Tree>) returns (t: Tree)
    requires |kids| >= 2 && AllBuilt(kids)
    ensures Built(t) && t.Node? && t.kids == kids && Least(t.key, KeysOf(kids))
  {
    var key := UnionAll(KeysOf(kids));
    t := Node(key, kids);
    forall i | 0 <= i < |kids|
      ensures Encloses(key, kids[i].key)
    {
      assert Encloses(key, KeysOf(kids)[i]);
    }
  }

  function PickKids(kids: seq<Tree>, offs: seq<nat>): (r: seq<Tree>)
    requires InRange(offs, |kids|)
    ensures |r| == |offs| && forall i :: 0 <= i < |offs| ==> r[i] == kids[offs[i] - 1]
  {
    seq(|offs|, i requires 0 <= i < |offs| => kids[offs[i] - 1])
  }

  /** A built node over the children at the offsets. */
  ghost predicate Half(kids: seq<Tree>, offs: seq<nat>, t: Tree) {
    offs != [] && InRange(offs, |kids|) && Built(t) && t.Node? && t.kids == PickKids(kids, offs)
  }

  /** The entry vector of a page: offset 0 is not used. */
  ghost predicate EntryVector(es: seq<Box>, kids: seq<Tree>) {
    |es| == |kids| + 1 && forall i :: 0 <= i < |kids| ==> es[i + 1] == kids[i].key
  }

  method Entries(kids: seq<Tree>) returns (es: seq<Box>)
    requires AllBuilt(kids)
    ensures EntryVector(es, kids) && AllValid(es)
  {
    es := [Box(0, true, [])] + KeysOf(kids);
    forall i | 1 <= i < |es|
      ensures Valid(es[i])
    {
      assert Built(kids[i - 1]);
    }
  }

  /** The key encloses the entries of its side. */
  ghost predicate SideReady(kids: seq<Tree>, es: seq<Box>, key: Box, offs: seq<nat>) {
    && AllBuilt(kids) && EntryVector(es, kids) && Valid(key)
    && offs != [] && InRange(offs, |kids|) && EnclosesTo(key, Pick(es, offs), |offs|)
  }

  lemma ReadySide(kids: seq<Tree>, es: seq<Box>, key: Box, offs: seq<nat>)
    requires AllBuilt(kids) && EntryVector(es, kids) && offs != [] && SideOk(es, key, offs)
    ensures SideReady(kids, es, key, offs)
  {
  }

  method MakeHalf(kids: seq<Tree>, es: seq<Box>, key: Box, offs: seq<nat>) returns (t: Tree)
    requires SideReady(kids, es, key, offs)
    ensures Half(kids, offs, t)
  {
    forall i | 0 <= i < |offs|
      ensures Encloses(key, PickKids(kids, offs)[i].key)
    {
      assert Encloses(key, Pick(es, offs)[i]);
      assert es[offs[i] - 1 + 1] == kids[offs[i] - 1].key;
    }
    t := Node(key, PickKids(kids, offs));
  }

  method SplitKeys(kids: seq<Tree>)
    returns (es: seq<Box>, left: seq<nat>, right: seq<nat>, lkey: Box, rkey: Box)
    requires |kids| >= 2 && AllBuilt(kids)
    ensures Partition(|kids|, left, right)
    ensures SideReady(kids, es, lkey, left)
    ensures SideReady(kids, es, rkey, right)
  {
    es := Entries(kids);
    left, right, lkey, rkey := PickSplit(es);
    ReadySide(kids, es, lkey, left);
    ReadySide(kids, es, rkey, right);
  }

  /** Splitting an overfull page: both halves are built trees, and together they
      hold each child exactly once. */
  method SplitNode(kids: seq<Tree>) returns (l: Tree, r: Tree, left: seq<nat>, right: seq<nat>)
    requires |kids| >= 2 && AllBuilt(kids)
    ensures Partition(|kids|, left, right)
    ensures Half(kids, left, l)
    ensures Half(kids, right, r)
  {
    var es, lkey, rkey;
    es, left, right, lkey, rkey := SplitKeys(kids);
    l := MakeHalf(kids, es, lkey, left);
    r := MakeHalf(kids, es, rkey, right);
  }
}
