/** The GiST signature tree over hstores (contrib/hstore/hstore_gist.c).  The
    checksum of a string is a parameter. */
module HStoreGist {
  import opened Wrappers
  import opened HStoreBase
  import opened HStorePack
  import opened HStoreUnique
  import opened HStoreFind
  import opened GistSupport

  /** The 128 bits of a signature. */
  type Sign = s: seq<bool> | |s| == 128 witness seq(128, i => false)

  /** A key of the tree: a signature, or the mark that every bit is set. */
  datatype Key = AllTrue | Sig(bits: Sign)

  predicate HasBit(k: Key, b: nat)
    requires b < 128
  {
    k.AllTrue? || k.bits[b]
  }

  /** Every bit of l is a bit of k. */
  ghost predicate Covers(k: Key, l: Key) {
    forall b :: 0 <= b < 128 && HasBit(l, b) ==> HasBit(k, b)
  }

  type Crc = Bytes -> int

  /** The bit of a string: its checksum, taken unsigned, modulo 128. */
  function HashVal(crc: Crc, s: Bytes): (b: nat)
    ensures b < 128
  {
    crc(s) % 128
  }

  /** Strings share a bit exactly when their checksums differ by a multiple of 128. */
  lemma SameBitIff(crc: Crc, s: Bytes, t: Bytes)
    ensures HashVal(crc, s) == HashVal(crc, t) <==> (crc(s) - crc(t)) % 128 == 0
  {
  }

  // ---------------------------------------------------------- leaf signatures

  predicate PairHashes(crc: Crc, p: Pair, b: nat) {
    b == HashVal(crc, p.key) || (p.val.Some? && b == HashVal(crc, p.val.value))
  }

  /** Bit b comes from a key or a value of the mapping. */
  ghost predicate Hashed(crc: Crc, m: Mapping, b: nat) {
    exists k :: k in m && PairHashes(crc, Pair(k, m[k]), b)
  }

  ghost predicate HashedBefore(crc: Crc, ps: seq<Pair>, n: nat, b: nat)
    requires n <= |ps|
  {
    exists i :: 0 <= i < n && PairHashes(crc, ps[i], b)
  }

  lemma HashedIff(crc: Crc, ps: seq<Pair>, b: nat)
    requires Sorted(ps)
    ensures HashedBefore(crc, ps, |ps|, b) <==> Hashed(crc, MapOf(ps), b)
  {
    var m := MapOf(ps);
    if HashedBefore(crc, ps, |ps|, b) {
      var i :| 0 <= i < |ps| && PairHashes(crc, ps[i], b);
      MapOfAt(ps, i);
      assert PairHashes(crc, Pair(ps[i].key, m[ps[i].key]), b);
    }
    if Hashed(crc, m, b) {
      var k :| k in m && PairHashes(crc, Pair(k, m[k]), b);
      MapOfKeys(ps, k);
      var i :| 0 <= i < |ps| && ps[i].key == k;
      MapOfAt(ps, i);
      assert PairHashes(crc, ps[i], b);
    }
  }

  /** Hashes pair i into the signature. */
  method HashPair(crc: Crc, h: HStore, i: nat, sign: array<bool>)
    requires WF(h) && i < h.count && sign.Length == 128
    modifies sign
    ensures forall b :: 0 <= b < 128 ==> (sign[b] <==> old(sign[b]) || PairHashes(crc, PairsOf(h)[i], b))
  {
    var key := ReadKey(h, i);
    var isnull, val := ReadVal(h, i);
    sign[HashVal(crc, key)] := true;
    if !isnull {
      sign[HashVal(crc, val)] := true;
    }
  }

  /** The signature of a stored value: the bits of its keys and values, no others. */
  method CompressLeaf(crc: Crc, h: HStore) returns (k: Key)
    requires WF(h)
    ensures k.Sig?
    ensures forall b :: 0 <= b < 128 ==> (HasBit(k, b) <==> Hashed(crc, Decode(h), b))
  {
    hide Strings, End;
    var sign := new bool[128](i => false);
    var i := 0;
    ghost var ps := PairsOf(h);
    while i < h.count
      invariant 0 <= i <= h.count == |ps|
      invariant forall b :: 0 <= b < 128 ==> (sign[b] <==> HashedBefore(crc, ps, i, b))
    {
      ghost var was := sign[..];
      HashPair(crc, h, i, sign);
      forall b | 0 <= b < 128
        ensures HashedBefore(crc, ps, i + 1, b) <==> HashedBefore(crc, ps, i, b) || PairHashes(crc, ps[i], b)
      {
      }
      i := i + 1;
    }
    forall b | 0 <= b < 128
      ensures HashedBefore(crc, ps, |ps|, b) <==> Hashed(crc, Decode(h), b)
    {
      HashedIff(crc, ps, b);
    }
    k := Sig(sign[..]);
  }

  /** An inner key whose bits are all set is replaced by the mark. */
  method CompressInner(key: Key) returns (k: Key)
    ensures forall b :: 0 <= b < 128 ==> (HasBit(k, b) <==> HasBit(key, b))
    ensures k.AllTrue? <==> forall b :: 0 <= b < 128 ==> HasBit(key, b)
  {
    if key.AllTrue? {
      return key;
    }
    var i := 0;
    while i < 128
      invariant 0 <= i <= 128
      invariant forall b :: 0 <= b < i ==> key.bits[b]
    {
      if !key.bits[i] {
        assert !HasBit(key, i);
        return key;
      }
      i := i + 1;
    }
    return AllTrue;
  }

  // ------------------------------------------------------------------ unions

  /** Ors a key into the base; true when the key has every bit. */
  method UnionKey(base: array<bool>, add: Key) returns (all: bool)
    requires base.Length == 128
    modifies base
    ensures all <==> add.AllTrue?
    ensures all ==> base[..] == old(base[..])
    ensures !all ==> forall b :: 0 <= b < 128 ==> (base[b] <==> old(base[b]) || HasBit(add, b))
  {
    if add.AllTrue? {
      return true;
    }
    var i := 0;
    while i < 128
      invariant 0 <= i <= 128
      invariant forall b :: 0 <= b < i ==> (base[b] <==> old(base[b]) || HasBit(add, b))
      invariant forall b :: i <= b < 128 ==> base[b] == old(base[b])
    {
      base[i] := base[i] || add.bits[i];
      i := i + 1;
    }
    return false;
  }

  /** Some key among the first n has the bit. */
  ghost predicate InSome(es: seq<Key>, n: nat, b: nat)
    requires n <= |es| && b < 128
  {
    exists i :: 0 <= i < n && HasBit(es[i], b)
  }

  /** The union has exactly the bits of its entries. */
  method Union(es: seq<Key>) returns (k: Key)
    ensures forall b :: 0 <= b < 128 ==> (HasBit(k, b) <==> InSome(es, |es|, b))
    ensures forall i :: 0 <= i < |es| ==> Covers(k, es[i])
  {
    var base := new bool[128](i => false);
    var i := 0;
    while i < |es|
      invariant 0 <= i <= |es|
      invariant forall b :: 0 <= b < 128 ==> (base[b] <==> InSome(es, i, b))
    {
      ghost var was := base[..];
      var all := UnionKey(base, es[i]);
      if all {
        assert forall b :: 0 <= b < 128 ==> HasBit(es[i], b);
        return AllTrue;
      }
      forall b | 0 <= b < 128
        ensures InSome(es, i + 1, b) <==> InSome(es, i, b) || HasBit(es[i], b)
      {
      }
      i := i + 1;
    }
    k := Sig(base[..]);
  }

  // --------------------------------------------------------------- distances

  ghost function Ones(s: Sign, n: nat): nat
    requires n <= 128
  {
    if n == 0 then 0 else Ones(s, n - 1) + (if s[n - 1] then 1 else 0)
  }

  /** On how many of the first n bits two keys differ. */
  ghost function Differing(a: Key, b: Key, n: nat): nat
    requires n <= 128
  {
    if n == 0 then 0 else Differing(a, b, n - 1) + (if HasBit(a, n - 1) != HasBit(b, n - 1) then 1 else 0)
  }

  lemma {:induction false} DifferingLaws(a: Key, b: Key, n: nat)
    requires n <= 128
    ensures Differing(a, b, n) == Differing(b, a, n) <= n
    ensures a.AllTrue? && b.AllTrue? ==> Differing(a, b, n) == 0
    ensures a.AllTrue? && b.Sig? ==> Differing(a, b, n) == n - Ones(b.bits, n)
    ensures Differing(a, b, n) == 0 <==> forall i :: 0 <= i < n ==> HasBit(a, i) == HasBit(b, i)
  {
    if n > 0 {
      DifferingLaws(a, b, n - 1);
    }
  }

  ghost function DifferingBits(a: Key, b: Key, n: nat): set<nat>
    requires n <= 128
  {
    set i: nat | i < n && HasBit(a, i) != HasBit(b, i)
  }

  lemma OneBitMore(a: Key, b: Key, n: nat)
    requires n < 128
    ensures n !in DifferingBits(a, b, n)
    ensures DifferingBits(a, b, n + 1)
            == DifferingBits(a, b, n) + if HasBit(a, n) != HasBit(b, n) then {n} else {}
  {
    hide HasBit;
  }

  /** The distance counts the bits that only one of the keys has. */
  lemma {:induction false} DifferingCounts(a: Key, b: Key, n: nat)
    requires n <= 128
    ensures Differing(a, b, n) == |DifferingBits(a, b, n)|
  {
    if n == 0 {
      assert DifferingBits(a, b, n) == {};
    } else {
      DifferingCounts(a, b, n - 1);
      OneBitMore(a, b, n - 1);
      hide DifferingBits, HasBit;
    }
  }

  method SizeBitVec(s: Sign) returns (size: nat)
    ensures size == Ones(s, 128)
  {
    size := 0;
    var i := 0;
    while i < 128
      invariant 0 <= i <= 128 && size == Ones(s, i)
    {
      size := size + (if s[i] then 1 else 0);
      i := i + 1;
    }
  }

  method HemDistSign(a: Sign, b: Sign) returns (dist: nat)
    ensures dist == Differing(Sig(a), Sig(b), 128)
  {
    dist := 0;
    var i := 0;
    while i < 128
      invariant 0 <= i <= 128 && dist == Differing(Sig(a), Sig(b), i)
    {
      if a[i] != b[i] {
        dist := dist + 1;
      }
      i := i + 1;
    }
  }

  /** The distance is the number of bits on which the keys differ. */
  method HemDist(a: Key, b: Key) returns (dist: int)
    ensures dist == Differing(a, b, 128)
  {
    DifferingLaws(a, b, 128);
    DifferingLaws(b, a, 128);
    if a.AllTrue? {
      if b.AllTrue? {
        return 0;
      }
      var size := SizeBitVec(b.bits);
      return 128 - size;
    } else if b.AllTrue? {
      var size := SizeBitVec(a.bits);
      return 128 - size;
    }
    dist := HemDistSign(a.bits, b.bits);
  }

  // ------------------------------------------------------------ the page split

  /** One side of a split: the offsets moved there, and its key, of which the
      bits are or-ed in place and the mark is fixed by the seed. */
  class Side {
    const all: bool
    const union: array<bool>
    var offs: seq<nat>

    constructor (seed: Key)
      ensures union.Length == 128 && fresh(union) && offs == [] && ThisKey() == seed
    {
      all := seed.AllTrue?;
      union := new bool[128](i requires 0 <= i < 128 => HasBit(seed, i));
      offs := [];
      new;
      assert seed.Sig? ==> union[..] == seed.bits;
    }

    function ThisKey(): Key
      requires union.Length == 128
      reads union
    {
      if all then AllTrue else Sig(union[..])
    }

    /** Adds an entry: afterwards the key has the bits it had and those of e. */
    method Add(j: nat, e: Key)
      requires union.Length == 128
      modifies this, union
      ensures offs == old(offs) + [j]
      ensures forall b :: 0 <= b < 128 ==> (HasBit(ThisKey(), b) <==> HasBit(old(ThisKey()), b) || HasBit(e, b))
    {
      offs := offs + [j];
      if all || e.AllTrue? {
        if !all {
          forall i | 0 <= i < 128 {
            union[i] := true;
          }
        }
      } else {
        var any := UnionKey(union, e);
      }
    }
  }

  ghost function Apart(es: seq<Key>, i: nat, j: nat): nat
    requires i < |es| && j < |es|
  {
    Differing(es[i], es[j], 128)
  }

  /** The seeds are a pair of offsets up to maxoff at the distance waste. */
  ghost predicate SeedsAt(es: seq<Key>, maxoff: nat, waste: int, seed1: nat, seed2: nat)
    requires maxoff < |es|
  {
    1 <= seed1 < seed2 <= maxoff && waste == Apart(es, seed1, seed2)
  }

  /** The inner loop: entry k against every later entry up to maxoff. */
  method SeedRow(es: seq<Key>, maxoff: nat, k: nat, waste0: int, s1: nat, s2: nat)
    returns (waste: int, seed1: nat, seed2: nat)
    requires 1 <= k < maxoff < |es|
    requires waste0 == -1 || SeedsAt(es, maxoff, waste0, s1, s2)
    ensures waste0 <= waste && SeedsAt(es, maxoff, waste, seed1, seed2)
    ensures forall j :: k < j <= maxoff ==> Apart(es, k, j) <= waste
  {
    waste, seed1, seed2 := waste0, s1, s2;
    var j := k + 1;
    while j <= maxoff
      invariant k < j <= maxoff + 1 && waste0 <= waste
      invariant (waste == -1 && j == k + 1) || SeedsAt(es, maxoff, waste, seed1, seed2)
      invariant forall l :: k < l < j ==> Apart(es, k, l) <= waste
    {
      var size := HemDist(es[k], es[j]);
      if size > waste {
        waste, seed1, seed2 := size, k, j;
      }
      j := j + 1;
    }
  }

  /** The pair of seeds: a pair at the greatest distance among all entries but
      the last, or the first two entries when there is no such pair. */
  method PickSeeds(es: seq<Key>) returns (seed1: nat, seed2: nat)
    requires |es| >= 3
    ensures 1 <= seed1 < seed2 < |es|
    ensures forall i, j :: 1 <= i < j <= |es| - 2 ==> Apart(es, i, j) <= Apart(es, seed1, seed2)
  {
    var maxoff := |es| - 2;
    var waste := -1;
    seed1, seed2 := 0, 0;
    var k := 1;
    while k < maxoff
      invariant 1 <= k <= maxoff
      invariant if k == 1 then waste == -1 && seed1 == 0 else SeedsAt(es, maxoff, waste, seed1, seed2)
      invariant forall i, j :: 1 <= i < k && i < j <= maxoff ==> Apart(es, i, j) <= waste
    {
      waste, seed1, seed2 := SeedRow(es, maxoff, k, waste, seed1, seed2);
      k := k + 1;
    }
    if seed1 == 0 || seed2 == 0 {
      seed1, seed2 := 1, 2;
    }
  }

  ghost predicate Ascending(costs: seq<int>, order: seq<nat>) {
    && (forall i :: 0 <= i < |order| ==> order[i] < |costs|)
    && (forall i :: 1 <= i < |order| ==> costs[order[i - 1]] <= costs[order[i]])
  }

  ghost predicate AllBelow(order: seq<nat>, n: nat) {
    forall i :: 0 <= i < |order| ==> order[i] < n
  }

  /** Inserting an offset by its cost, as the place k counts down. */
  function InsertByCost(costs: seq<int>, order: seq<nat>, j: nat, k: nat): seq<nat>
    requires j < |costs| && AllBelow(order, |costs|) && k <= |order|
  {
    if k == 0 || costs[order[k - 1]] <= costs[j] then order[..k] + [j] + order[k..]
    else InsertByCost(costs, order, j, k - 1)
  }

  lemma InsertedOnce(order: seq<nat>, j: nat, k: nat)
    requires k <= |order|
    ensures multiset(order[..k] + [j] + order[k..]) == multiset(order) + multiset{j}
  {
    assert order == order[..k] + order[k..];
  }

  lemma InsertAt(costs: seq<int>, order: seq<nat>, j: nat, k: nat, r: seq<nat>)
    requires j < |costs| && Ascending(costs, order) && k <= |order| && r == order[..k] + [j] + order[k..]
    requires k < |order| ==> costs[j] <= costs[order[k]]
    requires k > 0 ==> costs[order[k - 1]] <= costs[j]
    ensures Ascending(costs, r)
  {
    assert forall i :: 0 <= i < k ==> r[i] == order[i];
    assert forall i :: k < i < |r| ==> r[i] == order[i - 1];
  }

  lemma {:induction false} InsertKeepsOrder(costs: seq<int>, order: seq<nat>, j: nat, k: nat)
    requires j < |costs| && Ascending(costs, order) && k <= |order|
    requires k < |order| ==> costs[j] <= costs[order[k]]
    ensures Ascending(costs, InsertByCost(costs, order, j, k))
    ensures multiset(InsertByCost(costs, order, j, k)) == multiset(order) + multiset{j}
  {
    if k == 0 || costs[order[k - 1]] <= costs[j] {
      InsertAt(costs, order, j, k, order[..k] + [j] + order[k..]);
      InsertedOnce(order, j, k);
    } else {
      InsertKeepsOrder(costs, order, j, k - 1);
    }
  }

  /** The offsets 1 to n in cost order; stands in for the library sort. */
  method SortOffsets(costs: seq<int>, n: nat) returns (order: seq<nat>)
    requires n < |costs|
    ensures Ascending(costs, order)
    ensures OnceEach(multiset(order), n)
  {
    order := [];
    var j := 0;
    while j < n
      invariant 0 <= j <= n
      invariant Ascending(costs, order) && OnceEach(multiset(order), j)
    {
      OnceGrows(multiset(order), j);
      InsertKeepsOrder(costs, order, j + 1, |order|);
      order := InsertByCost(costs, order, j + 1, |order|);
      j := j + 1;
    }
  }

  /** How much nearer an entry is to one seed than to the other. */
  ghost function Preference(l: Key, r: Key, e: Key): nat {
    var d := Differing(l, e, 128) - Differing(r, e, 128);
    if d < 0 then -d else d
  }

  method Costs(es: seq<Key>, l: Key, r: Key) returns (costs: seq<int>)
    requires es != []
    ensures |costs| == |es| && forall j :: 1 <= j < |es| ==> costs[j] == Preference(l, r, es[j])
  {
    costs := [0];
    while |costs| < |es|
      invariant 1 <= |costs| <= |es|
      invariant forall j :: 1 <= j < |costs| ==> costs[j] == Preference(l, r, es[j])
    {
      var alpha := HemDist(l, es[|costs|]);
      var beta := HemDist(r, es[|costs|]);
      costs := costs + [if alpha < beta then beta - alpha else alpha - beta];
    }
  }

  /** The bonus for the smaller side. */
  function Wish(a: int, b: int): real {
    -(((a - b) * (a - b) * (a - b)) as real) * 0.0001
  }

  /** The bonus grows with the lead of the other side. */
  lemma WishOf(a: int, b: int)
    ensures Wish(a, b) == -Wish(b, a)
    ensures a < b ==> Wish(a, b) > 0.0
    ensures b - a >= 109 ==> Wish(a, b) > 128.0
  {
    var d := a - b;
    if a < b {
      assert d * d > 0 && d * d * d < 0;
      CubeOf(b - a, d);
    }
    assert (b - a) * (b - a) * (b - a) == -(d * d * d);
  }

  lemma CubeOf(e: int, d: int)
    requires e == -d
    ensures e * e * e == -(d * d * d)
    ensures e >= 109 ==> e * e * e >= 1295029
  {
    if e >= 109 {
      assert e * e >= 109 * 109;
      assert e * e * e >= 109 * 109 * 109;
    }
  }

  /** Some entry among the offsets has the bit. */
  ghost predicate OneHas(es: seq<Key>, offs: seq<nat>, b: nat)
    requires b < 128 && forall i :: 0 <= i < |offs| ==> offs[i] < |es|
  {
    exists i :: 0 <= i < |offs| && HasBit(es[offs[i]], b)
  }

  /** The key has exactly the bits of the entries moved to its side. */
  ghost predicate Exact(es: seq<Key>, key: Key, offs: seq<nat>) {
    && (forall i :: 0 <= i < |offs| ==> 1 <= offs[i] < |es|)
    && (forall b :: 0 <= b < 128 ==> (HasBit(key, b) <==> OneHas(es, offs, b)))
  }

  /** The same while the seed is already in the key and not yet on the side. */
  ghost predicate Growing(es: seq<Key>, key: Key, seed: nat, offs: seq<nat>)
    requires seed < |es|
  {
    && (forall i :: 0 <= i < |offs| ==> 1 <= offs[i] < |es|)
    && (forall b :: 0 <= b < 128 ==> (HasBit(key, b) <==> HasBit(es[seed], b) || OneHas(es, offs, b)))
  }

  lemma OneHasStep(es: seq<Key>, offs: seq<nat>, j: nat, b: nat)
    requires b < 128 && j < |es| && forall i :: 0 <= i < |offs| ==> offs[i] < |es|
    ensures OneHas(es, offs + [j], b) <==> OneHas(es, offs, b) || HasBit(es[j], b)
  {
    var more := offs + [j];
    if OneHas(es, offs, b) {
      var i :| 0 <= i < |offs| && HasBit(es[offs[i]], b);
      assert more[i] == offs[i];
    }
    if HasBit(es[j], b) {
      assert more[|offs|] == j;
    }
    if OneHas(es, more, b) {
      var i :| 0 <= i < |more| && HasBit(es[more[i]], b);
      if i < |offs| {
        assert more[i] == offs[i];
      }
    }
  }

  lemma Grows(es: seq<Key>, key: Key, seed: nat, offs: seq<nat>, j: nat, key': Key)
    requires seed < |es| && 1 <= j < |es| && Growing(es, key, seed, offs)
    requires forall b :: 0 <= b < 128 ==> (HasBit(key', b) <==> HasBit(key, b) || HasBit(es[j], b))
    ensures Growing(es, key', seed, offs + [j])
  {
    forall b | 0 <= b < 128
      ensures OneHas(es, offs + [j], b) <==> OneHas(es, offs, b) || HasBit(es[j], b)
    {
      OneHasStep(es, offs, j, b);
    }
  }

  lemma SeedArrived(es: seq<Key>, key: Key, seed: nat, offs: seq<nat>)
    requires seed < |es| && Growing(es, key, seed, offs) && seed in offs
    ensures Exact(es, key, offs)
  {
    var i :| 0 <= i < |offs| && offs[i] == seed;
    assert forall b :: 0 <= b < 128 && HasBit(es[seed], b) ==> OneHas(es, offs, b);
  }

  /** Where an entry that is no seed goes. */
  method GoesLeft(l: Key, r: Key, e: Key, nleft: nat, nright: nat) returns (res: bool)
    ensures res <==> Differing(l, e, 128) as real < Differing(r, e, 128) as real + Wish(nleft, nright)
    ensures nright >= nleft + 109 ==> res
    ensures nleft >= nright + 109 ==> !res
  {
    WishOf(nleft, nright);
    WishOf(nright, nleft);
    DifferingLaws(l, e, 128);
    DifferingLaws(r, e, 128);
    var alpha := HemDist(l, e);
    var beta := HemDist(r, e);
    return alpha as real < beta as real + Wish(nleft, nright);
  }

  /** What one step of the distribution keeps. */
  ghost predicate Distributed(es: seq<Key>, order: seq<nat>, k: nat, seed1: nat, seed2: nat, left: Side, right: Side)
    requires left.union.Length == 128 && right.union.Length == 128
    reads left, left.union, right, right.union
  {
    && 1 <= seed1 < |es| && 1 <= seed2 < |es| && k <= |order|
    && Growing(es, left.ThisKey(), seed1, left.offs) && Growing(es, right.ThisKey(), seed2, right.offs)
    && multiset(left.offs) + multiset(right.offs) == multiset(order[..k])
    && (seed1 in order[..k] ==> seed1 in left.offs) && (seed2 in order[..k] ==> seed2 in right.offs)
  }

  /** Neither side is ahead of the other by more than 109 entries, seeds not counted. */
  ghost predicate Balanced(nleft: nat, nright: nat, lead1: bool, lead2: bool) {
    nleft <= nright + 109 + (if lead1 then 1 else 0) && nright <= nleft + 109 + if lead2 then 1 else 0
  }

  lemma OrderStep(order: seq<nat>, k: nat)
    requires k < |order|
    ensures multiset(order[..k + 1]) == multiset(order[..k]) + multiset{order[k]}
    ensures forall x :: x in order[..k + 1] <==> x in order[..k] || x == order[k]
  {
    assert order[..k + 1] == order[..k] + [order[k]];
  }

  /** Moves one entry: a seed to its side without touching the keys, any other
      entry to the side that GoesLeft names. */
  method Move(es: seq<Key>, order: seq<nat>, k: nat, seed1: nat, seed2: nat, left: Side, right: Side)
    requires left.union.Length == 128 && right.union.Length == 128
    requires left != right && left.union != right.union
    requires k < |order| && 1 <= order[k] < |es| && seed1 != seed2
    requires Distributed(es, order, k, seed1, seed2, left, right)
    requires order[k] !in order[..k]
    requires Balanced(|left.offs|, |right.offs|, seed1 in order[..k], seed2 in order[..k])
    modifies left, left.union, right, right.union
    ensures Distributed(es, order, k + 1, seed1, seed2, left, right)
    ensures Balanced(|left.offs|, |right.offs|, seed1 in order[..k + 1], seed2 in order[..k + 1])
  {
    var j := order[k];
    OrderStep(order, k);
    ghost var lkey, loffs, rkey, roffs := left.ThisKey(), left.offs, right.ThisKey(), right.offs;
    var toLeft;
    if j == seed1 {
      left.offs := left.offs + [j];
      toLeft := true;
    } else if j == seed2 {
      right.offs := right.offs + [j];
      toLeft := false;
    } else {
      toLeft := GoesLeft(left.ThisKey(), right.ThisKey(), es[j], |left.offs|, |right.offs|);
      if toLeft {
        left.Add(j, es[j]);
      } else {
        right.Add(j, es[j]);
      }
    }
    if toLeft {
      Grows(es, lkey, seed1, loffs, j, left.ThisKey());
    } else {
      Grows(es, rkey, seed2, roffs, j, right.ThisKey());
    }
  }

  lemma NotBefore(order: seq<nat>, n: nat, k: nat)
    requires OnceEach(multiset(order), n) && k < |order|
    ensures order[k] !in order[..k]
  {
    assert order == order[..k] + ([order[k]] + order[k + 1..]);
    assert multiset(order)[order[k]] <= 1;
  }

  /** The split: every entry goes to exactly one side, neither side is empty or more
      than 110 entries ahead of the other, and the key of a side has exactly the bits
      of its entries. */
  method PickSplit(es: seq<Key>) returns (left: seq<nat>, right: seq<nat>, lkey: Key, rkey: Key)
    requires |es| >= 3
    ensures Partition(|es| - 1, left, right) && left != [] && right != []
    ensures |left| <= |right| + 110 && |right| <= |left| + 110
    ensures Exact(es, lkey, left) && Exact(es, rkey, right)
  {
    var seed1, seed2 := PickSeeds(es);
    var l := new Side(es[seed1]);
    var r := new Side(es[seed2]);
    var costs := Costs(es, es[seed1], es[seed2]);
    var order := SortOffsets(costs, |es| - 1);
    OffsetsIn(order, |es| - 1);
    var k := 0;
    while k < |order|
      invariant 0 <= k <= |order|
      invariant Distributed(es, order, k, seed1, seed2, l, r)
      invariant Balanced(|l.offs|, |r.offs|, seed1 in order[..k], seed2 in order[..k])
    {
      NotBefore(order, |es| - 1, k);
      Move(es, order, k, seed1, seed2, l, r);
      k := k + 1;
    }
    assert order[..k] == order;
    assert seed1 in order && seed2 in order;
    left, right, lkey, rkey := l.offs, r.offs, l.ThisKey(), r.ThisKey();
    SeedArrived(es, lkey, seed1, left);
    SeedArrived(es, rkey, seed2, right);
  }

  // ----------------------------------------------------------------- searching

  /** The searches the operator class supports. */
  datatype Query =
    | ContainsAll(sub: HStore)
    | HasOne(key: Bytes)
    | HasAll(keys: seq<Option<Bytes>>)
    | HasAny(keys: seq<Option<Bytes>>)

  ghost predicate QueryOk(q: Query) {
    q.ContainsAll? ==> WF(q.sub)
  }

  /** What the operators say of a stored mapping. */
  ghost predicate Satisfies(m: Mapping, q: Query)
    requires QueryOk(q)
  {
    match q
    case ContainsAll(sub) => Submap(Decode(sub), m)
    case HasOne(key) => key in m
    case HasAll(keys) => forall k :: InArray(k, keys) ==> k in m
    case HasAny(keys) => exists k :: InArray(k, keys) && k in m
  }

  predicate KeyBit(crc: Crc, key: Key, s: Bytes) {
    HasBit(key, HashVal(crc, s))
  }

  predicate PairBits(crc: Crc, key: Key, p: Pair) {
    KeyBit(crc, key, p.key) && (p.val.Some? ==> KeyBit(crc, key, p.val.value))
  }

  /** The key has the bits that every value satisfying the query has. */
  ghost predicate BitsFor(crc: Crc, key: Key, q: Query)
    requires QueryOk(q)
  {
    match q
    case ContainsAll(sub) => forall i :: 0 <= i < |PairsOf(sub)| ==> PairBits(crc, key, PairsOf(sub)[i])
    case HasOne(k) => KeyBit(crc, key, k)
    case HasAll(keys) => forall k :: InArray(k, keys) ==> KeyBit(crc, key, k)
    case HasAny(keys) => exists k :: InArray(k, keys) && KeyBit(crc, key, k)
  }

  /** What a key of the tree says about a query. */
  ghost predicate MayMatch(crc: Crc, key: Key, q: Query)
    requires QueryOk(q)
  {
    key.AllTrue? || BitsFor(crc, key, q)
  }

  /** The signature of the mapping lies within the key. */
  ghost predicate Within(crc: Crc, m: Mapping, key: Key) {
    forall k :: k in m ==> PairBits(crc, key, Pair(k, m[k]))
  }

  ghost function ArrayKeys(keys: seq<Option<Bytes>>): set<Bytes> {
    set i | 0 <= i < |keys| && keys[i].Some? :: keys[i].value
  }

  lemma ArrayKeysIff(keys: seq<Option<Bytes>>)
    ensures forall k :: k in ArrayKeys(keys) <==> InArray(k, keys)
  {
    forall k | InArray(k, keys)
      ensures k in ArrayKeys(keys)
    {
      var i :| 0 <= i < |keys| && keys[i] == Some(k);
    }
  }

  /** A mapping whose signature lies within the key and that satisfies the query. */
  lemma Possible(crc: Crc, key: Key, q: Query) returns (m: Mapping)
    requires QueryOk(q) && BitsFor(crc, key, q)
    ensures Satisfies(m, q) && Within(crc, m, key)
  {
    match q {
      case ContainsAll(sub) =>
        m := Decode(sub);
        SubmapIff(PairsOf(sub), m);
        var ps := PairsOf(sub);
        forall k | k in m
          ensures PairBits(crc, key, Pair(k, m[k]))
        {
          MapOfKeys(ps, k);
          var i :| 0 <= i < |ps| && ps[i].key == k;
          MapOfAt(ps, i);
          assert PairBits(crc, key, ps[i]);
        }
      case HasOne(k) => m := map[k := None];
      case HasAll(keys) =>
        ArrayKeysIff(keys);
        m := map k | k in ArrayKeys(keys) :: None;
      case HasAny(keys) =>
        var k :| InArray(k, keys) && KeyBit(crc, key, k);
        m := map[k := None];
    }
  }

  lemma SatisfyingHasBits(crc: Crc, key: Key, q: Query, m: Mapping)
    requires QueryOk(q) && Satisfies(m, q) && Within(crc, m, key)
    ensures BitsFor(crc, key, q)
  {
    match q {
      case ContainsAll(sub) =>
        SubmapIff(PairsOf(sub), m);
      case _ =>
    }
  }

  /** The test on a key is as sharp as can be: it passes exactly when some mapping
      with a signature within the key satisfies the query, except that the mark says
      yes to everything. */
  lemma KeyTestIsSharp(crc: Crc, key: Key, q: Query)
    requires QueryOk(q)
    ensures MayMatch(crc, key, q) <==> key.AllTrue? || exists m :: Satisfies(m, q) && Within(crc, m, key)
  {
    if BitsFor(crc, key, q) {
      var m := Possible(crc, key, q);
    }
    if m :| Satisfies(m, q) && Within(crc, m, key) {
      SatisfyingHasBits(crc, key, q, m);
    }
  }

  method ConsistentPair(crc: Crc, key: Key, sub: HStore, i: nat) returns (res: bool)
    requires WF(sub) && i < sub.count
    ensures res <==> PairBits(crc, key, PairsOf(sub)[i])
  {
    var k := ReadKey(sub, i);
    var isnull, val := ReadVal(sub, i);
    if KeyBit(crc, key, k) {
      res := isnull || KeyBit(crc, key, val);
    } else {
      res := false;
    }
  }

  method ConsistentContains(crc: Crc, key: Key, sub: HStore) returns (res: bool)
    requires WF(sub)
    ensures res <==> forall i :: 0 <= i < |PairsOf(sub)| ==> PairBits(crc, key, PairsOf(sub)[i])
  {
    hide Strings, End;
    res := true;
    var i := 0;
    while res && i < sub.count
      invariant 0 <= i <= sub.count == |PairsOf(sub)|
      invariant res ==> forall j :: 0 <= j < i ==> PairBits(crc, key, PairsOf(sub)[j])
      invariant !res ==> exists j :: 0 <= j < i && !PairBits(crc, key, PairsOf(sub)[j])
    {
      var has := ConsistentPair(crc, key, sub, i);
      if !has {
        res := false;
      }
      i := i + 1;
    }
  }

  method ConsistentAll(crc: Crc, key: Key, keys: seq<Option<Bytes>>) returns (res: bool)
    ensures res <==> forall k :: InArray(k, keys) ==> KeyBit(crc, key, k)
  {
    res := true;
    var i := 0;
    while res && i < |keys|
      invariant 0 <= i <= |keys|
      invariant res ==> forall j :: 0 <= j < i && keys[j].Some? ==> KeyBit(crc, key, keys[j].value)
      invariant !res ==> exists k :: InArray(k, keys) && !KeyBit(crc, key, k)
    {
      if keys[i].Some? && !KeyBit(crc, key, keys[i].value) {
        assert InArray(keys[i].value, keys);
        res := false;
      }
      i := i + 1;
    }
  }

  method ConsistentAny(crc: Crc, key: Key, keys: seq<Option<Bytes>>) returns (res: bool)
    ensures res <==> exists k :: InArray(k, keys) && KeyBit(crc, key, k)
  {
    res := false;
    var i := 0;
    while !res && i < |keys|
      invariant 0 <= i <= |keys|
      invariant !res ==> forall j :: 0 <= j < i && keys[j].Some? ==> !KeyBit(crc, key, keys[j].value)
      invariant res ==> exists k :: InArray(k, keys) && KeyBit(crc, key, k)
    {
      if keys[i].Some? && KeyBit(crc, key, keys[i].value) {
        assert InArray(keys[i].value, keys);
        res := true;
      }
      i := i + 1;
    }
  }

  method Consistent(crc: Crc, key: Key, q: Query) returns (res: bool)
    requires QueryOk(q)
    ensures res <==> MayMatch(crc, key, q)
  {
    if key.AllTrue? {
      return true;
    }
    match q {
      case ContainsAll(sub) => res := ConsistentContains(crc, key, sub);
      case HasOne(k) => res := key.bits[HashVal(crc, k)];
      case HasAll(keys) => res := ConsistentAll(crc, key, keys);
      case HasAny(keys) => res := ConsistentAny(crc, key, keys);
    }
  }

  // ------------------------------------------------------------------ the tree

  datatype Tree = Leaf(key: Key, value: HStore) | Node(key: Key, kids: seq<Tree>)

  /** The key has exactly the bits of the stored value. */
  ghost predicate SignedBy(crc: Crc, key: Key, h: HStore)
    requires WF(h)
  {
    forall b :: 0 <= b < 128 ==> (HasBit(key, b) <==> Hashed(crc, Decode(h), b))
  }

  /** Leaf keys are the signatures of their values and every inner key covers
      the keys below it. */
  ghost predicate Built(crc: Crc, t: Tree) {
    match t
    case Leaf(key, value) => WF(value) && SignedBy(crc, key, value)
    case Node(key, kids) => forall i :: 0 <= i < |kids| ==> Built(crc, kids[i]) && Covers(key, kids[i].key)
  }

  ghost predicate AllBuilt(crc: Crc, kids: seq<Tree>) {
    forall i :: 0 <= i < |kids| ==> Built(crc, kids[i])
  }

  /** The values below t that satisfy the query, from left to right. */
  ghost function Answers(crc: Crc, t: Tree, q: Query): seq<HStore>
    requires Built(crc, t) && QueryOk(q)
    decreases t
  {
    match t
    case Leaf(key, value) => if Satisfies(Decode(value), q) then [value] else []
    case Node(key, kids) => Concat(seq(|kids|, i requires 0 <= i < |kids| => Answers(crc, kids[i], q)))
  }

  /** The index search: a subtree whose key is not consistent with the query is
      skipped, and a leaf that is consistent is checked against its value. */
  ghost function Search(crc: Crc, t: Tree, q: Query): seq<HStore>
    requires Built(crc, t) && QueryOk(q)
    decreases t
  {
    if !MayMatch(crc, t.key, q) then []
    else match t
    case Leaf(key, value) => if Satisfies(Decode(value), q) then [value] else []
    case Node(key, kids) => Concat(seq(|kids|, i requires 0 <= i < |kids| => Search(crc, kids[i], q)))
  }

  lemma KeyIsSigned(crc: Crc, key: Key, h: HStore, k: Bytes)
    requires WF(h) && SignedBy(crc, key, h) && k in Decode(h)
    ensures PairBits(crc, key, Pair(k, Decode(h)[k]))
  {
    var m := Decode(h);
    assert PairHashes(crc, Pair(k, m[k]), HashVal(crc, k));
    if m[k].Some? {
      assert PairHashes(crc, Pair(k, m[k]), HashVal(crc, m[k].value));
    }
  }

  /** The key of a leaf has the bits of every query that its value satisfies. */
  lemma LeafConsistent(crc: Crc, key: Key, h: HStore, q: Query)
    requires WF(h) && QueryOk(q) && SignedBy(crc, key, h) && Satisfies(Decode(h), q)
    ensures BitsFor(crc, key, q)
  {
    forall k | k in Decode(h)
      ensures PairBits(crc, key, Pair(k, Decode(h)[k]))
    {
      KeyIsSigned(crc, key, h, k);
    }
    match q {
      case ContainsAll(sub) =>
        SubmapIff(PairsOf(sub), Decode(h));
      case _ =>
    }
  }

  /** A covering key has the bits of every query that the covered one has.  The
      mark alone would not do: a full signature without it turns down the
      any-of query with no keys, to which the mark says yes. */
  lemma ConsistentUpward(crc: Crc, above: Key, below: Key, q: Query)
    requires QueryOk(q) && Covers(above, below) && BitsFor(crc, below, q)
    ensures BitsFor(crc, above, q)
  {
  }

  /** Every node above an answer has the bits of the query. */
  lemma {:induction false} NothingPruned(crc: Crc, t: Tree, q: Query)
    requires Built(crc, t) && QueryOk(q) && Answers(crc, t, q) != []
    ensures BitsFor(crc, t.key, q)
    decreases t
  {
    match t {
      case Leaf(key, value) =>
        LeafConsistent(crc, key, value, q);
      case Node(key, kids) =>
        var i := ConcatSome(seq(|kids|, i requires 0 <= i < |kids| => Answers(crc, kids[i], q)));
        NothingPruned(crc, kids[i], q);
        ConsistentUpward(crc, key, kids[i].key, q);
    }
  }

  /** The index search of a built tree finds exactly what reading every stored
      value would find, in the same order. */
  lemma {:induction false} SearchIsExact(crc: Crc, t: Tree, q: Query)
    requires Built(crc, t) && QueryOk(q)
    ensures Search(crc, t, q) == Answers(crc, t, q)
    decreases t
  {
    if !MayMatch(crc, t.key, q) {
      if Answers(crc, t, q) != [] {
        NothingPruned(crc, t, q);
      }
    } else if t.Node? {
      var kids := t.kids;
      forall i | 0 <= i < |kids|
        ensures Search(crc, kids[i], q) == Answers(crc, kids[i], q)
      {
        SearchIsExact(crc, kids[i], q);
      }
      assert seq(|kids|, i requires 0 <= i < |kids| => Search(crc, kids[i], q)) ==
             seq(|kids|, i requires 0 <= i < |kids| => Answers(crc, kids[i], q));
    }
  }

  // The operations keep the tree built.

  method MakeLeaf(crc: Crc, h: HStore) returns (t: Tree)
    requires WF(h)
    ensures Built(crc, t) && t.Leaf? && t.value == h
  {
    var k := CompressLeaf(crc, h);
    t := Leaf(k, h);
  }

  function KeysOf(kids: seq<Tree>): (es: seq<Key>)
    ensures |es| == |kids| && forall i :: 0 <= i < |kids| ==> es[i] == kids[i].key
  {
    seq(|kids|, i requires 0 <= i < |kids| => kids[i].key)
  }

  /** A parent whose key is the compressed union of its children's keys. */
  method MakeNode(crc: Crc, kids: seq<Tree>) returns (t: Tree)
    requires AllBuilt(crc, kids)
    ensures Built(crc, t) && t.Node? && t.kids == kids
  {
    var u := Union(KeysOf(kids));
    var k := CompressInner(u);
    forall i | 0 <= i < |kids|
      ensures Covers(k, kids[i].key)
    {
      assert Covers(u, KeysOf(kids)[i]);
    }
    t := Node(k, kids);
  }

  function Pick(kids: seq<Tree>, offs: seq<nat>): (r: seq<Tree>)
    requires forall i :: 0 <= i < |offs| ==> 1 <= offs[i] <= |kids|
    ensures |r| == |offs| && forall i :: 0 <= i < |offs| ==> r[i] == kids[offs[i] - 1]
  {
    seq(|offs|, i requires 0 <= i < |offs| => kids[offs[i] - 1])
  }

  /** A built node over the children at the offsets. */
  ghost predicate Half(crc: Crc, kids: seq<Tree>, offs: seq<nat>, t: Tree) {
    offs != [] && InRange(offs, |kids|) && Built(crc, t) && t.Node? && t.kids == Pick(kids, offs)
  }

  /** The entry vector of a page: offset 0 is not used. */
  ghost predicate EntryVector(es: seq<Key>, kids: seq<Tree>) {
    |es| == |kids| + 1 && forall i :: 0 <= i < |kids| ==> es[i + 1] == kids[i].key
  }

  method MakeHalf(crc: Crc, kids: seq<Tree>, es: seq<Key>, key: Key, offs: seq<nat>) returns (t: Tree)
    requires AllBuilt(crc, kids) && EntryVector(es, kids) && offs != [] && Exact(es, key, offs)
    ensures Half(crc, kids, offs, t)
  {
    ExactCovers(es, key, offs);
    forall i | 0 <= i < |offs|
      ensures Built(crc, Pick(kids, offs)[i]) && Covers(key, Pick(kids, offs)[i].key)
    {
      assert Covers(key, es[offs[i]]);
      assert es[offs[i] - 1 + 1] == kids[offs[i] - 1].key;
    }
    t := Node(key, Pick(kids, offs));
  }

  /** Splitting an overfull page: both halves are built trees, and together they
      hold each child exactly once. */
  method SplitNode(crc: Crc, kids: seq<Tree>) returns (l: Tree, r: Tree, left: seq<nat>, right: seq<nat>)
    requires |kids| >= 2 && AllBuilt(crc, kids)
    ensures Partition(|kids|, left, right)
    ensures Half(crc, kids, left, l) && Half(crc, kids, right, r)
  {
    var es, lkey, rkey := [AllTrue] + KeysOf(kids), AllTrue, AllTrue;
    left, right, lkey, rkey := PickSplit(es);
    l := MakeHalf(crc, kids, es, lkey, left);
    r := MakeHalf(crc, kids, es, rkey, right);
  }

  lemma ExactCovers(es: seq<Key>, key: Key, offs: seq<nat>)
    requires Exact(es, key, offs)
    ensures forall i :: 0 <= i < |offs| ==> Covers(key, es[offs[i]])
  {
    forall i, b | 0 <= i < |offs| && 0 <= b < 128 && HasBit(es[offs[i]], b)
      ensures HasBit(key, b)
    {
      assert OneHas(es, offs, b);
    }
  }
}
