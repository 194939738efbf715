/** The bit generator of the bloom index (contrib/bloom/blutils.c): a
    Park-Miller generator computed with Schrage's decomposition so that no
    intermediate leaves 32 bits. */
module BloomRand {

  const M: int := 0x7fffffff
  const A: int := 16807
  const Q: int := 127773
  const R: int := 2836
  const TWO32: int := 0x1_0000_0000

  /** C division and remainder: truncation toward zero. */
  function CDiv(a: int, b: int): int
    requires b > 0
  {
    if a >= 0 then a / b else -((-a) / b)
  }

  function CRem(a: int, b: int): int
    requires b > 0
  {
    a - b * CDiv(a, b)
  }

  predicate Int32(x: int) {
    -0x8000_0000 <= x <= 0x7fff_ffff
  }

  /** Conversion of a uint32 to an int32, two's complement. */
  function ToInt32(u: int): (r: int)
    requires 0 <= u < TWO32
    ensures Int32(r)
  {
    if u < 0x8000_0000 then u else u - TWO32
  }

  /** The generator state after seeding. */
  function Seeded(seed: int): int
    requires 0 <= seed < TWO32
  {
    CRem(ToInt32(seed), 0x7ffffffe) + 1
  }

  /** The reference recurrence: one multiplication modulo 2^31 - 1. */
  function Advance(x: int): int {
    (A * x) % M
  }

  /** The static variable `next` and its two operations. */
  class Generator {
    var next: int

    constructor ()
      ensures next == 0
    {
      next := 0;
    }

    method MySrand(seed: int)
      requires 0 <= seed < TWO32
      modifies this
      ensures next == Seeded(seed) && -M < next < M
      ensures next == 0 <==> seed == 0xFFFFFFFF || seed == 0x80000001
      ensures 1 <= next <==> seed < 0x80000000 || seed == 0x80000002
    {
      SeededRange(seed);
      next := ToInt32(seed);
      next := CRem(next, 0x7ffffffe) + 1;
    }

    /** Schrage's form stores exactly A * next mod M, from every int32 state,
        and none of its intermediates leaves int32. */
    method MyRand() returns (r: int)
      requires Int32(next)
      modifies this
      ensures next == Advance(old(next))
      ensures 0 <= next < M
      ensures r == next - 1
    {
      var hi := CDiv(next, Q);
      var lo := CRem(next, Q);
      SchrageBounds(next);
      assert Int32(A * lo) && Int32(R * hi) && Int32(A * lo - R * hi);
      var x := A * lo - R * hi;
      if x < 0 {
        x := x + M;
      }
      assert Int32(x);
      next := x;
      r := x - 1;
    }
  }

  /** The decomposition differs from the product by a multiple of M and lies
      strictly between -M and M. */
  lemma SchrageBounds(x: int)
    requires Int32(x)
    ensures var hi, lo := CDiv(x, Q), CRem(x, Q);
            && Int32(A * lo) && Int32(R * hi)
            && -M < A * lo - R * hi < M
            && A * x == M * hi + (A * lo - R * hi)
            && Advance(x) == (if A * lo - R * hi < 0 then A * lo - R * hi + M else A * lo - R * hi)
  {
    var hi, lo := CDiv(x, Q), CRem(x, Q);
    var y := A * lo - R * hi;
    assert x == Q * hi + lo;
    assert A * x == M * hi + y;
    assert -16808 < hi < 16808 && -Q < lo < Q;
    if y < 0 {
      ModUnique(A * x, hi - 1, y + M);
    } else {
      ModUnique(A * x, hi, y);
    }
  }

  lemma ModUnique(v: int, q: int, r: int)
    requires v == M * q + r && 0 <= r < M
    ensures v % M == r
  {
  }

  /** The generator reaches zero only from a multiple of M.  If Schrage's
      halves cancel, -977 * 16807 + 5790 * 2836 == 1 makes hi a multiple of
      16807, which leaves x in {0, M, -M}. */
  lemma AdvanceZeroIff(x: int)
    requires Int32(x)
    ensures Advance(x) == 0 <==> x == 0 || x == M || x == -M
  {
    SchrageBounds(x);
    var hi, lo := CDiv(x, Q), CRem(x, Q);
    assert x == Q * hi + lo;
    if A * lo == R * hi {
      var k := -977 * hi + 5790 * lo;
      assert hi == A * k;
      assert -16808 < hi < 16808;
      assert k == 0 || k == 1 || k == -1;
    }
  }

  /** Seeding lands in the generator's domain, and on the dead state zero for
      exactly two of the 2^32 seeds. */
  lemma SeededRange(seed: int)
    requires 0 <= seed < TWO32
    ensures -M < Seeded(seed) < M
    ensures Seeded(seed) == 0 <==> seed == 0xFFFFFFFF || seed == 0x80000001
    ensures 1 <= Seeded(seed) <==> seed < 0x80000000 || seed == 0x80000002
  {
  }

  /** The state after j draws. */
  function Nth(x: int, j: nat): int {
    if j == 0 then x else Advance(Nth(x, j - 1))
  }

  function Pow(b: int, e: nat): int {
    if e == 0 then 1 else b * Pow(b, e - 1)
  }

  lemma {:induction false} NthLive(x: int, j: nat)
    requires -M < x < M && x != 0
    ensures Int32(Nth(x, j)) && -M < Nth(x, j) < M && Nth(x, j) != 0
    ensures j > 0 ==> 1 <= Nth(x, j) < M
  {
    if j > 0 {
      NthLive(x, j - 1);
      AdvanceZeroIff(Nth(x, j - 1));
    }
  }

  lemma {:induction false} NthDead(j: nat)
    ensures Nth(0, j) == 0
  {
    if j > 0 {
      NthDead(j - 1);
    }
  }

  lemma MulMod(a: int, x: int)
    ensures (a * (x % M)) % M == (a * x) % M
  {
    var q, r := x / M, x % M;
    assert x == M * q + r;
    assert a * x == M * (a * q) + a * r;
    var q2 := (a * r) / M;
    assert a * x == M * (a * q + q2) + (a * r) % M;
    ModUnique(a * x, a * q + q2, (a * r) % M);
  }

  lemma ModStep(a: int, x: int, y: int)
    requires x % M == y % M
    ensures ((a * x) % M) % M == (a * y) % M
  {
    MulMod(a, x);
    MulMod(a, y);
  }

  /** Closed form: the j-th state is 16807^j * x modulo 2^31 - 1. */
  lemma {:induction false} NthClosedForm(x: int, j: nat)
    ensures Nth(x, j) % M == (Pow(A, j) * x) % M
  {
    if j > 0 {
      NthClosedForm(x, j - 1);
      ModStep(A, Nth(x, j - 1), Pow(A, j - 1) * x);
      PowStep(j, x);
    }
  }

  lemma PowStep(j: nat, x: int)
    requires j > 0
    ensures A * (Pow(A, j - 1) * x) == Pow(A, j) * x
  {
  }

  /** The bit index of draw j in a signature of `bits` bits. */
  function BitIndex(seed: int, j: nat, bits: int): int
    requires 0 <= seed < TWO32 && bits > 0
  {
    CRem(Nth(Seeded(seed), j + 1) - 1, bits)
  }

  lemma CRemBounds(x: int, bits: int)
    requires bits >= 2 && x >= -1
    ensures x >= 0 ==> 0 <= CRem(x, bits) < bits
    ensures x == -1 ==> CRem(x, bits) == -1
  {
    if x == -1 {
      assert CDiv(-1, bits) == 0;
    }
  }

  /** Draw j of a seed falls inside the signature, for every j at once, exactly
      when the seed is not one of the two dead ones. */
  lemma BitIndexInRangeIff(seed: int, j: nat, bits: int)
    requires 0 <= seed < TWO32 && bits >= 2
    ensures 0 <= BitIndex(seed, j, bits) < bits <==> seed != 0xFFFFFFFF && seed != 0x80000001
  {
    SeededRange(seed);
    if Seeded(seed) == 0 {
      NthDead(j + 1);
    } else {
      NthLive(Seeded(seed), j + 1);
    }
    CRemBounds(Nth(Seeded(seed), j + 1) - 1, bits);
  }
}
