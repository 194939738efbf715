/** Bitwise operations on unsigned words of w bits, as numbers.  Every
    operation is characterised by the bits of its result. */
module Bits {

  function Pow2(w: nat): (p: nat)
    ensures p > 0
  {
    if w == 0 then 1 else 2 * Pow2(w - 1)
  }

  predicate Bit(a: nat, k: nat) {
    if k == 0 then a % 2 == 1 else Bit(a / 2, k - 1)
  }

  function And(w: nat, a: nat, b: nat): (r: nat)
    requires a < Pow2(w) && b < Pow2(w)
    ensures r < Pow2(w)
  {
    if w == 0 then 0
    else (if a % 2 == 1 && b % 2 == 1 then 1 else 0) + 2 * And(w - 1, a / 2, b / 2)
  }

  function Or(w: nat, a: nat, b: nat): (r: nat)
    requires a < Pow2(w) && b < Pow2(w)
    ensures r < Pow2(w)
  {
    if w == 0 then 0
    else (if a % 2 == 1 || b % 2 == 1 then 1 else 0) + 2 * Or(w - 1, a / 2, b / 2)
  }

  function Xor(w: nat, a: nat, b: nat): (r: nat)
    requires a < Pow2(w) && b < Pow2(w)
    ensures r < Pow2(w)
  {
    if w == 0 then 0
    else (a + b) % 2 + 2 * Xor(w - 1, a / 2, b / 2)
  }

  lemma HalfAndRest(r: nat, q: nat)
    requires r < 2
    ensures (r + 2 * q) / 2 == q && (r + 2 * q) % 2 == r
  {
  }

  lemma XorOfBits(x: nat, a: nat, b: nat)
    requires x % 2 == (a + b) % 2
    ensures (x + b) % 2 == a % 2
  {
  }

  lemma XorSplits(w: nat, a: nat, b: nat)
    requires w > 0 && a < Pow2(w) && b < Pow2(w)
    ensures Xor(w, a, b) / 2 == Xor(w - 1, a / 2, b / 2) && Xor(w, a, b) % 2 == (a + b) % 2
  {
    HalfAndRest((a + b) % 2, Xor(w - 1, a / 2, b / 2));
  }

  /** Xor-ing with the same word again undoes it. */
  lemma {:induction false} XorBack(w: nat, a: nat, b: nat)
    requires a < Pow2(w) && b < Pow2(w)
    ensures Xor(w, Xor(w, a, b), b) == a
  {
    if w > 0 {
      var x := Xor(w, a, b);
      XorBack(w - 1, a / 2, b / 2);
      XorSplits(w, a, b);
      XorOfBits(x, a, b);
      XorSplits(w, x, b);
    }
  }

  lemma {:induction false} BitOfPow2(k: nat, j: nat)
    ensures Bit(Pow2(k), j) <==> j == k
  {
    if k == 0 {
      if j > 0 {
        BitOfZero(j - 1);
      }
    } else if j > 0 {
      BitOfPow2(k - 1, j - 1);
    }
  }

  lemma {:induction false} BitOfZero(j: nat)
    ensures !Bit(0, j)
  {
    if j > 0 {
      BitOfZero(j - 1);
    }
  }

  lemma {:induction false} BitOfOr(w: nat, a: nat, b: nat, j: nat)
    requires a < Pow2(w) && b < Pow2(w)
    ensures Bit(Or(w, a, b), j) <==> Bit(a, j) || Bit(b, j)
  {
    if w == 0 {
      BitOfZero(j);
    } else if j > 0 {
      BitOfOr(w - 1, a / 2, b / 2, j - 1);
    }
  }

  lemma {:induction false} Pow2Monotone(k: nat, w: nat)
    requires k <= w
    ensures Pow2(k) <= Pow2(w)
    ensures k < w ==> Pow2(k) < Pow2(w)
  {
    if k < w {
      Pow2Monotone(k, w - 1);
    }
  }

  /** All the bits of q are bits of t. */
  ghost predicate BitsWithin(w: nat, q: nat, t: nat) {
    forall k: nat :: k < w && Bit(q, k) ==> Bit(t, k)
  }

  /** The masked comparison (t & q) == q is inclusion of bits. */
  lemma {:induction false} AndIsSubset(w: nat, t: nat, q: nat)
    requires t < Pow2(w) && q < Pow2(w)
    ensures And(w, t, q) == q <==> BitsWithin(w, q, t)
  {
    if w > 0 {
      AndIsSubset(w - 1, t / 2, q / 2);
      if BitsWithin(w, q, t) {
        assert Bit(q, 0) ==> Bit(t, 0);
        forall k: nat | k < w - 1 && Bit(q / 2, k)
          ensures Bit(t / 2, k)
        {
          assert Bit(q, k + 1);
        }
      }
      if And(w, t, q) == q {
        forall k: nat | k < w && Bit(q, k)
          ensures Bit(t, k)
        {
          if k > 0 {
            assert Bit(q / 2, k - 1);
          }
        }
      }
    }
  }

  lemma Pow2Values()
    ensures Pow2(8) == 256 && Pow2(16) == 65536 && Pow2(32) == 0x1_0000_0000
  {
    assert Pow2(4) == 16;
    assert Pow2(12) == 4096;
    assert Pow2(20) == 1048576;
    assert Pow2(24) == 16777216;
    assert Pow2(28) == 268435456;
  }
}
