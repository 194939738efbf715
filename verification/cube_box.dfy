/** Boxes of any dimension and the operations on them (contrib/cube/cubedata.h,
    contrib/cube/cube.c), over real numbers. */
module CubeBox {
  /** A box: its dimension, the point flag, and the lower left corner followed,
      unless it is a point, by the upper right corner.  The corners may be swapped
      in any dimension. */
  datatype Box = Box(dim: nat, point: bool, x: seq<real>)

  predicate Valid(c: Box) {
    |c.x| == if c.point then c.dim else 2 * c.dim
  }

  function LL(c: Box, i: nat): real
    requires Valid(c) && i < c.dim
  {
    c.x[i]
  }

  function UR(c: Box, i: nat): real
    requires Valid(c) && i < c.dim
  {
    if c.point then c.x[i] else c.x[i + c.dim]
  }

  function Min(a: real, b: real): real {
    if a < b then a else b
  }

  function Max(a: real, b: real): real {
    if a > b then a else b
  }

  /** The interval of a box in dimension i; zero beyond its dimensions. */
  function Lo(c: Box, i: nat): real
    requires Valid(c)
  {
    if i < c.dim then Min(LL(c, i), UR(c, i)) else 0.0
  }

  function Hi(c: Box, i: nat): real
    requires Valid(c)
  {
    if i < c.dim then Max(LL(c, i), UR(c, i)) else 0.0
  }

  function Larger(a: Box, b: Box): nat {
    if a.dim < b.dim then b.dim else a.dim
  }

  // ------------------------------------------------------------ building boxes

  method IsPoint(c: Box) returns (res: bool)
    requires Valid(c)
    ensures res <==> forall i :: 0 <= i < c.dim ==> LL(c, i) == UR(c, i)
  {
    if c.point {
      return true;
    }
    var i := 0;
    while i < c.dim
      invariant 0 <= i <= c.dim
      invariant forall k :: 0 <= k < i ==> LL(c, k) == UR(c, k)
    {
      if LL(c, i) != UR(c, i) {
        return false;
      }
      i := i + 1;
    }
    return true;
  }

  /** Sets the point flag of a box whose corners coincide and drops the second one. */
  method Normalize(x: array<real>, dim: nat) returns (c: Box)
    requires x.Length == 2 * dim
    ensures Valid(c) && c.dim == dim
    ensures forall i :: 0 <= i < dim ==> LL(c, i) == x[i] && UR(c, i) == x[i + dim]
    ensures c.point <==> forall i :: 0 <= i < dim ==> x[i] == x[i + dim]
  {
    c := Box(dim, false, x[..]);
    var p := IsPoint(c);
    assert forall i :: 0 <= i < dim ==> LL(c, i) == x[i] && UR(c, i) == x[i + dim];
    if p {
      c := Box(dim, true, x[..dim]);
    }
  }

  /** The interval of r is the hull of those of a and b. */
  predicate HullAt(r: Box, a: Box, b: Box, i: nat)
    requires Valid(r) && Valid(a) && Valid(b)
  {
    Lo(r, i) == Min(Lo(a, i), Lo(b, i)) && Hi(r, i) == Max(Hi(a, i), Hi(b, i))
  }

  /** r is the smallest box around a and b, in every dimension. */
  ghost predicate Hull(r: Box, a: Box, b: Box) {
    Valid(r) && Valid(a) && Valid(b) && r.dim == Larger(a, b) && forall i: nat :: HullAt(r, a, b, i)
  }

  /** The loops of the union: the common dimensions, then those of the larger box. */
  method FillUnion(a: Box, b: Box) returns (x: array<real>)
    requires Valid(a) && Valid(b) && a.dim >= b.dim
    ensures fresh(x) && x.Length == 2 * a.dim
    ensures forall i :: 0 <= i < a.dim ==> x[i] == Min(Lo(a, i), Lo(b, i)) && x[i + a.dim] == Max(Hi(a, i), Hi(b, i))
  {
    x := new real[2 * a.dim](i => 0.0);
    var i := 0;
    while i < b.dim
      invariant 0 <= i <= b.dim
      invariant forall k :: 0 <= k < i ==> x[k] == Min(Lo(a, k), Lo(b, k)) && x[k + a.dim] == Max(Hi(a, k), Hi(b, k))
    {
      x[i] := Min(Min(LL(a, i), UR(a, i)), Min(LL(b, i), UR(b, i)));
      x[i + a.dim] := Max(Max(LL(a, i), UR(a, i)), Max(LL(b, i), UR(b, i)));
      i := i + 1;
    }
    while i < a.dim
      invariant b.dim <= i <= a.dim
      invariant forall k :: 0 <= k < i ==> x[k] == Min(Lo(a, k), Lo(b, k)) && x[k + a.dim] == Max(Hi(a, k), Hi(b, k))
    {
      x[i] := Min(0.0, Min(LL(a, i), UR(a, i)));
      x[i + a.dim] := Max(0.0, Max(LL(a, i), UR(a, i)));
      i := i + 1;
    }
  }

  /** The union; same tells that both arguments are the same object. */
  method Union(a: Box, b: Box, same: bool) returns (r: Box)
    requires Valid(a) && Valid(b) && (same ==> a == b)
    ensures Hull(r, a, b) && (same ==> r == a)
  {
    if same {
      return a;
    }
    var p, q := a, b;
    if a.dim < b.dim {
      p, q := b, a;
    }
    var x := FillUnion(p, q);
    r := Normalize(x, p.dim);
    forall i: nat
      ensures HullAt(r, a, b, i)
    {
      assert i < p.dim ==> LL(r, i) == x[i] && UR(r, i) == x[i + p.dim];
      LoHi(a, i);
      LoHi(b, i);
    }
  }

  lemma LoHi(c: Box, i: nat)
    requires Valid(c)
    ensures Lo(c, i) <= Hi(c, i)
  {
  }

  // --------------------------------------------------------------- enclosure

  predicate Inside(c: Box, k: Box, i: nat)
    requires Valid(c) && Valid(k)
  {
    Lo(k, i) <= Lo(c, i) && Hi(c, i) <= Hi(k, i)
  }

  /** k has the dimensions of c and encloses it in every dimension. */
  ghost predicate Encloses(k: Box, c: Box) {
    Valid(k) && Valid(c) && k.dim >= c.dim && forall i: nat :: Inside(c, k, i)
  }

  lemma EnclosesTransitive(a: Box, b: Box, c: Box)
    requires Encloses(a, b) && Encloses(b, c)
    ensures Encloses(a, c)
  {
    forall i: nat
      ensures Inside(c, a, i)
    {
      assert Inside(b, a, i) && Inside(c, b, i);
    }
  }

  /** A hull encloses both boxes, and every box that encloses both encloses it. */
  lemma HullIsLeast(r: Box, a: Box, b: Box, k: Box)
    requires Hull(r, a, b) && Valid(k)
    ensures Encloses(r, a) && Encloses(r, b)
    ensures Encloses(k, a) && Encloses(k, b) ==> Encloses(k, r)
  {
    forall i: nat
      ensures Inside(a, r, i) && Inside(b, r, i)
      ensures Inside(a, k, i) && Inside(b, k, i) ==> Inside(r, k, i)
    {
      assert HullAt(r, a, b, i);
    }
  }

  // ------------------------------------------------------------- the operators

  /** Every dimension of b lies inside a, where a missing dimension of a is zero.
      Dimensions that only a has are not looked at. */
  ghost predicate Contains(a: Box, b: Box)
    requires Valid(a) && Valid(b)
  {
    forall i: nat :: i < b.dim ==> Inside(b, a, i)
  }

  predicate Meet(a: Box, b: Box, i: nat)
    requires Valid(a) && Valid(b)
  {
    Lo(a, i) <= Hi(b, i) && Lo(b, i) <= Hi(a, i)
  }

  /** The boxes meet in every dimension, missing dimensions being zero. */
  ghost predicate Overlaps(a: Box, b: Box)
    requires Valid(a) && Valid(b)
  {
    forall i: nat :: Meet(a, b, i)
  }

  /** The same dimensions and the same intervals. */
  ghost predicate Same(a: Box, b: Box)
    requires Valid(a) && Valid(b)
  {
    a.dim == b.dim && forall i: nat :: i < a.dim ==> Lo(a, i) == Lo(b, i) && Hi(a, i) == Hi(b, i)
  }

  method CubeContains(a: Box, b: Box) returns (res: bool)
    requires Valid(a) && Valid(b)
    ensures res <==> Contains(a, b)
  {
    var i := a.dim;
    while i < b.dim
      invariant a.dim <= i
      invariant forall k :: a.dim <= k < i && k < b.dim ==> Inside(b, a, k)
    {
      if LL(b, i) != 0.0 || UR(b, i) != 0.0 {
        assert !Inside(b, a, i);
        return false;
      }
      i := i + 1;
    }
    i := 0;
    while i < a.dim && i < b.dim
      invariant 0 <= i <= a.dim
      invariant forall k :: 0 <= k < i && k < b.dim ==> Inside(b, a, k)
    {
      if Min(LL(a, i), UR(a, i)) > Min(LL(b, i), UR(b, i)) || Max(LL(a, i), UR(a, i)) < Max(LL(b, i), UR(b, i)) {
        assert !Inside(b, a, i);
        return false;
      }
      i := i + 1;
    }
    return true;
  }

  method CubeOverlap(a: Box, b: Box) returns (res: bool)
    requires Valid(a) && Valid(b)
    ensures res <==> Overlaps(a, b)
  {
    var p, q := a, b;
    if a.dim < b.dim {
      p, q := b, a;
    }
    var i := 0;
    while i < q.dim
      invariant 0 <= i <= q.dim
      invariant forall k :: 0 <= k < i ==> Meet(a, b, k)
    {
      if Min(LL(p, i), UR(p, i)) > Max(LL(q, i), UR(q, i)) || Max(LL(p, i), UR(p, i)) < Min(LL(q, i), UR(q, i)) {
        assert !Meet(a, b, i);
        return false;
      }
      i := i + 1;
    }
    while i < p.dim
      invariant q.dim <= i <= p.dim
      invariant forall k :: 0 <= k < i ==> Meet(a, b, k)
    {
      if Min(LL(p, i), UR(p, i)) > 0.0 || Max(LL(p, i), UR(p, i)) < 0.0 {
        assert !Meet(a, b, i);
        return false;
      }
      i := i + 1;
    }
    return true;
  }

  function Sign(x: real): int {
    if x < 0.0 then -1 else if x > 0.0 then 1 else 0
  }

  /** The first dimension from i on, below n, in which the lower or, with hi, the
      upper ends differ decides. */
  ghost function FirstDiff(a: Box, b: Box, hi: bool, i: nat, n: nat): int
    requires Valid(a) && Valid(b) && i <= n
    decreases n - i
  {
    if i == n then 0
    else
      var c := if hi then Sign(Hi(a, i) - Hi(b, i)) else Sign(Lo(a, i) - Lo(b, i));
      if c != 0 then c else FirstDiff(a, b, hi, i + 1, n)
  }

  function Smaller(a: Box, b: Box): nat {
    if a.dim < b.dim then a.dim else b.dim
  }

  /** The order: lower ends and then upper ends of the common dimensions, then of
      the others, where the box that lacks them counts as zero, then the dimensions. */
  ghost function Cmp(a: Box, b: Box): int
    requires Valid(a) && Valid(b)
  {
    var m, n := Smaller(a, b), Larger(a, b);
    if FirstDiff(a, b, false, 0, m) != 0 then FirstDiff(a, b, false, 0, m)
    else if FirstDiff(a, b, true, 0, m) != 0 then FirstDiff(a, b, true, 0, m)
    else if FirstDiff(a, b, false, m, n) != 0 then FirstDiff(a, b, false, m, n)
    else if FirstDiff(a, b, true, m, n) != 0 then FirstDiff(a, b, true, m, n)
    else if a.dim > b.dim then 1 else if a.dim < b.dim then -1 else 0
  }

  lemma {:induction false} FirstDiffLaws(a: Box, b: Box, hi: bool, i: nat, n: nat)
    requires Valid(a) && Valid(b) && i <= n
    ensures FirstDiff(a, b, hi, i, n) == -FirstDiff(b, a, hi, i, n)
    ensures FirstDiff(a, b, hi, i, n) == 0 <==>
            forall k :: i <= k < n ==> if hi then Hi(a, k) == Hi(b, k) else Lo(a, k) == Lo(b, k)
    decreases n - i
  {
    if i < n {
      FirstDiffLaws(a, b, hi, i + 1, n);
    }
  }

  lemma {:induction false} FirstDiffTransitive(a: Box, b: Box, c: Box, hi: bool, i: nat, n: nat)
    requires Valid(a) && Valid(b) && Valid(c) && i <= n
    requires FirstDiff(a, b, hi, i, n) <= 0 && FirstDiff(b, c, hi, i, n) <= 0
    ensures FirstDiff(a, c, hi, i, n) <= 0
    ensures FirstDiff(a, c, hi, i, n) == 0 <==> FirstDiff(a, b, hi, i, n) == 0 && FirstDiff(b, c, hi, i, n) == 0
    decreases n - i
  {
    if i < n {
      var x := if hi then Sign(Hi(a, i) - Hi(b, i)) else Sign(Lo(a, i) - Lo(b, i));
      var y := if hi then Sign(Hi(b, i) - Hi(c, i)) else Sign(Lo(b, i) - Lo(c, i));
      if x == 0 && y == 0 {
        FirstDiffTransitive(a, b, c, hi, i + 1, n);
      }
    }
  }

  /** The comparison is antisymmetric, and zero exactly on boxes with the same
      dimensions and intervals. */
  lemma CmpLaws(a: Box, b: Box)
    requires Valid(a) && Valid(b)
    ensures Cmp(a, b) == -Cmp(b, a)
    ensures Cmp(a, b) == 0 <==> Same(a, b)
  {
    var m, n := Smaller(a, b), Larger(a, b);
    FirstDiffLaws(a, b, false, 0, m);
    FirstDiffLaws(a, b, true, 0, m);
    FirstDiffLaws(a, b, false, m, n);
    FirstDiffLaws(a, b, true, m, n);
  }

  ghost function EndAt(c: Box, hi: bool, i: nat): real
    requires Valid(c)
  {
    if hi then Hi(c, i) else Lo(c, i)
  }

  ghost predicate SameEnds(a: Box, b: Box, hi: bool, i: nat, n: nat)
    requires Valid(a) && Valid(b)
  {
    forall k :: i <= k < n ==> EndAt(a, hi, k) == EndAt(b, hi, k)
  }

  /** In the first dimension from i on, below n, in which the ends differ, that of a
      is smaller. */
  ghost predicate SmallerFirst(a: Box, b: Box, hi: bool, i: nat, n: nat)
    requires Valid(a) && Valid(b)
  {
    exists k :: i <= k < n && EndAt(a, hi, k) < EndAt(b, hi, k) && SameEnds(a, b, hi, i, k)
  }

  /** From i on as from i + 1 on, if the ends at i are the same. */
  lemma SameFirstStep(a: Box, b: Box, hi: bool, i: nat, n: nat)
    requires Valid(a) && Valid(b) && i < n && EndAt(a, hi, i) == EndAt(b, hi, i)
    ensures SmallerFirst(a, b, hi, i, n) <==> SmallerFirst(a, b, hi, i + 1, n)
    ensures SameEnds(a, b, hi, i, n) <==> SameEnds(a, b, hi, i + 1, n)
  {
    hide EndAt;
    if SmallerFirst(a, b, hi, i + 1, n) {
      var k :| i + 1 <= k < n && EndAt(a, hi, k) < EndAt(b, hi, k) && SameEnds(a, b, hi, i + 1, k);
      assert SameEnds(a, b, hi, i, k);
    }
    if SmallerFirst(a, b, hi, i, n) {
      var k :| i <= k < n && EndAt(a, hi, k) < EndAt(b, hi, k) && SameEnds(a, b, hi, i, k);
      assert SameEnds(a, b, hi, i + 1, k);
    }
  }

  /** The ends at i decide, if they differ. */
  lemma OtherFirstStep(a: Box, b: Box, hi: bool, i: nat, n: nat)
    requires Valid(a) && Valid(b) && i < n && EndAt(a, hi, i) != EndAt(b, hi, i)
    ensures SmallerFirst(a, b, hi, i, n) <==> EndAt(a, hi, i) < EndAt(b, hi, i)
    ensures !SameEnds(a, b, hi, i, n)
  {
    hide EndAt;
    assert SameEnds(a, b, hi, i, i);
    if SmallerFirst(a, b, hi, i, n) {
      var k :| i <= k < n && EndAt(a, hi, k) < EndAt(b, hi, k) && SameEnds(a, b, hi, i, k);
      assert k == i;
    }
  }

  lemma {:induction false} FirstDiffIff(a: Box, b: Box, hi: bool, i: nat, n: nat)
    requires Valid(a) && Valid(b) && i <= n
    ensures FirstDiff(a, b, hi, i, n) < 0 <==> SmallerFirst(a, b, hi, i, n)
    ensures FirstDiff(a, b, hi, i, n) == 0 <==> SameEnds(a, b, hi, i, n)
    decreases n - i
  {
    if i < n {
      FirstDiffIff(a, b, hi, i + 1, n);
      if EndAt(a, hi, i) == EndAt(b, hi, i) {
        SameFirstStep(a, b, hi, i, n);
      } else {
        OtherFirstStep(a, b, hi, i, n);
      }
      hide SmallerFirst, SameEnds;
    }
  }

  /** When a box comes before another: by the lower ends and then the upper ends of
      the dimensions that both have, then by those of the other dimensions, of which
      one box has zeros, and last by the number of dimensions. */
  lemma CmpIff(a: Box, b: Box)
    requires Valid(a) && Valid(b)
    ensures var m, n := Smaller(a, b), Larger(a, b);
            Cmp(a, b) < 0 <==>
            || SmallerFirst(a, b, false, 0, m)
            || (SameEnds(a, b, false, 0, m) && SmallerFirst(a, b, true, 0, m))
            || (SameEnds(a, b, false, 0, m) && SameEnds(a, b, true, 0, m) && SmallerFirst(a, b, false, m, n))
            || (SameEnds(a, b, false, 0, n) && SameEnds(a, b, true, 0, m) && SmallerFirst(a, b, true, m, n))
            || (SameEnds(a, b, false, 0, n) && SameEnds(a, b, true, 0, n) && a.dim < b.dim)
  {
    var m, n := Smaller(a, b), Larger(a, b);
    FirstDiffIff(a, b, false, 0, m);
    FirstDiffIff(a, b, true, 0, m);
    FirstDiffIff(a, b, false, m, n);
    FirstDiffIff(a, b, true, m, n);
    SameEndsJoin(a, b, false, m, n);
    SameEndsJoin(a, b, true, m, n);
    hide FirstDiff, SameEnds, SmallerFirst;
  }

  lemma SameEndsJoin(a: Box, b: Box, hi: bool, m: nat, n: nat)
    requires Valid(a) && Valid(b) && m <= n
    ensures SameEnds(a, b, hi, 0, n) <==> SameEnds(a, b, hi, 0, m) && SameEnds(a, b, hi, m, n)
  {
  }

  /** All lower ends, then all upper ends, of n dimensions, then the dimensions. */
  ghost function CmpIn(a: Box, b: Box, n: nat): int
    requires Valid(a) && Valid(b)
  {
    if FirstDiff(a, b, false, 0, n) != 0 then FirstDiff(a, b, false, 0, n)
    else if FirstDiff(a, b, true, 0, n) != 0 then FirstDiff(a, b, true, 0, n)
    else if a.dim > b.dim then 1 else if a.dim < b.dim then -1 else 0
  }

  /** Boxes of dimension 0 or n are compared in that way. */
  lemma CmpIsCmpIn(a: Box, b: Box, n: nat)
    requires Valid(a) && Valid(b) && (a.dim == 0 || a.dim == n) && (b.dim == 0 || b.dim == n)
    ensures Cmp(a, b) == CmpIn(a, b, n)
  {
    if a.dim == 0 && b.dim == 0 {
      FirstDiffLaws(a, b, false, 0, n);
      FirstDiffLaws(a, b, true, 0, n);
    }
  }

  lemma CmpInTransitive(a: Box, b: Box, c: Box, n: nat)
    requires Valid(a) && Valid(b) && Valid(c) && CmpIn(a, b, n) <= 0 && CmpIn(b, c, n) <= 0
    ensures CmpIn(a, c, n) <= 0
  {
    FirstDiffTransitive(a, b, c, false, 0, n);
    if FirstDiff(a, b, false, 0, n) == 0 == FirstDiff(b, c, false, 0, n) {
      FirstDiffTransitive(a, b, c, true, 0, n);
    }
  }

  lemma {:induction false} FirstDiffAt(a: Box, b: Box, hi: bool, i: nat, k: nat, n: nat)
    requires Valid(a) && Valid(b) && i <= k < n
    requires forall j :: i <= j < k ==> if hi then Hi(a, j) == Hi(b, j) else Lo(a, j) == Lo(b, j)
    requires if hi then Hi(a, k) != Hi(b, k) else Lo(a, k) != Lo(b, k)
    ensures FirstDiff(a, b, hi, i, n) == if hi then Sign(Hi(a, k) - Hi(b, k)) else Sign(Lo(a, k) - Lo(b, k))
    decreases k - i
  {
    if i < k {
      FirstDiffAt(a, b, hi, i + 1, k, n);
    }
  }

  /** The box from zero to h in the first dimension and, if d is below n, from -1
      to zero in dimension d, of n dimensions. */
  function Spike(n: nat, h: real, d: nat): (c: Box)
    requires n > 0 && h > 0.0 && d > 0
    ensures Valid(c) && c.dim == n && Hi(c, 0) == h
    ensures forall i: nat :: Lo(c, i) == if i == d < n then -1.0 else 0.0
  {
    Box(n, false, seq(2 * n, i => if i == n then h else if i == d < n then -1.0 else 0.0))
  }

  /** For every two dimensions above zero there are boxes with b < a < c < b. */
  lemma CmpCycle(m: nat, n: nat)
    requires 0 < m < n
    ensures var a, b, c := Spike(m, 2.0, m), Spike(n, 1.0, n), Spike(n, 3.0, m);
            Cmp(b, a) == -1 && Cmp(a, c) == -1 && Cmp(b, c) == 1
  {
    var a, b, c := Spike(m, 2.0, m), Spike(n, 1.0, n), Spike(n, 3.0, m);
    FirstDiffLaws(b, a, false, 0, m);
    FirstDiffAt(b, a, true, 0, 0, m);
    FirstDiffLaws(a, c, false, 0, m);
    FirstDiffAt(a, c, true, 0, 0, m);
    FirstDiffAt(b, c, false, 0, m, n);
  }

  ghost predicate Ordered(a: Box, b: Box, c: Box)
    requires Valid(a) && Valid(b) && Valid(c)
  {
    Cmp(a, b) <= 0 && Cmp(b, c) <= 0 ==> Cmp(a, c) <= 0
  }

  /** The comparison is transitive on all boxes of the dimensions in the set. */
  ghost predicate TransitiveOn(dims: set<nat>) {
    forall a, b, c :: Valid(a) && Valid(b) && Valid(c) && a.dim in dims && b.dim in dims && c.dim in dims ==>
      Ordered(a, b, c)
  }

  lemma OrderedInOne(a: Box, b: Box, c: Box, n: nat)
    requires Valid(a) && Valid(b) && Valid(c)
    requires a.dim in {0, n} && b.dim in {0, n} && c.dim in {0, n}
    ensures Ordered(a, b, c)
  {
    CmpIsCmpIn(a, b, n);
    CmpIsCmpIn(b, c, n);
    CmpIsCmpIn(a, c, n);
    if Cmp(a, b) <= 0 && Cmp(b, c) <= 0 {
      CmpInTransitive(a, b, c, n);
    }
  }

  lemma CycleIsNotTransitive(dims: set<nat>, m: nat, n: nat)
    requires m in dims && n in dims && 0 < m < n
    ensures !TransitiveOn(dims)
  {
    CmpCycle(m, n);
    assert !Ordered(Spike(n, 1.0, n), Spike(m, 2.0, m), Spike(n, 3.0, m));
  }

  /** The comparison is transitive on all boxes of some dimensions if and only if
      at most one of these dimensions is above zero. */
  lemma CmpTransitiveIff(dims: set<nat>)
    ensures TransitiveOn(dims) <==> forall m, n :: m in dims && n in dims ==> m == n || m == 0 || n == 0
  {
    if forall m, n :: m in dims && n in dims ==> m == n || m == 0 || n == 0 {
      forall a, b, c | Valid(a) && Valid(b) && Valid(c) && a.dim in dims && b.dim in dims && c.dim in dims
        ensures Ordered(a, b, c)
      {
        OrderedInOne(a, b, c, if a.dim != 0 then a.dim else if b.dim != 0 then b.dim else c.dim);
      }
    } else {
      var m, n :| m in dims && n in dims && m != n && m != 0 && n != 0;
      CycleIsNotTransitive(dims, if m < n then m else n, if m < n then n else m);
    }
  }

  /** The loop over the lower or the upper ends. */
  method CompareEnds(a: Box, b: Box, hi: bool, i: nat, n: nat) returns (r: int)
    requires Valid(a) && Valid(b) && i <= n
    ensures r == FirstDiff(a, b, hi, i, n)
  {
    var k := i;
    while k < n
      invariant i <= k <= n
      invariant FirstDiff(a, b, hi, i, n) == FirstDiff(a, b, hi, k, n)
    {
      var x := if hi then Hi(a, k) else Lo(a, k);
      var y := if hi then Hi(b, k) else Lo(b, k);
      if x > y {
        return 1;
      }
      if x < y {
        return -1;
      }
      k := k + 1;
    }
    return 0;
  }

  method CubeCmp(a: Box, b: Box) returns (r: int)
    requires Valid(a) && Valid(b)
    ensures r == Cmp(a, b)
  {
    var dim := Smaller(a, b);
    r := CompareEnds(a, b, false, 0, dim);
    if r != 0 {
      return;
    }
    r := CompareEnds(a, b, true, 0, dim);
    if r != 0 {
      return;
    }
    r := CompareEnds(a, b, false, dim, Larger(a, b));
    if r != 0 {
      return;
    }
    r := CompareEnds(a, b, true, dim, Larger(a, b));
    if r != 0 {
      return;
    }
    return if a.dim > b.dim then 1 else if a.dim < b.dim then -1 else 0;
  }
}
