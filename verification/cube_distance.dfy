/** Distances between boxes and their use as lower bounds in a nearest neighbour
    search (contrib/cube/cube.c). */
module CubeDistance {
  import opened Wrappers
  import opened CubeBox

  /** The distance of two intervals given by their ends in any order. */
  function Distance1D(a1: real, a2: real, b1: real, b2: real): (d: real)
    ensures d >= 0.0
    ensures d == Gap(Min(a1, a2), Max(a1, a2), Min(b1, b2), Max(b1, b2))
  {
    if a1 <= b1 && a2 <= b1 && a1 <= b2 && a2 <= b2 then Min(b1, b2) - Max(a1, a2)
    else if a1 > b1 && a2 > b1 && a1 > b2 && a2 > b2 then Min(a1, a2) - Max(b1, b2)
    else 0.0
  }

  /** The room between two intervals. */
  function Gap(alo: real, ahi: real, blo: real, bhi: real): real {
    if ahi <= blo then blo - ahi else if bhi <= alo then alo - bhi else 0.0
  }

  function GapAt(a: Box, b: Box, i: nat): (d: real)
    requires Valid(a) && Valid(b)
    ensures d >= 0.0
  {
    LoHi(a, i);
    LoHi(b, i);
    Gap(Lo(a, i), Hi(a, i), Lo(b, i), Hi(b, i))
  }

  /** The gap is the least distance between a point of one interval and a point of
      the other, so it is zero exactly when they meet. */
  lemma GapIsLeast(a: Box, b: Box, i: nat, x: real, y: real)
    requires Valid(a) && Valid(b) && Lo(a, i) <= x <= Hi(a, i) && Lo(b, i) <= y <= Hi(b, i)
    ensures GapAt(a, b, i) <= if x < y then y - x else x - y
    ensures GapAt(a, b, i) == 0.0 <==> Meet(a, b, i)
  {
  }

  /** Two points at that distance. */
  lemma GapIsReached(a: Box, b: Box, i: nat) returns (x: real, y: real)
    requires Valid(a) && Valid(b)
    ensures Lo(a, i) <= x <= Hi(a, i) && Lo(b, i) <= y <= Hi(b, i)
    ensures GapAt(a, b, i) == if x < y then y - x else x - y
  {
    LoHi(a, i);
    LoHi(b, i);
    x := if Hi(a, i) <= Lo(b, i) then Hi(a, i) else Max(Lo(a, i), Lo(b, i));
    y := if Hi(b, i) <= Lo(a, i) then Hi(b, i) else if Hi(a, i) <= Lo(b, i) then Lo(b, i) else x;
    x := if Hi(b, i) <= Lo(a, i) then Lo(a, i) else x;
  }

  /** Boxes are no nearer in a dimension than boxes that enclose them. */
  lemma GapShrinks(k: Box, c: Box, q: Box, i: nat)
    requires Encloses(k, c) && Valid(q)
    ensures GapAt(k, q, i) <= GapAt(c, q, i)
  {
    assert Inside(c, k, i);
    LoHi(c, i);
    LoHi(q, i);
  }

  function Square(x: real): real {
    x * x
  }

  // The three norms of the gaps in the first n dimensions.

  ghost function Taxicab(a: Box, b: Box, n: nat): real
    requires Valid(a) && Valid(b)
  {
    if n == 0 then 0.0 else Taxicab(a, b, n - 1) + GapAt(a, b, n - 1)
  }

  ghost function Chebyshev(a: Box, b: Box, n: nat): real
    requires Valid(a) && Valid(b)
  {
    if n == 0 then 0.0 else Max(Chebyshev(a, b, n - 1), GapAt(a, b, n - 1))
  }

  ghost function SquaredEuclid(a: Box, b: Box, n: nat): real
    requires Valid(a) && Valid(b)
  {
    if n == 0 then 0.0 else SquaredEuclid(a, b, n - 1) + Square(GapAt(a, b, n - 1))
  }

  lemma SquareMonotone(x: real, y: real)
    requires 0.0 <= x <= y
    ensures 0.0 <= Square(x) <= Square(y)
  {
    assert x * x <= x * y <= y * y;
  }

  lemma GapFlips(a: Box, b: Box, i: nat)
    requires Valid(a) && Valid(b)
    ensures GapAt(a, b, i) == GapAt(b, a, i)
  {
    LoHi(a, i);
    LoHi(b, i);
  }

  lemma {:induction false} NormsFlip(a: Box, b: Box, n: nat)
    requires Valid(a) && Valid(b)
    ensures Taxicab(a, b, n) == Taxicab(b, a, n) && Chebyshev(a, b, n) == Chebyshev(b, a, n)
    ensures SquaredEuclid(a, b, n) == SquaredEuclid(b, a, n)
  {
    if n > 0 {
      NormsFlip(a, b, n - 1);
      GapFlips(a, b, n - 1);
    }
  }

  /** Dimensions that neither box has add nothing. */
  lemma {:induction false} NormsEnd(a: Box, b: Box, n: nat)
    requires Valid(a) && Valid(b) && n >= Larger(a, b)
    ensures Taxicab(a, b, n) == Taxicab(a, b, Larger(a, b)) >= 0.0
    ensures Chebyshev(a, b, n) == Chebyshev(a, b, Larger(a, b)) >= 0.0
    ensures SquaredEuclid(a, b, n) == SquaredEuclid(a, b, Larger(a, b)) >= 0.0
    decreases n
  {
    NormsPositive(a, b, n);
    if n > Larger(a, b) {
      NormsEnd(a, b, n - 1);
      assert GapAt(a, b, n - 1) == 0.0;
      NormsPositive(a, b, n - 1);
    }
  }

  lemma {:induction false} NormsPositive(a: Box, b: Box, n: nat)
    requires Valid(a) && Valid(b)
    ensures Taxicab(a, b, n) >= 0.0 && Chebyshev(a, b, n) >= 0.0 && SquaredEuclid(a, b, n) >= 0.0
  {
    if n > 0 {
      NormsPositive(a, b, n - 1);
      SquareMonotone(0.0, GapAt(a, b, n - 1));
    }
  }

  lemma {:induction false} NormsShrink(k: Box, c: Box, q: Box, n: nat)
    requires Encloses(k, c) && Valid(q)
    ensures Taxicab(k, q, n) <= Taxicab(c, q, n) && Chebyshev(k, q, n) <= Chebyshev(c, q, n)
  {
    if n > 0 {
      NormsShrink(k, c, q, n - 1);
      GapShrinks(k, c, q, n - 1);
    }
  }

  lemma SquareShrinks(k: Box, c: Box, q: Box, i: nat)
    requires Encloses(k, c) && Valid(q)
    ensures Square(GapAt(k, q, i)) <= Square(GapAt(c, q, i))
  {
    GapShrinks(k, c, q, i);
    SquareMonotone(GapAt(k, q, i), GapAt(c, q, i));
  }

  lemma {:induction false} EuclidShrinks(k: Box, c: Box, q: Box, n: nat)
    requires Encloses(k, c) && Valid(q)
    ensures SquaredEuclid(k, q, n) <= SquaredEuclid(c, q, n)
  {
    if n > 0 {
      EuclidShrinks(k, c, q, n - 1);
      SquareShrinks(k, c, q, n - 1);
    }
  }

  /** The Chebyshev norm is the greatest of the gaps. */
  lemma {:induction false} ChebyshevIsGreatest(a: Box, b: Box, n: nat)
    requires Valid(a) && Valid(b)
    ensures forall i :: 0 <= i < n ==> GapAt(a, b, i) <= Chebyshev(a, b, n)
    ensures if n == 0 then Chebyshev(a, b, n) == 0.0
            else exists i :: 0 <= i < n && Chebyshev(a, b, n) == GapAt(a, b, i)
  {
    if n > 0 {
      ChebyshevIsGreatest(a, b, n - 1);
      assert GapAt(a, b, n - 1) >= 0.0;
    }
  }

  /** No gap in the first n dimensions but in i and j. */
  ghost predicate ApartIn(a: Box, b: Box, i: nat, j: nat, n: nat)
    requires Valid(a) && Valid(b)
  {
    forall k :: 0 <= k < n && k != i && k != j ==> GapAt(a, b, k) == 0.0
  }

  lemma {:induction false} GapAdds(a: Box, b: Box, i: nat, j: nat, n: nat)
    requires Valid(a) && Valid(b) && i < j && ApartIn(a, b, i, j, n)
    ensures var x, y := if i < n then GapAt(a, b, i) else 0.0, if j < n then GapAt(a, b, j) else 0.0;
            && Taxicab(a, b, n) == x + y
            && Chebyshev(a, b, n) == Max(x, y)
            && SquaredEuclid(a, b, n) == Square(x) + Square(y)
  {
    if n > 0 {
      GapAdds(a, b, i, j, n - 1);
    }
  }

  /** The distances of two boxes that are apart in two dimensions, or in one: the
      legs of a right triangle, the longer leg, and the square of the third side. */
  lemma NormsOfTriangle(a: Box, b: Box, i: nat, j: nat)
    requires Valid(a) && Valid(b) && i < j && ApartIn(a, b, i, j, Larger(a, b))
    ensures var x, y, n := GapAt(a, b, i), GapAt(a, b, j), Larger(a, b);
            && Taxicab(a, b, n) == x + y
            && Chebyshev(a, b, n) == Max(x, y)
            && SquaredEuclid(a, b, n) == Square(x) + Square(y)
  {
    GapAdds(a, b, i, j, Larger(a, b));
    GapBeyond(a, b, i);
    GapBeyond(a, b, j);
    hide GapAt, Taxicab, Chebyshev, SquaredEuclid, Larger, Square;
  }

  lemma GapBeyond(a: Box, b: Box, i: nat)
    requires Valid(a) && Valid(b)
    ensures i >= Larger(a, b) ==> GapAt(a, b, i) == 0.0
  {
  }

  lemma SquareOfSum(x: real, y: real)
    requires x >= 0.0 && y >= 0.0
    ensures Square(x) + Square(y) <= Square(x + y)
  {
    assert Square(x + y) == x * x + 2.0 * (x * y) + y * y;
    assert x * y >= 0.0;
  }

  /** The Euclidean distance lies between the two others. */
  lemma {:induction false} NormsBetween(a: Box, b: Box, n: nat)
    requires Valid(a) && Valid(b)
    ensures Square(Chebyshev(a, b, n)) <= SquaredEuclid(a, b, n) <= Square(Taxicab(a, b, n))
  {
    if n > 0 {
      NormsBetween(a, b, n - 1);
      NormsPositive(a, b, n - 1);
      SquareMonotone(0.0, GapAt(a, b, n - 1));
      SquareOfSum(Taxicab(a, b, n - 1), GapAt(a, b, n - 1));
    }
  }

  // ------------------------------------------------------------ the operators

  method DistanceTaxicab(a: Box, b: Box) returns (d: real)
    requires Valid(a) && Valid(b)
    ensures d == Taxicab(a, b, Larger(a, b))
  {
    NormsFlip(a, b, Larger(a, b));
    var p, q := a, b;
    if a.dim < b.dim {
      p, q := b, a;
    }
    d := 0.0;
    var i := 0;
    while i < q.dim
      invariant 0 <= i <= q.dim && d == Taxicab(p, q, i)
    {
      d := d + Distance1D(LL(p, i), UR(p, i), LL(q, i), UR(q, i));
      i := i + 1;
    }
    while i < p.dim
      invariant q.dim <= i <= p.dim && d == Taxicab(p, q, i)
    {
      d := d + Distance1D(LL(p, i), UR(p, i), 0.0, 0.0);
      i := i + 1;
    }
  }

  method DistanceChebyshev(a: Box, b: Box) returns (d: real)
    requires Valid(a) && Valid(b)
    ensures d == Chebyshev(a, b, Larger(a, b))
    ensures forall i :: 0 <= i < Larger(a, b) ==> GapAt(a, b, i) <= d
    ensures if Larger(a, b) == 0 then d == 0.0 else exists i :: 0 <= i < Larger(a, b) && d == GapAt(a, b, i)
  {
    ChebyshevIsGreatest(a, b, Larger(a, b));
    NormsFlip(a, b, Larger(a, b));
    var p, q := a, b;
    if a.dim < b.dim {
      p, q := b, a;
    }
    d := 0.0;
    var i := 0;
    while i < q.dim
      invariant 0 <= i <= q.dim && d == Chebyshev(p, q, i)
    {
      var e := Distance1D(LL(p, i), UR(p, i), LL(q, i), UR(q, i));
      if e > d {
        d := e;
      }
      i := i + 1;
    }
    while i < p.dim
      invariant q.dim <= i <= p.dim && d == Chebyshev(p, q, i)
    {
      var e := Distance1D(LL(p, i), UR(p, i), 0.0, 0.0);
      if e > d {
        d := e;
      }
      i := i + 1;
    }
  }

  /** The sum of squares under the root of the Euclidean distance. */
  method DistanceSquared(a: Box, b: Box) returns (d: real)
    requires Valid(a) && Valid(b)
    ensures d == SquaredEuclid(a, b, Larger(a, b))
  {
    NormsFlip(a, b, Larger(a, b));
    var p, q := a, b;
    if a.dim < b.dim {
      p, q := b, a;
    }
    d := 0.0;
    var i := 0;
    while i < q.dim
      invariant 0 <= i <= q.dim && d == SquaredEuclid(p, q, i)
    {
      var e := Distance1D(LL(p, i), UR(p, i), LL(q, i), UR(q, i));
      d := d + Square(e);
      i := i + 1;
    }
    while i < p.dim
      invariant q.dim <= i <= p.dim && d == SquaredEuclid(p, q, i)
    {
      var e := Distance1D(LL(p, i), UR(p, i), 0.0, 0.0);
      d := d + Square(e);
      i := i + 1;
    }
  }

  /** The distances from a query to a box are never below those to a box that
      encloses it, though the two have different numbers of dimensions. */
  lemma EnclosingIsNearer(k: Box, c: Box, q: Box)
    requires Encloses(k, c) && Valid(q)
    ensures Taxicab(k, q, Larger(k, q)) <= Taxicab(c, q, Larger(c, q))
    ensures Chebyshev(k, q, Larger(k, q)) <= Chebyshev(c, q, Larger(c, q))
    ensures SquaredEuclid(k, q, Larger(k, q)) <= SquaredEuclid(c, q, Larger(c, q))
  {
    NormsShrink(k, c, q, Larger(k, q));
    EuclidShrinks(k, c, q, Larger(k, q));
    NormsEnd(c, q, Larger(k, q));
  }

  // ------------------------------------------------------- the coordinate order

  /** The value by which a coordinate search orders the entries; coordinates are
      numbered from 1, lower and upper end in turn, and a negative number asks for
      descending order.  Number 0 is an error. */
  function CoordDistance(c: Box, coord: int, isLeaf: bool): Option<real>
    requires Valid(c)
  {
    if coord == 0 then None
    else
      var inverse := coord < 0;
      var n := if inverse then -coord else coord;
      var v :=
        if n <= 2 * c.dim then
          var index, upper := (n - 1) / 2, (n - 1) % 2 == 1;
          if c.point then c.x[index]
          else if isLeaf then (if upper then Max(c.x[index], c.x[index + c.dim]) else Min(c.x[index], c.x[index + c.dim]))
          else if !inverse then Min(c.x[index], c.x[index + c.dim])
          else Max(c.x[index], c.x[index + c.dim])
        else 0.0;
      Some(if inverse then -v else v)
  }

  /** The order of stored boxes: number 2 i + 1 is the lower end of dimension i and
      2 i + 2 its upper end, zero beyond the dimensions of the box, and a negative
      number gives the opposite of the value. */
  lemma CoordOfLeaf(c: Box, i: nat)
    requires Valid(c)
    ensures CoordDistance(c, 2 * i + 1, true) == Some(Lo(c, i))
    ensures CoordDistance(c, 2 * i + 2, true) == Some(Hi(c, i))
    ensures CoordDistance(c, -(2 * i + 1), true) == Some(-Lo(c, i))
    ensures CoordDistance(c, -(2 * i + 2), true) == Some(-Hi(c, i))
  {
  }

  /** The order of keys: ascending by the lower end of the dimension, descending by
      its upper end, whichever of the two ends the number stands for. */
  lemma CoordOfKey(k: Box, i: nat)
    requires Valid(k)
    ensures CoordDistance(k, 2 * i + 1, false) == CoordDistance(k, 2 * i + 2, false) == Some(Lo(k, i))
    ensures CoordDistance(k, -(2 * i + 1), false) == CoordDistance(k, -(2 * i + 2), false) == Some(-Hi(k, i))
  {
  }

  /** An inner entry never comes after an entry that its key encloses, leaf or not. */
  lemma CoordIsNearer(k: Box, c: Box, coord: int, isLeaf: bool)
    requires Encloses(k, c) && coord != 0
    ensures CoordDistance(k, coord, false).value <= CoordDistance(c, coord, isLeaf).value
  {
    var n := if coord < 0 then -coord else coord;
    var index := (n - 1) / 2;
    assert Inside(c, k, index);
    LoHi(c, index);
    if n <= 2 * k.dim {
      assert index < k.dim;
      assert CoordDistance(k, coord, false).value == if coord < 0 then -Hi(k, index) else Lo(k, index);
    }
  }
}
