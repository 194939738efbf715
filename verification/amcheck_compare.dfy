/** The order of B-tree keys: the comparison amcheck calls
    (src/backend/access/nbtree/nbtsearch.c) and the tests built on it
    (contrib/amcheck/verify_nbtree.c), for indexes in which the heap TID is the
    last key column. */
module AmcheckCompare {
  import opened Wrappers

  type Datum = int

  /** A key column: its support function and its options. */
  datatype Col = Col(cmp: (Datum, Datum) -> int, desc: bool, nullsFirst: bool)

  /** A place in the key space: the untruncated leading columns, a column value
      being absent when it is null, and the heap TID unless it is truncated. */
  datatype Sep = Sep(atts: seq<Option<Datum>>, tid: Option<nat>)

  /** A place that a well-formed tuple can have: with the heap TID come all columns. */
  predicate Placed(cols: seq<Col>, a: Sep) {
    |a.atts| <= |cols| && (a.tid.Some? ==> |a.atts| == |cols|)
  }

  function Sign(x: int): int {
    if x < 0 then -1 else if x > 0 then 1 else 0
  }

  /** A support function that orders the datums. */
  ghost predicate Lawful(c: Col) {
    && (forall x, y :: Sign(c.cmp(x, y)) == -Sign(c.cmp(y, x)))
    && (forall x, y, z :: c.cmp(x, y) <= 0 && c.cmp(y, z) <= 0 ==> c.cmp(x, z) <= 0)
  }

  ghost predicate AllLawful(cols: seq<Col>) {
    forall i :: 0 <= i < |cols| ==> Lawful(cols[i])
  }

  /** A column of the key against the same column of a tuple. */
  function CompareAtt(c: Col, key: Option<Datum>, att: Option<Datum>): int {
    if key.None? then
      if att.None? then 0 else if c.nullsFirst then -1 else 1
    else if att.None? then
      if c.nullsFirst then 1 else -1
    else
      var r := c.cmp(att.value, key.value);
      if c.desc then r else -r
  }

  lemma CmpFlips(c: Col, x: Datum, y: Datum)
    requires Lawful(c)
    ensures Sign(c.cmp(x, y)) == -Sign(c.cmp(y, x))
  {
  }

  /** A column sorts by its support function, the other way round if it is
      descending; a null sorts before all values or behind them, as the column says. */
  lemma ColumnSorts(c: Col, x: Option<Datum>, y: Option<Datum>)
    requires Lawful(c)
    ensures x.Some? && y.Some? && !c.desc ==> (CompareAtt(c, x, y) < 0 <==> c.cmp(x.value, y.value) < 0)
    ensures x.Some? && y.Some? && c.desc ==> (CompareAtt(c, x, y) < 0 <==> c.cmp(x.value, y.value) > 0)
    ensures x.Some? && y.Some? ==> (CompareAtt(c, x, y) == 0 <==> c.cmp(x.value, y.value) == 0)
    ensures x.None? && y.Some? ==> if c.nullsFirst then CompareAtt(c, x, y) < 0 else CompareAtt(c, x, y) > 0
    ensures x.Some? && y.None? ==> if c.nullsFirst then CompareAtt(c, x, y) > 0 else CompareAtt(c, x, y) < 0
    ensures x.None? && y.None? ==> CompareAtt(c, x, y) == 0
  {
    if x.Some? && y.Some? {
      CmpFlips(c, x.value, y.value);
    }
  }

  lemma CmpTransitive(c: Col, x: Datum, y: Datum, z: Datum)
    requires Lawful(c) && c.cmp(x, y) <= 0 && c.cmp(y, z) <= 0
    ensures c.cmp(x, z) <= 0 && (c.cmp(x, z) == 0 ==> c.cmp(x, y) == 0 && c.cmp(y, z) == 0)
  {
    CmpFlips(c, z, x);
    CmpFlips(c, y, x);
    CmpFlips(c, z, y);
  }

  lemma AttFlips(c: Col, a: Option<Datum>, b: Option<Datum>)
    requires Lawful(c)
    ensures Sign(CompareAtt(c, a, b)) == -Sign(CompareAtt(c, b, a))
  {
    if a.Some? && b.Some? {
      CmpFlips(c, a.value, b.value);
    }
  }

  lemma AttTransitive(c: Col, x: Option<Datum>, y: Option<Datum>, z: Option<Datum>)
    requires Lawful(c) && CompareAtt(c, x, y) <= 0 && CompareAtt(c, y, z) <= 0
    ensures CompareAtt(c, x, z) <= 0
    ensures CompareAtt(c, x, z) == 0 ==> CompareAtt(c, x, y) == 0 && CompareAtt(c, y, z) == 0
  {
    if x.Some? && y.Some? && z.Some? {
      var a, b, d := x.value, y.value, z.value;
      CmpFlips(c, a, b);
      CmpFlips(c, b, d);
      CmpFlips(c, a, d);
      if c.desc {
        CmpTransitive(c, d, b, a);
      } else {
        CmpTransitive(c, a, b, d);
      }
    }
  }

  // -------------------------------------------------------- the reference order

  function CompareTid(a: Option<nat>, b: Option<nat>): int {
    if a.None? then (if b.None? then 0 else -1)
    else if b.None? then 1 else Sign(a.value - b.value)
  }

  /** Column i of two places; a truncated column is minus infinity.  The heap
      TID is the column after the last. */
  function CompareCol(cols: seq<Col>, a: Sep, b: Sep, i: nat): int
    requires i <= |cols|
  {
    if i == |cols| then CompareTid(a.tid, b.tid)
    else if i >= |a.atts| then (if i >= |b.atts| then 0 else -1)
    else if i >= |b.atts| then 1
    else CompareAtt(cols[i], a.atts[i], b.atts[i])
  }

  /** The order of the key space: the first column that differs decides. */
  ghost function OrderFrom(cols: seq<Col>, a: Sep, b: Sep, i: nat): int
    requires i <= |cols| + 1
    decreases |cols| + 1 - i
  {
    if i == |cols| + 1 then 0
    else
      var c := CompareCol(cols, a, b, i);
      if c != 0 then c else OrderFrom(cols, a, b, i + 1)
  }

  ghost function Order(cols: seq<Col>, a: Sep, b: Sep): int {
    OrderFrom(cols, a, b, 0)
  }

  ghost predicate Before(cols: seq<Col>, a: Sep, b: Sep) {
    Order(cols, a, b) < 0
  }

  /** The two places agree in the columns before i, and a comes first in column i. */
  ghost predicate FirstIn(cols: seq<Col>, a: Sep, b: Sep, i: nat)
    requires i <= |cols|
  {
    CompareCol(cols, a, b, i) < 0 && forall k :: 0 <= k < i ==> CompareCol(cols, a, b, k) == 0
  }

  lemma {:induction false} OrderFromIff(cols: seq<Col>, a: Sep, b: Sep, i: nat)
    requires i <= |cols| + 1 && forall k :: 0 <= k < i ==> CompareCol(cols, a, b, k) == 0
    ensures OrderFrom(cols, a, b, i) < 0 <==> exists j :: i <= j <= |cols| && FirstIn(cols, a, b, j)
    decreases |cols| + 1 - i
  {
    if i <= |cols| {
      if CompareCol(cols, a, b, i) == 0 {
        OrderFromIff(cols, a, b, i + 1);
      } else if CompareCol(cols, a, b, i) < 0 {
        assert FirstIn(cols, a, b, i);
      } else {
        forall j | i <= j <= |cols|
          ensures !FirstIn(cols, a, b, j)
        {
          assert j > i ==> CompareCol(cols, a, b, i) != 0;
        }
      }
    }
  }

  /** A place comes before another exactly when it does so in the first column in
      which they differ; the heap TID counts as the last column. */
  lemma BeforeIff(cols: seq<Col>, a: Sep, b: Sep)
    ensures Before(cols, a, b) <==> exists i :: 0 <= i <= |cols| && FirstIn(cols, a, b, i)
  {
    OrderFromIff(cols, a, b, 0);
  }

  /** The last column is the heap TID, and a truncated column or TID comes before
      every value. */
  lemma TruncatedFirst(cols: seq<Col>, a: Sep, b: Sep, i: nat)
    requires i <= |cols|
    ensures i < |cols| && |a.atts| <= i < |b.atts| ==> CompareCol(cols, a, b, i) < 0
    ensures a.tid.None? && b.tid.Some? ==> CompareCol(cols, a, b, |cols|) < 0
    ensures a.tid.Some? && b.tid.Some? ==> (CompareCol(cols, a, b, |cols|) < 0 <==> a.tid.value < b.tid.value)
  {
  }

  lemma ColFlips(cols: seq<Col>, a: Sep, b: Sep, i: nat)
    requires AllLawful(cols) && i <= |cols|
    ensures Sign(CompareCol(cols, a, b, i)) == -Sign(CompareCol(cols, b, a, i))
  {
    if i < |cols| && i < |a.atts| && i < |b.atts| {
      AttFlips(cols[i], a.atts[i], b.atts[i]);
    }
  }

  lemma ColTransitive(cols: seq<Col>, a: Sep, b: Sep, c: Sep, i: nat)
    requires AllLawful(cols) && i <= |cols|
    requires CompareCol(cols, a, b, i) <= 0 && CompareCol(cols, b, c, i) <= 0
    ensures CompareCol(cols, a, c, i) <= 0
    ensures CompareCol(cols, a, c, i) == 0 ==> CompareCol(cols, a, b, i) == 0 && CompareCol(cols, b, c, i) == 0
    ensures CompareCol(cols, a, b, i) == 0 && CompareCol(cols, b, c, i) == 0 ==> CompareCol(cols, a, c, i) == 0
  {
    if i < |cols| && i < |a.atts| && i < |b.atts| && i < |c.atts| {
      AttTransitive(cols[i], a.atts[i], b.atts[i], c.atts[i]);
      AttFlips(cols[i], a.atts[i], b.atts[i]);
      AttFlips(cols[i], b.atts[i], c.atts[i]);
      AttFlips(cols[i], a.atts[i], c.atts[i]);
      if CompareAtt(cols[i], a.atts[i], b.atts[i]) == 0 == CompareAtt(cols[i], b.atts[i], c.atts[i]) {
        AttTransitive(cols[i], c.atts[i], b.atts[i], a.atts[i]);
      }
    }
  }

  lemma {:induction false} OrderFlips(cols: seq<Col>, a: Sep, b: Sep, i: nat)
    requires AllLawful(cols) && i <= |cols| + 1
    ensures Sign(OrderFrom(cols, a, b, i)) == -Sign(OrderFrom(cols, b, a, i))
    decreases |cols| + 1 - i
  {
    if i <= |cols| {
      ColFlips(cols, a, b, i);
      OrderFlips(cols, a, b, i + 1);
    }
  }

  lemma {:induction false} OrderTransitive(cols: seq<Col>, a: Sep, b: Sep, c: Sep, i: nat)
    requires AllLawful(cols) && i <= |cols| + 1
    requires OrderFrom(cols, a, b, i) <= 0 && OrderFrom(cols, b, c, i) <= 0
    ensures OrderFrom(cols, a, c, i) <= 0
    ensures OrderFrom(cols, a, c, i) == 0 ==> OrderFrom(cols, a, b, i) == 0 && OrderFrom(cols, b, c, i) == 0
    decreases |cols| + 1 - i
  {
    if i <= |cols| {
      ColTransitive(cols, a, b, c, i);
      if CompareCol(cols, a, b, i) == 0 && CompareCol(cols, b, c, i) == 0 {
        OrderTransitive(cols, a, b, c, i + 1);
      }
    }
  }

  /** With lawful columns the key space is totally ordered. */
  lemma OrderIsTotal(cols: seq<Col>, a: Sep, b: Sep, c: Sep)
    requires AllLawful(cols)
    ensures Before(cols, a, b) || Before(cols, b, a) || Order(cols, a, b) == 0
    ensures !(Before(cols, a, b) && Before(cols, b, a))
    ensures Before(cols, a, b) && Before(cols, b, c) ==> Before(cols, a, c)
  {
    OrderFlips(cols, a, b, 0);
    if Before(cols, a, b) && Before(cols, b, c) {
      OrderTransitive(cols, a, b, c, 0);
    }
  }

  // ------------------------------------------------- the comparison of the code

  /** Result of comparing a key with a tuple once the common columns are equal. */
  function CompareRest(a: Sep, b: Sep): int {
    if |a.atts| > |b.atts| then 1
    else if a.tid.None? then 0
    else if b.tid.None? then 1
    else Sign(a.tid.value - b.tid.value)
  }

  function Common(a: Sep, b: Sep): nat {
    if |a.atts| < |b.atts| then |a.atts| else |b.atts|
  }

  function CompareFrom(cols: seq<Col>, a: Sep, b: Sep, i: nat): int
    requires |a.atts| <= |cols| && i <= Common(a, b)
    decreases |cols| - i
  {
    if i == Common(a, b) then CompareRest(a, b)
    else
      var c := CompareAtt(cols[i], a.atts[i], b.atts[i]);
      if c != 0 then c else CompareFrom(cols, a, b, i + 1)
  }

  function Compare(cols: seq<Col>, a: Sep, b: Sep): int
    requires |a.atts| <= |cols|
  {
    CompareFrom(cols, a, b, 0)
  }

  /** Neither key nor tuple has a heap TID, and they have the same columns. */
  predicate Tied(a: Sep, b: Sep) {
    |a.atts| == |b.atts| && a.tid.None? && b.tid.None?
  }

  /** The comparison of a key with an item of a page: the minus infinity item is
      below every key; in a search that is not for a pivot tuple, a key is above a
      truncated tuple that it ties with. */
  method BtCompare(cols: seq<Col>, key: Sep, pivotsearch: bool, tup: Sep, minusInfinity: bool) returns (r: int)
    requires |key.atts| <= |cols|
    ensures minusInfinity ==> r == 1
    ensures !minusInfinity ==>
              r == if !pivotsearch && Tied(key, tup) && Compare(cols, key, tup) == 0 then 1 else Compare(cols, key, tup)
  {
    if minusInfinity {
      return 1;
    }
    var n := if |tup.atts| < |key.atts| then |tup.atts| else |key.atts|;
    var i := 0;
    while i < n
      invariant 0 <= i <= n == Common(key, tup)
      invariant Compare(cols, key, tup) == CompareFrom(cols, key, tup, i)
    {
      var result := CompareAtt(cols[i], key.atts[i], tup.atts[i]);
      if result != 0 {
        return result;
      }
      i := i + 1;
    }
    if |key.atts| > |tup.atts| {
      return 1;
    }
    if key.tid.None? {
      if !pivotsearch && |key.atts| == |tup.atts| && tup.tid.None? {
        return 1;
      }
      return 0;
    }
    if tup.tid.None? {
      return 1;
    }
    return Sign(key.tid.value - tup.tid.value);
  }

  /** The tuple has a column, or a heap TID, beyond those of the key. */
  predicate SaysMore(a: Sep, b: Sep) {
    if |a.atts| == |b.atts| then a.tid.None? && b.tid.Some? else |a.atts| < |b.atts|
  }

  lemma RestOrder(cols: seq<Col>, a: Sep, b: Sep)
    requires Placed(cols, a) && Placed(cols, b)
    ensures var n := Common(a, b);
            var c, r := CompareRest(a, b), OrderFrom(cols, a, b, n);
            (c > 0 <==> r > 0) && (c < 0 ==> r < 0) && (c == 0 ==> (r < 0 <==> SaysMore(a, b)))
  {
    var n := Common(a, b);
    if |a.atts| == |b.atts| {
      BothTruncated(cols, a, b, n);
    }
  }

  lemma {:induction false} BothTruncated(cols: seq<Col>, a: Sep, b: Sep, i: nat)
    requires i <= |cols| && |a.atts| <= i && |b.atts| <= i
    ensures OrderFrom(cols, a, b, i) == CompareTid(a.tid, b.tid)
    decreases |cols| - i
  {
    if i < |cols| {
      BothTruncated(cols, a, b, i + 1);
    } else {
      assert OrderFrom(cols, a, b, i + 1) == 0;
    }
  }

  /** The result of the comparison, except that a key which says less than the
      tuple and agrees with it so far compares as equal. */
  lemma {:induction false} CompareOrder(cols: seq<Col>, a: Sep, b: Sep, i: nat)
    requires Placed(cols, a) && Placed(cols, b) && i <= Common(a, b)
    ensures var c, r := CompareFrom(cols, a, b, i), OrderFrom(cols, a, b, i);
            (c > 0 <==> r > 0) && (c < 0 ==> r < 0) && (c == 0 ==> (r < 0 <==> SaysMore(a, b)))
    decreases |cols| - i
  {
    if i == Common(a, b) {
      RestOrder(cols, a, b);
    } else {
      CompareOrder(cols, a, b, i + 1);
    }
  }

  // The tests of amcheck.

  /** The key is strictly below the tuple; a heap tuple must have its TID. */
  predicate InvariantL(cols: seq<Col>, key: Sep, tup: Sep, nonpivot: bool)
    requires |key.atts| <= |cols|
  {
    var c := Compare(cols, key, tup);
    if c == 0 then (nonpivot ==> tup.tid.Some?) && SaysMore(key, tup) else c < 0
  }

  predicate InvariantLeq(cols: seq<Col>, key: Sep, tup: Sep)
    requires |key.atts| <= |cols|
  {
    Compare(cols, key, tup) <= 0
  }

  predicate InvariantG(cols: seq<Col>, key: Sep, tup: Sep)
    requires |key.atts| <= |cols|
  {
    Compare(cols, key, tup) > 0
  }

  /** On well-formed tuples the tests decide the order of the key space. */
  lemma InvariantsDecide(cols: seq<Col>, a: Sep, b: Sep, nonpivot: bool)
    requires Placed(cols, a) && Placed(cols, b)
    ensures InvariantL(cols, a, b, nonpivot) ==> Before(cols, a, b)
    ensures Before(cols, a, b) && (nonpivot ==> b.tid.Some?) ==> InvariantL(cols, a, b, nonpivot)
    ensures InvariantLeq(cols, a, b) <==> Order(cols, a, b) <= 0
    ensures InvariantG(cols, a, b) <==> Order(cols, a, b) > 0
  {
    CompareOrder(cols, a, b, 0);
  }
}
