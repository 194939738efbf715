/** What the two GiST operator classes share: the offsets of a page split and the
    answers of a search. */
module GistSupport {
  /** The bag holds each of the offsets 1 to n exactly once, and nothing else. */
  ghost predicate OnceEach(bag: multiset<nat>, n: nat) {
    forall j: nat :: bag[j] == if 1 <= j <= n then 1 else 0
  }

  lemma OnceGrows(bag: multiset<nat>, n: nat)
    requires OnceEach(bag, n)
    ensures OnceEach(bag + multiset{n + 1}, n + 1)
  {
  }

  /** The offsets 1 to n are each on exactly one side, once. */
  ghost predicate Partition(n: nat, left: seq<nat>, right: seq<nat>) {
    OnceEach(multiset(left) + multiset(right), n)
  }

  lemma PartitionGrows(n: nat, left: seq<nat>, right: seq<nat>)
    requires Partition(n, left, right)
    ensures Partition(n + 1, left + [n + 1], right) && Partition(n + 1, left, right + [n + 1])
  {
    var next: nat := n + 1;
    OnceGrows(multiset(left) + multiset(right), n);
    var bag := multiset(left) + multiset(right) + multiset{next};
    assert multiset(left + [next]) + multiset(right) == bag;
    assert multiset(left) + multiset(right + [next]) == bag;
  }

  ghost predicate InRange(offs: seq<nat>, n: nat) {
    forall i :: 0 <= i < |offs| ==> 1 <= offs[i] <= n
  }

  lemma OffsetsIn(order: seq<nat>, n: nat)
    requires OnceEach(multiset(order), n)
    ensures InRange(order, n)
    ensures forall j :: 1 <= j <= n ==> j in order
  {
    forall i | 0 <= i < |order|
      ensures 1 <= order[i] <= n
    {
      assert order[i] in multiset(order);
    }
    forall j | 1 <= j <= n
      ensures j in order
    {
      assert multiset(order)[j] == 1;
    }
  }

  /** The sequences one after the other. */
  ghost function Concat<T>(ss: seq<seq<T>>): seq<T> {
    if ss == [] then [] else Concat(ss[..|ss| - 1]) + ss[|ss| - 1]
  }

  lemma {:induction false} ConcatSome<T>(ss: seq<seq<T>>) returns (i: nat)
    requires Concat(ss) != []
    ensures i < |ss| && ss[i] != []
  {
    if ss[|ss| - 1] != [] {
      i := |ss| - 1;
    } else {
      i := ConcatSome(ss[..|ss| - 1]);
    }
  }
}
