/** Searching a packed hstore: hstoreFindKey with its carried lower bound, and
    the containment and existence tests built on it
    (contrib/hstore/hstore_op.c). */
module HStoreFind {
  import opened Wrappers
  import opened HStoreBase
  import opened HStorePack
  import opened HStoreUnique

  ghost predicate Below(ps: seq<Pair>, n: nat, key: Bytes) {
    n <= |ps| && forall k :: 0 <= k < n ==> Less(ps[k].key, key)
  }

  ghost predicate AtMost(ps: seq<Pair>, n: nat, key: Bytes) {
    n <= |ps| && forall k :: 0 <= k < n ==> Less(ps[k].key, key) || ps[k].key == key
  }

  ghost predicate Above(ps: seq<Pair>, n: nat, key: Bytes) {
    n <= |ps| && forall k :: n <= k < |ps| ==> Less(key, ps[k].key)
  }

  lemma BelowUpTo(ps: seq<Pair>, i: nat, key: Bytes)
    requires Sorted(ps) && i < |ps| && Less(ps[i].key, key)
    ensures Below(ps, i + 1, key)
  {
    forall k | 0 <= k < i
      ensures Less(ps[k].key, key)
    {
      SortedAny(ps, k, i);
      LessTransitive(ps[k].key, ps[i].key, key);
    }
  }

  lemma AboveFrom(ps: seq<Pair>, i: nat, key: Bytes)
    requires Sorted(ps) && i < |ps| && Less(key, ps[i].key)
    ensures Above(ps, i, key)
  {
    forall k | i < k < |ps|
      ensures Less(key, ps[k].key)
    {
      SortedAny(ps, i, k);
      LessTransitive(key, ps[i].key, ps[k].key);
    }
  }

  /** The bound left by one search is valid for every larger key. */
  lemma BoundCarries(ps: seq<Pair>, n: nat, key: Bytes, larger: Bytes)
    requires AtMost(ps, n, key) && Less(key, larger)
    ensures Below(ps, n, larger)
  {
    forall k | 0 <= k < n
      ensures Less(ps[k].key, larger)
    {
      if Less(ps[k].key, key) {
        LessTransitive(ps[k].key, key, larger);
      }
    }
  }

  lemma AtMostUpTo(ps: seq<Pair>, i: nat)
    requires Sorted(ps) && i < |ps|
    ensures AtMost(ps, i + 1, ps[i].key)
  {
    forall k | 0 <= k < i
      ensures Less(ps[k].key, ps[i].key)
    {
      SortedAny(ps, k, i);
    }
  }

  lemma FoundAt(ps: seq<Pair>, i: nat, key: Bytes)
    requires Sorted(ps) && i < |ps| && ps[i].key == key
    ensures key in MapOf(ps) && MapOf(ps)[key] == ps[i].val && AtMost(ps, i + 1, key)
  {
    MapOfAt(ps, i);
    AtMostUpTo(ps, i);
  }

  lemma NotFound(ps: seq<Pair>, n: nat, key: Bytes)
    requires Below(ps, n, key) && Above(ps, n, key)
    ensures key !in MapOf(ps)
  {
    MapOfKeys(ps, key);
    KeyCmpLaws(key, key);
  }

  /** Binary search from the lower bound.  It finds the key exactly when the
      mapping has it, and the bound it returns is valid for any larger key. */
  method FindKey(h: HStore, lowbound: nat, key: Bytes) returns (idx: int, low: nat)
    requires WF(h) && Below(PairsOf(h), lowbound, key)
    ensures -1 <= idx < h.count
    ensures idx >= 0 <==> key in Decode(h)
    ensures idx >= 0 ==> PairsOf(h)[idx].key == key && Decode(h)[key] == PairsOf(h)[idx].val
    ensures AtMost(PairsOf(h), low, key)
    ensures lowbound <= low && (idx >= 0 ==> lowbound <= idx && low == idx + 1)
  {
    ghost var ps := PairsOf(h);
    var stopLow, stopHigh := lowbound, h.count;
    while stopLow < stopHigh
      invariant lowbound <= stopLow <= stopHigh <= h.count == |ps|
      invariant Below(ps, stopLow, key) && Above(ps, stopHigh, key)
    {
      var stopMiddle := stopLow + (stopHigh - stopLow) / 2;
      var middle := ReadKey(h, stopMiddle);
      var difference := KeyCmp(middle, key);
      KeyCmpLaws(ps[stopMiddle].key, key);
      if difference == 0 {
        FoundAt(ps, stopMiddle, key);
        return stopMiddle, stopMiddle + 1;
      } else if difference < 0 {
        BelowUpTo(ps, stopMiddle, key);
        stopLow := stopMiddle + 1;
      } else {
        AboveFrom(ps, stopMiddle, key);
        stopHigh := stopMiddle;
      }
    }
    NotFound(ps, stopLow, key);
    idx, low := -1, stopLow;
  }

  /** hstore_exists. */
  method Exists(h: HStore, key: Bytes) returns (res: bool)
    requires WF(h)
    ensures res <==> key in Decode(h)
  {
    var idx, _ := FindKey(h, 0, key);
    res := idx >= 0;
  }

  /** hstore_exists_any: one sweep over the sorted keys. */
  method ExistsAny(h: HStore, keys: seq<Option<Bytes>>) returns (res: bool)
    requires WF(h)
    ensures res <==> exists k :: InArray(k, keys) && k in Decode(h)
  {
    var rs := ArrayToPairs(keys);
    ghost var ps := PairsOf(h);
    var low, i := 0, 0;
    while i < |rs|
      invariant 0 <= i <= |rs|
      invariant i < |rs| ==> Below(ps, low, rs[i].key)
      invariant forall k :: 0 <= k < i ==> rs[k].key !in Decode(h)
    {
      assert Covered(rs, rs[i].key);
      var idx;
      idx, low := FindKey(h, low, rs[i].key);
      if idx >= 0 {
        return true;
      }
      if i + 1 < |rs| {
        BoundCarries(ps, low, rs[i].key, rs[i + 1].key);
      }
      i := i + 1;
    }
    forall k: Bytes | InArray(k, keys)
      ensures k !in Decode(h)
    {
      assert Covered(rs, k);
    }
    res := false;
  }

  /** hstore_exists_all. */
  method ExistsAll(h: HStore, keys: seq<Option<Bytes>>) returns (res: bool)
    requires WF(h)
    ensures res <==> forall k :: InArray(k, keys) ==> k in Decode(h)
  {
    var rs := ArrayToPairs(keys);
    ghost var ps := PairsOf(h);
    var low, i := 0, 0;
    while i < |rs|
      invariant 0 <= i <= |rs|
      invariant i < |rs| ==> Below(ps, low, rs[i].key)
      invariant forall k :: 0 <= k < i ==> rs[k].key in Decode(h)
    {
      var idx;
      idx, low := FindKey(h, low, rs[i].key);
      if idx < 0 {
        assert Covered(rs, rs[i].key);
        assert InArray(rs[i].key, keys);
        return false;
      }
      if i + 1 < |rs| {
        BoundCarries(ps, low, rs[i].key, rs[i + 1].key);
      }
      i := i + 1;
    }
    forall k: Bytes | InArray(k, keys)
      ensures k in Decode(h)
    {
      assert Covered(rs, k);
    }
    res := true;
  }

  /** The value comparison of the operators: null flags, lengths, bytes. */
  function SameValue(n1: bool, v1: Bytes, n2: bool, v2: Bytes): bool {
    !(n1 != n2 || (!n1 && (|v1| != |v2| || MemCmp(v1, v2) != 0)))
  }

  lemma SameValueIff(p: Pair, q: Pair)
    ensures SameValue(p.val.None?, ValBytes(p), q.val.None?, ValBytes(q)) <==> p.val == q.val
  {
    if |ValBytes(p)| == |ValBytes(q)| {
      MemCmpLaws(ValBytes(p), ValBytes(q));
    }
  }

  ghost predicate Submap(a: Mapping, b: Mapping) {
    forall k :: k in a ==> k in b && a[k] == b[k]
  }

  lemma SubmapIff(ps: seq<Pair>, m: Mapping)
    requires Sorted(ps)
    ensures Submap(MapOf(ps), m) <==> forall i :: 0 <= i < |ps| ==> ps[i].key in m && m[ps[i].key] == ps[i].val
  {
    if Submap(MapOf(ps), m) {
      forall i | 0 <= i < |ps|
        ensures ps[i].key in m && m[ps[i].key] == ps[i].val
      {
        MapOfAt(ps, i);
      }
    }
    if forall i :: 0 <= i < |ps| ==> ps[i].key in m && m[ps[i].key] == ps[i].val {
      forall k | k in MapOf(ps)
        ensures k in m && MapOf(ps)[k] == m[k]
      {
        MapOfKeys(ps, k);
        var i :| 0 <= i < |ps| && ps[i].key == k;
        MapOfAt(ps, i);
      }
    }
  }

  /** Pair i of tmpl is in val, with an equal value. */
  method Holds(val: HStore, tmpl: HStore, i: nat, lastidx: nat) returns (res: bool, low: nat)
    requires WF(val) && WF(tmpl) && i < tmpl.count
    requires Below(PairsOf(val), lastidx, PairsOf(tmpl)[i].key)
    ensures var p := PairsOf(tmpl)[i]; res <==> p.key in Decode(val) && Decode(val)[p.key] == p.val
    ensures AtMost(PairsOf(val), low, PairsOf(tmpl)[i].key)
  {
    ghost var ts, vs := PairsOf(tmpl), PairsOf(val);
    var key := ReadKey(tmpl, i);
    var idx;
    idx, low := FindKey(val, lastidx, key);
    if idx >= 0 {
      var isnull, v := ReadVal(tmpl, i);
      var isnull', v' := ReadVal(val, idx);
      SameValueIff(ts[i], vs[idx]);
      res := SameValue(isnull, v, isnull', v');
    } else {
      res := false;
    }
  }

  /** hstore_contains: tmpl's mapping is part of val's. */
  method Contains(val: HStore, tmpl: HStore) returns (res: bool)
    requires WF(val) && WF(tmpl)
    ensures res <==> Submap(Decode(tmpl), Decode(val))
  {
    hide Strings, End;
    ghost var ts, vs := PairsOf(tmpl), PairsOf(val);
    SubmapIff(ts, Decode(val));
    res := true;
    var lastidx, i := 0, 0;
    while res && i < tmpl.count
      invariant 0 <= i <= tmpl.count == |ts|
      invariant i < |ts| ==> Below(vs, lastidx, ts[i].key)
      invariant res <==> forall k :: 0 <= k < i ==> ts[k].key in Decode(val) && Decode(val)[ts[k].key] == ts[k].val
      decreases tmpl.count - i, res
    {
      res, lastidx := Holds(val, tmpl, i, lastidx);
      if i + 1 < |ts| {
        assert Linked(ts, i);
        BoundCarries(vs, lastidx, ts[i].key, ts[i + 1].key);
      }
      i := i + 1;
    }
  }
}
