/** Sorted pair lists as maps: what the merges of hstore_op.c compute. */
module HstorePairs {
  import opened Options
  import opened ByteStrings
  import opened HstoreText

  /** The key order of hstore: shorter keys first, then memcmp. */
  function KeyCompare(a: Bytes, b: Bytes): int {
    if |a| == |b| then Compare(a, b) else if |a| > |b| then 1 else -1
  }

  predicate KeyLess(a: Bytes, b: Bytes) { KeyCompare(a, b) < 0 }

  lemma KeyOrder(a: Bytes, b: Bytes)
    ensures KeyCompare(a, b) == 0 <==> a == b
    ensures KeyLess(a, b) <==> KeyCompare(b, a) > 0
  {
    CompareAntisymmetric(a, b);
  }

  /** Shorter keys come first; of two of the same length the one with the smaller byte where they first differ. */
  lemma {:induction false} KeyLessIff(a: Bytes, b: Bytes)
    ensures KeyLess(a, b) <==>
            |a| < |b| || (|a| == |b| && exists k :: 0 <= k < |a| && a[..k] == b[..k] && a[k] < b[k])
  {
    if |a| == |b| {
      if k :| 0 <= k < |a| && a[..k] == b[..k] && a[k] < b[k] {
        assert forall i :: 0 <= i < k ==> a[i] == a[..k][i] && b[i] == b[..k][i];
        CpUnique(a, b, k);
      }
    }
  }

  lemma KeyLessTransitive(a: Bytes, b: Bytes, c: Bytes)
    requires KeyLess(a, b) && KeyLess(b, c)
    ensures KeyLess(a, c)
  {
    if |a| == |b| == |c| {
      LeqTransitive(a, b, c);
    }
  }

  predicate Above(k: Bytes, ps: seq<Pair>) { forall p :: p in ps ==> KeyLess(k, p.key) }

  /** Keys strictly increase. */
  predicate Sorted(ps: seq<Pair>)
    decreases |ps|
  {
    ps == [] || (Above(ps[0].key, ps[1..]) && Sorted(ps[1..]))
  }

  function MapOf(ps: seq<Pair>): map<Bytes, Option<Bytes>>
    decreases |ps|
  {
    if ps == [] then map[] else MapOf(ps[1..])[ps[0].key := ps[0].val]
  }

  lemma {:induction false} KeysOfMap(ps: seq<Pair>, k: Bytes)
    ensures k in MapOf(ps) <==> exists p :: p in ps && p.key == k
    decreases |ps|
  {
    if ps != [] {
      KeysOfMap(ps[1..], k);
      assert ps[0] in ps;
      forall p | p in ps[1..] ensures p in ps {}
    }
  }

  lemma {:induction false} NotBelowAll(k: Bytes, ps: seq<Pair>)
    requires Above(k, ps)
    ensures k !in MapOf(ps)
  {
    KeysOfMap(ps, k);
    KeyOrder(k, k);
  }

  lemma {:induction false} AboveMore(k: Bytes, ps: seq<Pair>)
    requires ps != [] && Sorted(ps) && KeyLess(k, ps[0].key)
    ensures Above(k, ps)
  {
    hide KeyLess;
    forall p | p in ps ensures KeyLess(k, p.key) {
      if p != ps[0] {
        assert p in ps[1..];
        KeyLessTransitive(k, ps[0].key, p.key);
      }
    }
  }

  lemma {:induction false} SortedCons(p: Pair, ps: seq<Pair>)
    requires Sorted(ps) && Above(p.key, ps)
    ensures Sorted([p] + ps) && MapOf([p] + ps) == MapOf(ps)[p.key := p.val]
  {
    assert ([p] + ps)[1..] == ps;
  }

  /** In a sorted list each pair is what the map holds at its key. */
  lemma {:induction false} PairInMap(ps: seq<Pair>, p: Pair)
    requires Sorted(ps) && p in ps
    ensures p.key in MapOf(ps) && MapOf(ps)[p.key] == p.val
    decreases |ps|
  {
    hide KeyLess;
    if p != ps[0] {
      assert p in ps[1..];
      PairInMap(ps[1..], p);
      KeyOrder(p.key, p.key);
      assert p.key != ps[0].key by { KeyOrder(ps[0].key, p.key); IsLess(ps[0].key, p.key); }
    }
  }

  lemma {:induction false} IsLess(a: Bytes, b: Bytes)
    ensures KeyLess(a, b) ==> a != b
  {
    KeyOrder(a, b);
  }

  /** A map has one sorted list of pairs. */
  lemma {:induction false} SortedIsCanonical(a: seq<Pair>, b: seq<Pair>)
    requires Sorted(a) && Sorted(b) && MapOf(a) == MapOf(b)
    ensures a == b
    decreases |a|
  {
    hide KeyLess, Above;
    if a == [] || b == [] {
      if a != [] { PairInMap(a, a[0]); }
      if b != [] { PairInMap(b, b[0]); }
    } else {
      SameFirst(a, b);
      NotBelowAll(a[0].key, a[1..]);
      NotBelowAll(b[0].key, b[1..]);
      assert MapOf(a[1..]) == MapOf(a) - {a[0].key};
      assert MapOf(b[1..]) == MapOf(b) - {b[0].key};
      SortedIsCanonical(a[1..], b[1..]);
      assert a == [a[0]] + a[1..] && b == [b[0]] + b[1..];
    }
  }

  lemma {:induction false} SameFirst(a: seq<Pair>, b: seq<Pair>)
    requires Sorted(a) && Sorted(b) && MapOf(a) == MapOf(b) && a != [] && b != []
    ensures a[0] == b[0]
  {
    PairInMap(a, a[0]);
    PairInMap(b, b[0]);
    KeyOrder(a[0].key, b[0].key);
    if KeyLess(a[0].key, b[0].key) {
      AboveMore(a[0].key, b);
      NotBelowAll(a[0].key, b);
    } else if KeyLess(b[0].key, a[0].key) {
      AboveMore(b[0].key, a);
      NotBelowAll(b[0].key, a);
    } else {
      KeyOrder(b[0].key, a[0].key);
    }
  }

  // ----- hstore_concat -----

  /** The merge of hstore_concat: the right side wins on equal keys. */
  function Concat(a: seq<Pair>, b: seq<Pair>): seq<Pair>
    decreases |a| + |b|
  {
    if a == [] then b
    else if b == [] then a
    else
      var c := KeyCompare(a[0].key, b[0].key);
      if c < 0 then [a[0]] + Concat(a[1..], b)
      else [b[0]] + Concat(if c == 0 then a[1..] else a, b[1..])
  }

  lemma {:induction false} ConcatAbove(k: Bytes, a: seq<Pair>, b: seq<Pair>)
    requires Above(k, a) && Above(k, b)
    ensures Above(k, Concat(a, b))
    decreases |a| + |b|
  {
    hide KeyLess, KeyCompare;
    if a != [] && b != [] {
      AboveTail(k, a);
      AboveTail(k, b);
      var c := KeyCompare(a[0].key, b[0].key);
      if c < 0 {
        ConcatAbove(k, a[1..], b);
      } else {
        ConcatAbove(k, if c == 0 then a[1..] else a, b[1..]);
      }
    }
  }

  lemma {:induction false} AboveTail(k: Bytes, ps: seq<Pair>)
    requires ps != [] && Above(k, ps)
    ensures Above(k, ps[1..]) && KeyLess(k, ps[0].key)
  {
    hide KeyLess;
    assert ps[0] in ps;
    forall p | p in ps[1..] ensures p in ps {}
  }

  lemma {:induction false} OverrideLeft(m: map<Bytes, Option<Bytes>>, n: map<Bytes, Option<Bytes>>, k: Bytes,
                                        v: Option<Bytes>)
    requires k !in n
    ensures m[k := v] + n == (m + n)[k := v]
  {
  }

  lemma {:induction false} OverrideRight(m: map<Bytes, Option<Bytes>>, n: map<Bytes, Option<Bytes>>, k: Bytes,
                                         u: Option<Bytes>, v: Option<Bytes>)
    ensures m + n[k := v] == (m + n)[k := v] && m[k := u] + n[k := v] == (m + n)[k := v]
  {
  }

  /** hstore_concat is map override, and its result is sorted. */
  lemma {:induction false} ConcatIsOverride(a: seq<Pair>, b: seq<Pair>)
    requires Sorted(a) && Sorted(b)
    ensures Sorted(Concat(a, b)) && MapOf(Concat(a, b)) == MapOf(a) + MapOf(b)
    decreases |a| + |b|
  {
    hide KeyCompare, Above;
    if a != [] && b != [] {
      var c := KeyCompare(a[0].key, b[0].key);
      KeyOrder(a[0].key, b[0].key);
      if c < 0 {
        ConcatIsOverride(a[1..], b);
        AboveMore(a[0].key, b);
        ConcatAbove(a[0].key, a[1..], b);
        SortedCons(a[0], Concat(a[1..], b));
        NotBelowAll(a[0].key, b);
        OverrideLeft(MapOf(a[1..]), MapOf(b), a[0].key, a[0].val);
      } else {
        var a' := if c == 0 then a[1..] else a;
        ConcatIsOverride(a', b[1..]);
        if c > 0 {
          KeyOrder(b[0].key, a[0].key);
          AboveMore(b[0].key, a);
        }
        ConcatAbove(b[0].key, a', b[1..]);
        SortedCons(b[0], Concat(a', b[1..]));
        OverrideRight(MapOf(a[1..]), MapOf(b[1..]), b[0].key, a[0].val, b[0].val);
        OverrideRight(MapOf(a), MapOf(b[1..]), b[0].key, a[0].val, b[0].val);
      }
    }
  }

  // ----- hstore_delete, hstore_delete_array, hstore_delete_hstore -----

  /** The loop of hstore_delete. */
  function DeleteKey(a: seq<Pair>, k: Bytes): seq<Pair>
    decreases |a|
  {
    if a == [] then [] else (if a[0].key == k then [] else [a[0]]) + DeleteKey(a[1..], k)
  }

  predicate SortedKeys(ks: seq<Bytes>) { forall i, j :: 0 <= i < j < |ks| ==> KeyLess(ks[i], ks[j]) }

  /** The merge of hstore_delete_array. */
  function DeleteKeys(a: seq<Pair>, ks: seq<Bytes>): seq<Pair>
    decreases |a| + |ks|
  {
    if a == [] || ks == [] then a
    else
      var c := KeyCompare(a[0].key, ks[0]);
      if c > 0 then DeleteKeys(a, ks[1..])
      else if c == 0 then DeleteKeys(a[1..], ks[1..])
      else [a[0]] + DeleteKeys(a[1..], ks)
  }

  /** The merge of hstore_delete_hstore. */
  function DeletePairs(a: seq<Pair>, b: seq<Pair>): seq<Pair>
    decreases |a| + |b|
  {
    if a == [] || b == [] then a
    else
      var c := KeyCompare(a[0].key, b[0].key);
      if c > 0 then DeletePairs(a, b[1..])
      else if c == 0 then (if a[0].val != b[0].val then [a[0]] else []) + DeletePairs(a[1..], b[1..])
      else [a[0]] + DeletePairs(a[1..], b)
  }

  /** What is left of m when the pairs of n are taken out. */
  function Without(m: map<Bytes, Option<Bytes>>, n: map<Bytes, Option<Bytes>>): map<Bytes, Option<Bytes>> {
    map k | k in m && !(k in n && n[k] == m[k]) :: m[k]
  }

  lemma {:induction false} RemoveStep(m: map<Bytes, Option<Bytes>>, ks: set<Bytes>, k: Bytes, u: Option<Bytes>)
    ensures k !in m ==> m - (ks + {k}) == m - ks && m[k := u] - (ks + {k}) == m - ks
    ensures k !in ks ==> m[k := u] - ks == (m - ks)[k := u]
  {
  }

  lemma {:induction false} AbovePart(k: Bytes, a: seq<Pair>, b: seq<Pair>)
    requires Above(k, a) && forall p :: p in b ==> p in a
    ensures Above(k, b)
  {
    hide KeyLess;
  }

  lemma {:induction false} DeleteKeyIsRemoval(a: seq<Pair>, k: Bytes)
    requires Sorted(a)
    ensures Sorted(DeleteKey(a, k)) && MapOf(DeleteKey(a, k)) == MapOf(a) - {k}
    ensures forall p :: p in DeleteKey(a, k) ==> p in a
    decreases |a|
  {
    hide Above;
    if a != [] {
      DeleteKeyIsRemoval(a[1..], k);
      var r := DeleteKey(a[1..], k);
      AbovePart(a[0].key, a[1..], r);
      assert {} + {k} == {k};
      if a[0].key == k {
        NotBelowAll(k, a[1..]);
        RemoveStep(MapOf(a[1..]), {}, k, a[0].val);
        assert DeleteKey(a, k) == r;
      } else {
        RemoveStep(MapOf(a[1..]), {k}, a[0].key, a[0].val);
        SortedCons(a[0], r);
        assert DeleteKey(a, k) == [a[0]] + r;
      }
    }
  }

  function KeySet(ks: seq<Bytes>): set<Bytes> { set k | k in ks }

  lemma {:induction false} FirstKeyIsLeast(ks: seq<Bytes>, k: Bytes)
    requires ks != [] && SortedKeys(ks) && KeyLess(k, ks[0])
    ensures k !in KeySet(ks)
  {
    hide KeyLess;
    IsLess(k, ks[0]);
    forall i | 0 <= i < |ks| ensures ks[i] != k {
      if i > 0 {
        KeyLessTransitive(k, ks[0], ks[i]);
        IsLess(k, ks[i]);
      }
    }
  }

  lemma {:induction false} KeysTail(ks: seq<Bytes>)
    requires ks != [] && SortedKeys(ks)
    ensures SortedKeys(ks[1..]) && KeySet(ks) == KeySet(ks[1..]) + {ks[0]}
  {
    hide KeyLess;
    assert ks == [ks[0]] + ks[1..];
  }

  /** hstore_delete_array removes a set of keys. */
  lemma {:induction false} DeleteKeysIsRemoval(a: seq<Pair>, ks: seq<Bytes>)
    requires Sorted(a) && SortedKeys(ks)
    ensures Sorted(DeleteKeys(a, ks)) && MapOf(DeleteKeys(a, ks)) == MapOf(a) - KeySet(ks)
    ensures forall p :: p in DeleteKeys(a, ks) ==> p in a
    decreases |a| + |ks|
  {
    hide KeyCompare, SortedKeys, KeySet, Above;
    if ks == [] {
      assert KeySet(ks) == {} by { EmptyKeySet(); }
    } else if a != [] {
      var c := KeyCompare(a[0].key, ks[0]);
      KeyOrder(a[0].key, ks[0]);
      KeysTail(ks);
      if c > 0 {
        DeleteKeysIsRemoval(a, ks[1..]);
        KeyOrder(ks[0], a[0].key);
        AboveMore(ks[0], a);
        NotBelowAll(ks[0], a);
        RemoveStep(MapOf(a), KeySet(ks[1..]), ks[0], None);
      } else if c == 0 {
        DeleteKeysIsRemoval(a[1..], ks[1..]);
        NotBelowAll(a[0].key, a[1..]);
        RemoveStep(MapOf(a[1..]), KeySet(ks[1..]), ks[0], a[0].val);
      } else {
        DeleteKeysIsRemoval(a[1..], ks);
        FirstKeyIsLeast(ks, a[0].key);
        RemoveStep(MapOf(a[1..]), KeySet(ks), a[0].key, a[0].val);
        AbovePart(a[0].key, a[1..], DeleteKeys(a[1..], ks));
        SortedCons(a[0], DeleteKeys(a[1..], ks));
      }
    }
  }

  lemma {:induction false} EmptyKeySet()
    ensures KeySet([]) == {}
  {
  }

  lemma {:induction false} WithoutStep(m: map<Bytes, Option<Bytes>>, n: map<Bytes, Option<Bytes>>, k: Bytes,
                                       u: Option<Bytes>, v: Option<Bytes>)
    ensures k !in m ==> Without(m, n[k := v]) == Without(m, n)
    ensures k !in n ==> Without(m[k := u], n) == Without(m, n)[k := u]
    ensures k !in m && u == v ==> Without(m[k := u], n[k := v]) == Without(m, n)
    ensures k !in m && u != v ==> Without(m[k := u], n[k := v]) == Without(m, n)[k := u]
  {
  }

  /** hstore_delete_hstore removes the pairs that the other side holds with an equal value. */
  lemma {:induction false} DeletePairsIsDifference(a: seq<Pair>, b: seq<Pair>)
    requires Sorted(a) && Sorted(b)
    ensures Sorted(DeletePairs(a, b)) && MapOf(DeletePairs(a, b)) == Without(MapOf(a), MapOf(b))
    ensures forall p :: p in DeletePairs(a, b) ==> p in a
    decreases |a| + |b|
  {
    hide KeyCompare, Without;
    if a == [] || b == [] {
      WithoutNothing(MapOf(a), MapOf(b));
    } else {
      var c := KeyCompare(a[0].key, b[0].key);
      KeyOrder(a[0].key, b[0].key);
      if c > 0 {
        DeletePairsIsDifference(a, b[1..]);
        KeyOrder(b[0].key, a[0].key);
        AboveMore(b[0].key, a);
        NotBelowAll(b[0].key, a);
        WithoutStep(MapOf(a), MapOf(b[1..]), b[0].key, None, b[0].val);
      } else if c == 0 {
        var r := DeletePairs(a[1..], b[1..]);
        DeletePairsIsDifference(a[1..], b[1..]);
        NotBelowAll(a[0].key, a[1..]);
        WithoutStep(MapOf(a[1..]), MapOf(b[1..]), a[0].key, a[0].val, b[0].val);
        SortedCons(a[0], r);
        assert [] + r == r;
      } else {
        DeletePairsIsDifference(a[1..], b);
        AboveMore(a[0].key, b);
        NotBelowAll(a[0].key, b);
        WithoutStep(MapOf(a[1..]), MapOf(b), a[0].key, a[0].val, None);
        SortedCons(a[0], DeletePairs(a[1..], b));
      }
    }
  }

  lemma {:induction false} WithoutNothing(m: map<Bytes, Option<Bytes>>, n: map<Bytes, Option<Bytes>>)
    requires m == map[] || n == map[]
    ensures Without(m, n) == m
  {
  }
}
