/** Searching and merging stored values (hstore_op.c), proved to be operations on maps. */
module HstoreOps {
  import opened ByteStrings
  import opened HstoreText
  import opened HstorePairs
  import opened HstorePacked
  import opened HstoreBuild

  // ----- searching -----

  lemma {:induction false} SortedAt(ps: seq<Pair>, i: nat, j: nat)
    requires Sorted(ps) && i < j < |ps|
    ensures KeyLess(ps[i].key, ps[j].key)
    decreases i
  {
    hide KeyLess;
    if i == 0 {
      assert ps[j] == ps[1..][j - 1];
      assert ps[j] in ps[1..];
    } else {
      SortedAt(ps[1..], i - 1, j - 1);
    }
  }

  ghost predicate AllBelow(ps: seq<Pair>, n: nat, key: Bytes) {
    forall i :: 0 <= i < |ps| && i < n ==> KeyLess(ps[i].key, key)
  }

  ghost predicate AllAbove(ps: seq<Pair>, n: nat, key: Bytes) {
    forall i :: 0 <= i < |ps| && n <= i ==> KeyLess(key, ps[i].key)
  }

  lemma {:induction false} BelowTo(ps: seq<Pair>, m: nat, key: Bytes)
    requires Sorted(ps) && m < |ps| && KeyLess(ps[m].key, key)
    ensures AllBelow(ps, m + 1, key)
  {
    hide KeyLess, Sorted;
    forall i | 0 <= i < m ensures KeyLess(ps[i].key, key) {
      SortedAt(ps, i, m);
      KeyLessTransitive(ps[i].key, ps[m].key, key);
    }
  }

  lemma {:induction false} AboveFrom(ps: seq<Pair>, m: nat, key: Bytes)
    requires Sorted(ps) && m < |ps| && KeyLess(key, ps[m].key)
    ensures AllAbove(ps, m, key)
  {
    hide KeyLess, Sorted;
    forall i | m < i < |ps| ensures KeyLess(key, ps[i].key) {
      SortedAt(ps, m, i);
      KeyLessTransitive(key, ps[m].key, ps[i].key);
    }
  }

  lemma {:induction false} AroundKey(ps: seq<Pair>, m: nat)
    requires Sorted(ps) && m < |ps|
    ensures AllBelow(ps, m, ps[m].key) && AllAbove(ps, m + 1, ps[m].key)
  {
    hide KeyLess, Sorted;
    forall i | 0 <= i < m ensures KeyLess(ps[i].key, ps[m].key) { SortedAt(ps, i, m); }
    forall i | m < i < |ps| ensures KeyLess(ps[m].key, ps[i].key) { SortedAt(ps, m, i); }
  }

  /** Between the keys below and the keys above there is none left. */
  lemma {:induction false} NotThere(ps: seq<Pair>, n: nat, key: Bytes)
    requires AllBelow(ps, n, key) && AllAbove(ps, n, key)
    ensures key !in MapOf(ps)
  {
    hide KeyLess;
    KeysOfMap(ps, key);
    forall p | p in ps ensures p.key != key {
      var i :| 0 <= i < |ps| && ps[i] == p;
      IsLess(p.key, key);
      IsLess(key, p.key);
    }
  }

  /** hstoreFindKey: the keys before `low` are known to be smaller; `low'` counts the keys not above. */
  method FindKey(hs: HStore, low: nat, key: Bytes, ghost ps: seq<Pair>) returns (idx: int, low': nat)
    requires Packs(hs, ps) && Sorted(ps) && low <= |ps| && AllBelow(ps, low, key)
    ensures -1 <= idx < |ps| && low' <= |ps| && AllAbove(ps, low', key)
    ensures idx == -1 ==> key !in MapOf(ps) && AllBelow(ps, low', key)
    ensures idx >= 0 ==> ps[idx].key == key && low' == idx + 1 && AllBelow(ps, idx, key)
  {
    hide KeyCompare, KeyLess, Packs, Sorted, AllBelow, AllAbove, KeyOf;
    CountIs(hs, ps);
    var lo, hi := low, Count(hs);
    assert AllAbove(ps, hi, key) by { NoneAbove(ps, key); }
    while lo < hi
      invariant low <= lo <= hi <= |ps|
      invariant AllBelow(ps, lo, key) && AllAbove(ps, hi, key)
    {
      var mid := lo + (hi - lo) / 2;
      ItemRead(hs, ps, mid);
      var difference := KeyCompare(KeyOf(hs, mid), key);
      KeyOrder(ps[mid].key, key);
      KeyOrder(key, ps[mid].key);
      if difference == 0 {
        AroundKey(ps, mid);
        return mid, mid + 1;
      } else if difference < 0 {
        LessIs(ps[mid].key, key);
        BelowTo(ps, mid, key);
        lo := mid + 1;
      } else {
        LessIs(key, ps[mid].key);
        AboveFrom(ps, mid, key);
        hi := mid;
      }
    }
    NotThere(ps, lo, key);
    return -1, lo;
  }

  lemma {:induction false} CountIs(hs: HStore, ps: seq<Pair>)
    requires Packs(hs, ps)
    ensures Count(hs) == |ps| && |hs.words| == 2 * |ps| && |hs.str| == Size(ps) < POS_LIMIT
    ensures hs.varsize == HEADER + 8 * |ps| + |hs.str|
  {
    hide Words, Str;
    StrSize(ps);
  }

  lemma {:induction false} NoneAbove(ps: seq<Pair>, key: Bytes)
    ensures AllAbove(ps, |ps|, key) && AllBelow(ps, 0, key)
  {
  }

  lemma {:induction false} LessIs(a: Bytes, b: Bytes)
    ensures KeyLess(a, b) <==> KeyCompare(a, b) < 0
  {
  }

  /** The lower bound that one search leaves serves the search for any larger key. */
  lemma {:induction false} NextSearch(ps: seq<Pair>, idx: int, low: nat, key: Bytes, next: Bytes)
    requires -1 <= idx < |ps| && low <= |ps| && KeyLess(key, next)
    requires if idx >= 0 then ps[idx].key == key && low == idx + 1 && AllBelow(ps, idx, key) else AllBelow(ps, low, key)
    ensures AllBelow(ps, low, next)
  {
    hide KeyLess;
    forall i | 0 <= i < low ensures KeyLess(ps[i].key, next) {
      if i != idx {
        KeyLessTransitive(ps[i].key, key, next);
      }
    }
  }

  lemma {:induction false} FoundIsThere(ps: seq<Pair>, idx: nat)
    requires Sorted(ps) && idx < |ps|
    ensures ps[idx].key in MapOf(ps) && MapOf(ps)[ps[idx].key] == ps[idx].val
  {
    PairInMap(ps, ps[idx]);
  }

  /** hstore_exists_any and hstore_exists_all in one pass: the searches that succeed, up to `stopAt`. */
  method SearchKeys(hs: HStore, keys: seq<Bytes>, stopAt: bool, ghost ps: seq<Pair>) returns (stopped: bool)
    requires Packs(hs, ps) && Sorted(ps) && SortedKeys(keys)
    ensures stopped <==> exists k :: k in keys && ((k in MapOf(ps)) == stopAt)
  {
    hide KeyLess, Packs, Sorted, AllBelow, AllAbove, MapOf;
    var low: nat := 0;
    NoneAbove(ps, []);
    if keys != [] { NoneAbove(ps, keys[0]); }
    for i := 0 to |keys|
      invariant low <= |ps| && (i < |keys| ==> AllBelow(ps, low, keys[i]))
      invariant forall j :: 0 <= j < i ==> (keys[j] in MapOf(ps)) != stopAt
    {
      var idx, low' := FindKey(hs, low, keys[i], ps);
      if idx >= 0 { FoundIsThere(ps, idx); }
      if (idx >= 0) == stopAt {
        assert keys[i] in keys;
        return true;
      }
      if i + 1 < |keys| {
        NextSearch(ps, idx, low', keys[i], keys[i + 1]);
      }
      low := low';
    }
    return false;
  }

  /** hstore_exists_any: some key is there. */
  method ExistsAny(hs: HStore, keys: seq<Bytes>, ghost ps: seq<Pair>) returns (res: bool)
    requires Packs(hs, ps) && Sorted(ps) && SortedKeys(keys)
    ensures res <==> exists k :: k in keys && k in MapOf(ps)
  {
    hide Packs, Sorted, SortedKeys, MapOf;
    res := SearchKeys(hs, keys, true, ps);
  }

  /** hstore_exists_all: every key is there. */
  method ExistsAll(hs: HStore, keys: seq<Bytes>, ghost ps: seq<Pair>) returns (res: bool)
    requires Packs(hs, ps) && Sorted(ps) && SortedKeys(keys)
    ensures res <==> forall k :: k in keys ==> k in MapOf(ps)
  {
    hide Packs, Sorted, SortedKeys, MapOf;
    var stopped := SearchKeys(hs, keys, false, ps);
    res := !stopped;
  }

  /** hstore_contains: every pair of the template is in the value. */
  method ContainsAll(hs: HStore, tmpl: HStore, ghost ps: seq<Pair>, ghost ts: seq<Pair>) returns (res: bool)
    requires Packs(hs, ps) && Sorted(ps) && Packs(tmpl, ts) && Sorted(ts)
    ensures res <==> forall t :: t in ts ==> t.key in MapOf(ps) && MapOf(ps)[t.key] == t.val
  {
    hide KeyLess, Packs, Sorted, AllBelow, AllAbove, MapOf, KeyOf, ValOf;
    CountIs(tmpl, ts);
    CountIs(hs, ps);
    var low: nat := 0;
    if ts != [] { NoneAbove(ps, ts[0].key); }
    for i := 0 to Count(tmpl)
      invariant low <= |ps| && (i < |ts| ==> AllBelow(ps, low, ts[i].key))
      invariant forall j :: 0 <= j < i ==> ts[j].key in MapOf(ps) && MapOf(ps)[ts[j].key] == ts[j].val
    {
      ItemRead(tmpl, ts, i);
      var idx, low' := FindKey(hs, low, KeyOf(tmpl, i), ps);
      if idx >= 0 {
        FoundIsThere(ps, idx);
        ItemRead(hs, ps, idx);
      }
      if idx < 0 || ValOf(tmpl, i) != ValOf(hs, idx) {
        assert ts[i] in ts;
        return false;
      }
      if i + 1 < |ts| {
        SortedAt(ts, i, i + 1);
        NextSearch(ps, idx, low', ts[i].key, ts[i + 1].key);
      }
      low := low';
    }
    return true;
  }
}
