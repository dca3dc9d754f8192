/** From parsed pairs to a stored value and back: hstoreUniquePairs and the round trip through text. */
module HstoreInput {
  import opened ByteStrings
  import opened HstoreText
  import opened HstorePairs
  import opened HstorePacked
  import opened HstoreBuild
  import HstoreOps

  /** What qsort leaves: no key is above a later one. */
  predicate WeaklySorted(ps: seq<Pair>) {
    forall i, j :: 0 <= i < j < |ps| ==> !KeyLess(ps[j].key, ps[i].key)
  }

  /** The first pair of every run of equal keys. */
  function Unique(ps: seq<Pair>): (us: seq<Pair>)
    ensures |us| <= |ps| && (ps != [] ==> us != [] && us[|us| - 1].key == ps[|ps| - 1].key)
    decreases |ps|
  {
    if |ps| <= 1 then ps
    else
      var n := |ps| - 1;
      var us := Unique(ps[..n]);
      if ps[n].key == us[|us| - 1].key then us else us + [ps[n]]
  }

  lemma {:induction false} SortedMore(ps: seq<Pair>, p: Pair)
    requires Sorted(ps) && (ps != [] ==> KeyLess(ps[|ps| - 1].key, p.key))
    ensures Sorted(ps + [p])
    decreases |ps|
  {
    hide KeyLess;
    if ps == [] {
      assert ps + [p] == [p];
    } else {
      var tail := ps[1..];
      SortedMore(tail, p);
      assert (ps + [p])[1..] == tail + [p];
      assert KeyLess(ps[0].key, p.key) by {
        if tail != [] {
          assert tail[|tail| - 1] in tail;
          KeyLessTransitive(ps[0].key, tail[|tail| - 1].key, p.key);
        }
      }
    }
  }

  lemma {:induction false} UniqueStep(ps: seq<Pair>, n: nat)
    requires 0 < n < |ps|
    ensures var us := Unique(ps[..n]);
      Unique(ps[..n + 1]) == if ps[n].key == us[|us| - 1].key then us else us + [ps[n]]
  {
    assert ps[..n + 1][..n] == ps[..n];
  }

  lemma {:induction false} UniqueOfOne(ps: seq<Pair>)
    requires ps != []
    ensures Unique(ps[..1]) == [ps[0]]
  {
    assert ps[..1] == [ps[0]];
  }

  /** Out of sorted pairs hstoreUniquePairs keeps strictly increasing keys. */
  lemma {:induction false} UniqueIsSorted(ps: seq<Pair>, n: nat)
    requires WeaklySorted(ps) && 0 < n <= |ps|
    ensures Sorted(Unique(ps[..n]))
    decreases n
  {
    hide KeyLess, Unique;
    if n == 1 {
      UniqueOfOne(ps);
      assert [ps[0]][1..] == [];
    } else {
      UniqueIsSorted(ps, n - 1);
      UniqueStep(ps, n - 1);
      var us := Unique(ps[..n - 1]);
      assert us[|us| - 1].key == ps[n - 2].key;
      if ps[n - 1].key != us[|us| - 1].key {
        NotAboveIsLess(ps[n - 2].key, ps[n - 1].key);
        SortedMore(us, ps[n - 1]);
      }
    }
  }

  /** Every pair kept was there, and every key that was there is kept. */
  lemma {:induction false} UniqueKeepsKeys(ps: seq<Pair>, n: nat)
    requires 0 < n <= |ps|
    ensures forall u :: u in Unique(ps[..n]) ==> u in ps
    ensures forall i :: 0 <= i < n ==> HasKey(Unique(ps[..n]), ps[i].key)
    decreases n
  {
    hide Unique;
    if n == 1 {
      UniqueOfOne(ps);
    } else {
      UniqueKeepsKeys(ps, n - 1);
      UniqueStep(ps, n - 1);
      var us, all := Unique(ps[..n - 1]), Unique(ps[..n]);
      assert all[|all| - 1] in all && all[|all| - 1].key == ps[n - 1].key;
      forall i | 0 <= i < n - 1 ensures HasKey(all, ps[i].key) {
        KeyStays(us, all, ps[i].key);
      }
    }
  }

  /** The first pair of a run of equal keys. */
  predicate StartsRun(ps: seq<Pair>, i: nat)
    requires i < |ps|
  {
    i == 0 || ps[i - 1].key != ps[i].key
  }

  /** Exactly the first pair of each run is kept. */
  lemma {:induction false} UniqueKeepsFirst(ps: seq<Pair>, n: nat, u: Pair)
    requires 0 < n <= |ps|
    ensures u in Unique(ps[..n]) <==> exists i :: 0 <= i < n && StartsRun(ps, i) && ps[i] == u
    decreases n
  {
    hide Unique;
    if n == 1 {
      UniqueOfOne(ps);
      assert StartsRun(ps, 0);
    } else {
      UniqueKeepsFirst(ps, n - 1, u);
      UniqueStep(ps, n - 1);
      assert StartsRun(ps, n - 1) <==> ps[n - 2].key != ps[n - 1].key;
    }
  }

  lemma {:induction false} KeyStays(us: seq<Pair>, all: seq<Pair>, k: Bytes)
    requires HasKey(us, k) && forall u :: u in us ==> u in all
    ensures HasKey(all, k)
  {
    var u :| u in us && u.key == k;
    assert u in all;
  }

  ghost predicate HasKey(ps: seq<Pair>, k: Bytes) { exists u :: u in ps && u.key == k }

  lemma {:induction false} NotAboveIsLess(a: Bytes, b: Bytes)
    requires a != b && !KeyLess(b, a)
    ensures KeyLess(a, b)
  {
    KeyOrder(a, b);
    KeyOrder(b, a);
  }

  /** hstoreUniquePairs after its qsort: moves the kept pairs to the front and adds up their bytes. */
  method UniquePairs(a: array<Pair>) returns (n: nat, size: nat)
    modifies a
    ensures n <= a.Length && a[..n] == Unique(old(a[..])) && size == Size(a[..n])
  {
    hide ItemBytes, Size, Unique;
    ghost var was := a[..];
    SizeOfNone();
    if a.Length == 0 {
      return 0, 0;
    }
    UniqueOfOne(was);
    var ptr, res := 1, 0;
    size := 0;
    assert a[..1] == [was[0]] && a[..0] == [];
    while ptr < a.Length
      invariant 0 <= res < ptr <= a.Length
      invariant a[..res + 1] == Unique(was[..ptr]) && size == Size(a[..res])
      invariant forall k :: ptr <= k < a.Length ==> a[k] == was[k]
    {
      UniqueStep(was, ptr);
      ghost var kept := a[..res + 1];
      assert kept[res] == a[res];
      if a[ptr].key != a[res].key {
        size := AddSize(a, res, size);
        res := res + 1;
        KeepNext(a, res, ptr);
        assert a[..res] == kept && a[..res + 1] == kept + [was[ptr]];
      }
      ptr := ptr + 1;
    }
    size := AddSize(a, res, size);
    n := res + 1;
    assert was[..ptr] == was;
  }

  method KeepNext(a: array<Pair>, res: nat, ptr: nat)
    requires res <= ptr < a.Length
    modifies a
    ensures a[..res + 1] == old(a[..res]) + [old(a[ptr])]
    ensures forall k :: ptr < k < a.Length ==> a[k] == old(a[k])
  {
    a[res] := a[ptr];
  }

  method AddSize(a: array<Pair>, res: nat, size: nat) returns (total: nat)
    requires res < a.Length && size == Size(a[..res])
    ensures total == Size(a[..res + 1])
  {
    hide ItemBytes, Size;
    SizeMore(a[..res], a[res]);
    assert a[..res] + [a[res]] == a[..res + 1];
    total := size + |ItemBytes(a[res])|;
  }

  lemma {:induction false} SizeOfNone()
    ensures Size([]) == 0
  {
  }

  // ----- sorting what is sorted -----

  lemma {:induction false} UniqueOfSorted(ps: seq<Pair>, n: nat)
    requires Sorted(ps) && 0 < n <= |ps|
    ensures Unique(ps[..n]) == ps[..n]
    decreases n
  {
    hide KeyLess, Sorted, Unique;
    UniqueOfOne(ps);
    if n > 1 {
      UniqueOfSorted(ps, n - 1);
      UniqueStep(ps, n - 1);
      HstoreOps.SortedAt(ps, n - 2, n - 1);
      IsLess(ps[n - 2].key, ps[n - 1].key);
    }
  }

  /** Any sorted arrangement of strictly increasing pairs is that arrangement itself. */
  lemma {:induction false} SortingIsUnique(ps: seq<Pair>, qs: seq<Pair>)
    requires Sorted(ps) && WeaklySorted(qs) && multiset(ps) == multiset(qs)
    ensures ps == qs
    decreases |ps|
  {
    hide Sorted, WeaklySorted;
    assert |ps| == |multiset(ps)| == |multiset(qs)| == |qs|;
    if ps != [] {
      assert ps[0] in multiset(qs) && qs[0] in multiset(ps);
      LeastIsFirst(ps, qs);
      CountsOfTail(ps);
      CountsOfTail(qs);
      SortedTails(ps, qs);
      SortingIsUnique(ps[1..], qs[1..]);
      assert ps == [ps[0]] + ps[1..] && qs == [qs[0]] + qs[1..];
    }
  }

  lemma {:induction false} CountsOfTail(ps: seq<Pair>)
    requires ps != []
    ensures multiset(ps[1..]) == multiset(ps) - multiset{ps[0]}
  {
    assert ps == [ps[0]] + ps[1..];
  }

  lemma {:induction false} SortedTails(ps: seq<Pair>, qs: seq<Pair>)
    requires Sorted(ps) && WeaklySorted(qs) && ps != [] && qs != []
    ensures Sorted(ps[1..]) && WeaklySorted(qs[1..])
  {
    hide KeyLess;
  }

  lemma {:induction false} LeastIsFirst(ps: seq<Pair>, qs: seq<Pair>)
    requires Sorted(ps) && WeaklySorted(qs) && ps != [] && qs != [] && ps[0] in qs && qs[0] in ps
    ensures ps[0] == qs[0]
  {
    hide Sorted;
    FirstIsLeast(ps, qs[0]);
    var j :| 0 <= j < |qs| && qs[j] == ps[0];
    KeyOrder(ps[0].key, qs[0].key);
  }

  lemma {:induction false} FirstIsLeast(ps: seq<Pair>, q: Pair)
    requires Sorted(ps) && q in ps
    ensures q == ps[0] || KeyLess(ps[0].key, q.key)
  {
    hide KeyLess;
  }

  lemma {:induction false} UniqueOfNone()
    ensures Unique([]) == []
  {
  }

  /** Writing a stored value as text and reading it in again gives the same stored value. */
  lemma {:induction false} OutputIsReadBack(hs: HStore, ps: seq<Pair>, sorted: seq<Pair>, hs': HStore)
    requires Packs(hs, ps) && Sorted(ps) && AllWritable(ps)
    requires ParseHstore(Text(ps)).Ok?
    requires multiset(sorted) == multiset(ParseHstore(Text(ps)).value) && WeaklySorted(sorted)
    requires Packs(hs', Unique(sorted))
    ensures ParseHstore(Text(Decode(hs, Count(hs)))) == Ok(ps) && hs' == hs
  {
    hide ParseHstore, Text, Sorted, WeaklySorted, Unique, AllWritable, Decode;
    DecodePacked(hs, ps);
    ReadBack(ps);
    SortingIsUnique(ps, sorted);
    if ps == [] {
      UniqueOfNone();
    } else {
      UniqueOfSorted(ps, |ps|);
      assert ps[..|ps|] == ps;
    }
  }
}
