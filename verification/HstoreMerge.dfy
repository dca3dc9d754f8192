/** The merges of hstore_op.c, which write a new stored value item by item. */
module HstoreMerge {
  import opened CLimits
  import opened Options
  import opened ByteStrings
  import opened HstoreText
  import opened HstorePairs
  import opened HstorePacked
  import opened HstoreBuild
  import opened HstoreOps

  /** The bytes of the i-th key and value, which stand together. */
  function ItemOf(hs: HStore, i: nat): Bytes
    requires i < Count(hs)
  {
    var a, b := Off(hs.words, 2 * i), EndPos(hs.words[2 * i + 1]);
    if a <= b <= |hs.str| then hs.str[a..b] else []
  }

  lemma {:induction false} ItemOfIs(hs: HStore, ps: seq<Pair>, i: nat)
    requires Packs(hs, ps) && i < |ps|
    ensures Count(hs) == |ps| && ItemOf(hs, i) == ItemBytes(ps[i])
  {
    hide Str, Words, EndPos, IsNull, IsFirst, Packs, ItemBytes, Off;
    WordsRead(hs, ps, i);
    ItemRead(hs, ps, i);
    ItemStands(ps, i);
    StrOf(hs, ps);
  }

  /** Room for the items still to come: `left` of them in words, `size` in bytes. */
  ghost predicate Room(b: Builder, left: nat, size: nat)
    reads b
  {
    4 * b.words + 8 * left <= b.base && b.base + b.bytes + size <= b.mem.Length && b.bytes + size < POS_LIMIT
  }

  lemma {:induction false} RoomAtStart(b: Builder, left: nat, size: nat)
    requires b.Valid() && b.items == [] && b.base == 8 * left && b.mem.Length == b.base + size && size < POS_LIMIT
    ensures Room(b, left, size)
  {
    b.Start();
  }

  lemma {:induction false} RoomAtEnd(b: Builder, left: nat, size: nat)
    requires Room(b, left, size)
    ensures b.bytes < POS_LIMIT
  {
  }

  /** HS_COPYITEM of the i-th pair. */
  method CopyItem(b: Builder, hs: HStore, i: nat, ghost ps: seq<Pair>, ghost left: nat, ghost size: nat)
    requires Packs(hs, ps) && i < |ps| && b.Valid()
    requires Room(b, left + 1, |ItemBytes(ps[i])| + size)
    modifies b, b.mem
    ensures b.Valid() && b.items == old(b.items) + [ps[i]] && Room(b, left, size)
  {
    hide Packs, ItemBytes, KeyOf, ItemOf, ValOf;
    ItemOfIs(hs, ps, i);
    ItemRead(hs, ps, i);
    KeyFits(ps[i]);
    b.AddItem(ItemOf(hs, i), |KeyOf(hs, i)|, ValOf(hs, i).None?, ps[i]);
  }

  lemma {:induction false} SizeTail(ps: seq<Pair>, i: nat)
    requires i < |ps|
    ensures Size(ps[i..]) == |ItemBytes(ps[i])| + Size(ps[i + 1..])
  {
    hide ItemBytes;
    assert ps[i..][1..] == ps[i + 1..];
  }

  /** With less to come there is room still. */
  lemma {:induction false} RoomLess(b: Builder, left: nat, size: nat, left': nat, size': nat)
    requires Room(b, left, size) && left' <= left && size' <= size
    ensures Room(b, left', size')
  {
  }

  lemma {:induction false} DeleteKeyStep(done: seq<Pair>, ps: seq<Pair>, i: nat, k: Bytes)
    requires i < |ps|
    ensures done + DeleteKey(ps[i..], k) ==
            (if ps[i].key == k then done else done + [ps[i]]) + DeleteKey(ps[i + 1..], k)
  {
    assert ps[i..][1..] == ps[i + 1..];
  }

  /** hstore_delete. */
  method Delete(hs: HStore, key: Bytes, ghost ps: seq<Pair>) returns (out: HStore)
    requires Packs(hs, ps)
    ensures Packs(out, DeleteKey(ps, key))
  {
    hide Packs, KeyOf, DeleteKey, Size, ItemBytes, Room, Builder.Valid, Builder.Contains;
    CountIs(hs, ps);
    var b := new Builder(Count(hs), |hs.str|);
    RoomAtStart(b, |ps|, Size(ps));
    assert ps[0..] == ps && [] + DeleteKey(ps, key) == DeleteKey(ps, key);
    for i := 0 to Count(hs)
      invariant b.Valid() && fresh(b) && fresh(b.mem)
      invariant Room(b, |ps| - i, Size(ps[i..]))
      invariant b.items + DeleteKey(ps[i..], key) == DeleteKey(ps, key)
    {
      ItemRead(hs, ps, i);
      SizeTail(ps, i);
      DeleteKeyStep(b.items, ps, i, key);
      if KeyOf(hs, i) != key {
        CopyItem(b, hs, i, ps, |ps| - i - 1, Size(ps[i + 1..]));
      } else {
        RoomLess(b, |ps| - i, Size(ps[i..]), |ps| - i - 1, Size(ps[i + 1..]));
      }
    }
    assert b.items == DeleteKey(ps, key) by { DeleteKeyEnd(ps, key); }
    RoomAtEnd(b, 0, Size(ps[|ps|..]));
    out := b.Finalize();
  }

  lemma {:induction false} DeleteKeyEnd(ps: seq<Pair>, k: Bytes)
    ensures DeleteKey(ps[|ps|..], k) == []
  {
  }

  lemma {:induction false} DeleteKeysStep(ps: seq<Pair>, ks: seq<Bytes>, i: nat, j: nat)
    requires i < |ps| && j < |ks|
    ensures var c := KeyCompare(ps[i].key, ks[j]);
      DeleteKeys(ps[i..], ks[j..]) ==
        if c > 0 then DeleteKeys(ps[i..], ks[j + 1..])
        else if c == 0 then DeleteKeys(ps[i + 1..], ks[j + 1..])
        else [ps[i]] + DeleteKeys(ps[i + 1..], ks[j..])
  {
    hide KeyCompare;
    assert ps[i..][1..] == ps[i + 1..] && ks[j..][1..] == ks[j + 1..];
  }

  lemma {:induction false} DeleteKeysRest(ps: seq<Pair>, ks: seq<Bytes>, i: nat)
    requires i < |ps|
    ensures DeleteKeys(ps[i..], ks[|ks|..]) == [ps[i]] + DeleteKeys(ps[i + 1..], ks[|ks|..])
  {
    assert ps[i..] == [ps[i]] + ps[i + 1..];
  }

  lemma {:induction false} DeleteKeysEnd(ps: seq<Pair>, ks: seq<Bytes>)
    ensures DeleteKeys(ps[|ps|..], ks) == []
  {
  }

  /** hstore_delete_array. */
  method DeleteArray(hs: HStore, keys: seq<Bytes>, ghost ps: seq<Pair>) returns (out: HStore)
    requires Packs(hs, ps)
    ensures Packs(out, DeleteKeys(ps, keys))
  {
    hide Packs, KeyOf, DeleteKeys, Size, ItemBytes, KeyCompare, Room, Builder.Valid, Builder.Contains;
    CountIs(hs, ps);
    var b := new Builder(Count(hs), |hs.str|);
    RoomAtStart(b, |ps|, Size(ps));
    if keys == [] {
      DeleteNoKeys(ps);
      return hs;
    }
    var i: nat, j: nat := 0, 0;
    assert ps[0..] == ps && keys[0..] == keys && [] + DeleteKeys(ps, keys) == DeleteKeys(ps, keys);
    while i < Count(hs)
      invariant i <= |ps| && j <= |keys| && b.Valid() && fresh(b) && fresh(b.mem)
      invariant Room(b, |ps| - i, Size(ps[i..]))
      invariant b.items + DeleteKeys(ps[i..], keys[j..]) == DeleteKeys(ps, keys)
      decreases |ps| - i, |keys| - j
    {
      ItemRead(hs, ps, i);
      SizeTail(ps, i);
      var difference := if j >= |keys| then -1 else KeyCompare(KeyOf(hs, i), keys[j]);
      if j < |keys| {
        DeleteKeysStep(ps, keys, i, j);
      } else {
        DeleteKeysRest(ps, keys, i);
      }
      if difference > 0 {
        j := j + 1;
      } else if difference == 0 {
        RoomLess(b, |ps| - i, Size(ps[i..]), |ps| - i - 1, Size(ps[i + 1..]));
        i, j := i + 1, j + 1;
      } else {
        Regroup(b.items, ps[i], DeleteKeys(ps[i + 1..], keys[j..]));
        CopyItem(b, hs, i, ps, |ps| - i - 1, Size(ps[i + 1..]));
        i := i + 1;
      }
    }
    assert b.items == DeleteKeys(ps, keys) by { DeleteKeysEnd(ps, keys[j..]); }
    RoomAtEnd(b, 0, Size(ps[|ps|..]));
    out := b.Finalize();
  }

  lemma {:induction false} DeleteNoKeys(ps: seq<Pair>)
    ensures DeleteKeys(ps, []) == ps
  {
  }

  lemma {:induction false} Regroup(done: seq<Pair>, p: Pair, rest: seq<Pair>)
    ensures done + ([p] + rest) == done + [p] + rest
  {
  }

  lemma {:induction false} DeletePairsStep(ps: seq<Pair>, qs: seq<Pair>, i: nat, j: nat)
    requires i < |ps| && j < |qs|
    ensures var c := KeyCompare(ps[i].key, qs[j].key);
      DeletePairs(ps[i..], qs[j..]) ==
        if c > 0 then DeletePairs(ps[i..], qs[j + 1..])
        else if c == 0 then
          if ps[i].val != qs[j].val then [ps[i]] + DeletePairs(ps[i + 1..], qs[j + 1..])
          else DeletePairs(ps[i + 1..], qs[j + 1..])
        else [ps[i]] + DeletePairs(ps[i + 1..], qs[j..])
  {
    hide KeyCompare;
    assert ps[i..][1..] == ps[i + 1..] && qs[j..][1..] == qs[j + 1..];
  }

  lemma {:induction false} DeletePairsRest(ps: seq<Pair>, qs: seq<Pair>, i: nat)
    requires i < |ps|
    ensures DeletePairs(ps[i..], qs[|qs|..]) == [ps[i]] + DeletePairs(ps[i + 1..], qs[|qs|..])
  {
    assert ps[i..] == [ps[i]] + ps[i + 1..];
  }

  lemma {:induction false} DeletePairsEnd(ps: seq<Pair>, qs: seq<Pair>)
    ensures DeletePairs(ps[|ps|..], qs) == [] && DeletePairs(ps, []) == ps
  {
  }

  /** hstore_delete_hstore. */
  method DeleteHstore(hs: HStore, hs2: HStore, ghost ps: seq<Pair>, ghost qs: seq<Pair>) returns (out: HStore)
    requires Packs(hs, ps) && Packs(hs2, qs)
    ensures Packs(out, DeletePairs(ps, qs))
  {
    hide Packs, KeyOf, ValOf, DeletePairs, Size, ItemBytes, KeyCompare, Room, Builder.Valid, Builder.Contains;
    CountIs(hs, ps);
    CountIs(hs2, qs);
    var b := new Builder(Count(hs), |hs.str|);
    RoomAtStart(b, |ps|, Size(ps));
    if Count(hs2) == 0 {
      DeletePairsEnd(ps, qs);
      return hs;
    }
    var i: nat, j: nat := 0, 0;
    assert ps[0..] == ps && qs[0..] == qs && [] + DeletePairs(ps, qs) == DeletePairs(ps, qs);
    while i < Count(hs)
      invariant i <= |ps| && j <= |qs| && b.Valid() && fresh(b) && fresh(b.mem)
      invariant Room(b, |ps| - i, Size(ps[i..]))
      invariant b.items + DeletePairs(ps[i..], qs[j..]) == DeletePairs(ps, qs)
      decreases |ps| - i, |qs| - j
    {
      ItemRead(hs, ps, i);
      SizeTail(ps, i);
      var difference := -1;
      if j < Count(hs2) {
        ItemRead(hs2, qs, j);
        difference := KeyCompare(KeyOf(hs, i), KeyOf(hs2, j));
        DeletePairsStep(ps, qs, i, j);
      } else {
        DeletePairsRest(ps, qs, i);
      }
      if difference > 0 {
        j := j + 1;
      } else {
        var j' := if difference == 0 then j + 1 else j;
        if difference < 0 || ValOf(hs, i) != ValOf(hs2, j) {
          Regroup(b.items, ps[i], DeletePairs(ps[i + 1..], qs[j'..]));
          CopyItem(b, hs, i, ps, |ps| - i - 1, Size(ps[i + 1..]));
        } else {
          RoomLess(b, |ps| - i, Size(ps[i..]), |ps| - i - 1, Size(ps[i + 1..]));
        }
        i, j := i + 1, j';
      }
    }
    assert b.items == DeletePairs(ps, qs) by { DeletePairsEnd(ps, qs[j..]); }
    RoomAtEnd(b, 0, Size(ps[|ps|..]));
    out := b.Finalize();
  }

  /** One turn of the merge of hstore_concat: `c` is the outcome of the comparison. */
  lemma {:induction false} ConcatStep(ps: seq<Pair>, qs: seq<Pair>, i: nat, j: nat, c: int)
    requires i <= |ps| && j <= |qs| && (i < |ps| || j < |qs|)
    requires c == if i >= |ps| then 1 else if j >= |qs| then -1 else KeyCompare(ps[i].key, qs[j].key)
    ensures c >= 0 ==> j < |qs| && (c == 0 ==> i < |ps|)
    ensures c < 0 ==> i < |ps|
    ensures Concat(ps[i..], qs[j..]) ==
      if c < 0 then [ps[i]] + Concat(ps[i + 1..], qs[j..])
      else [qs[j]] + Concat(if c == 0 then ps[i + 1..] else ps[i..], qs[j + 1..])
  {
    hide KeyCompare;
    var a, d := ps[i..], qs[j..];
    if i >= |ps| {
      assert a == [] && d == [qs[j]] + qs[j + 1..];
    } else if j >= |qs| {
      assert d == [] && a == [ps[i]] + ps[i + 1..];
    } else {
      assert a[1..] == ps[i + 1..] && d[1..] == qs[j + 1..];
    }
  }

  lemma {:induction false} ConcatEnd(ps: seq<Pair>, qs: seq<Pair>)
    ensures Concat(ps[|ps|..], qs[|qs|..]) == []
    ensures Concat([], qs) == qs && Concat(ps, []) == ps
  {
  }

  /** hstore_concat: fails only when the memory asked for is too large. */
  method ConcatHstores(s1: HStore, s2: HStore, ghost ps: seq<Pair>, ghost qs: seq<Pair>) returns (out: Option<HStore>)
    requires Packs(s1, ps) && Packs(s2, qs)
    ensures out.Some? <==> s1.varsize + s2.varsize <= MAX_ALLOC_SIZE
    ensures out.Some? ==> Packs(out.value, Concat(ps, qs))
  {
    hide Packs, Concat;
    if s1.varsize + s2.varsize > MAX_ALLOC_SIZE {
      return None;
    }
    CountIs(s1, ps);
    CountIs(s2, qs);
    ConcatEnd(ps, qs);
    if Count(s1) == 0 {
      return Some(s2);
    }
    if Count(s2) == 0 {
      return Some(s1);
    }
    var hs := MergeInto(s1, s2, ps, qs);
    out := Some(hs);
  }

  /** The state of the merge with i and j pairs taken: there is room for the rest. */
  ghost predicate Merging(b: Builder, ps: seq<Pair>, qs: seq<Pair>, i: nat, j: nat)
    reads b, b.mem
  {
    && i <= |ps| && j <= |qs| && b.Valid()
    && Room(b, |ps| - i + |qs| - j, Size(ps[i..]) + Size(qs[j..]))
    && b.items + Concat(ps[i..], qs[j..]) == Concat(ps, qs)
  }

  method MergeInto(s1: HStore, s2: HStore, ghost ps: seq<Pair>, ghost qs: seq<Pair>) returns (out: HStore)
    requires Packs(s1, ps) && Packs(s2, qs) && s1.varsize + s2.varsize <= MAX_ALLOC_SIZE
    ensures Packs(out, Concat(ps, qs))
  {
    hide Packs, Concat, Size, Room, Builder.Valid, Builder.Contains;
    CountIs(s1, ps);
    CountIs(s2, qs);
    var b := new Builder(Count(s1) + Count(s2), |s1.str| + |s2.str|);
    RoomAtStart(b, |ps| + |qs|, Size(ps) + Size(qs));
    var i: nat, j: nat := 0, 0;
    assert ps[0..] == ps && qs[0..] == qs && [] + Concat(ps, qs) == Concat(ps, qs);
    while i < Count(s1) || j < Count(s2)
      invariant i <= |ps| && j <= |qs| && Merging(b, ps, qs, i, j) && fresh(b) && fresh(b.mem)
      decreases |ps| - i + |qs| - j
    {
      hide Merging;
      i, j := MergeTurn(b, s1, s2, i, j, ps, qs);
    }
    assert b.items == Concat(ps, qs) by { ConcatEnd(ps, qs); }
    RoomAtEnd(b, 0, Size(ps[|ps|..]) + Size(qs[|qs|..]));
    out := b.Finalize();
  }

  /** One turn of the merge loop. */
  method MergeTurn(b: Builder, s1: HStore, s2: HStore, i: nat, j: nat, ghost ps: seq<Pair>, ghost qs: seq<Pair>)
    returns (i': nat, j': nat)
    requires Packs(s1, ps) && Packs(s2, qs) && Merging(b, ps, qs, i, j) && (i < |ps| || j < |qs|)
    modifies b, b.mem
    ensures Merging(b, ps, qs, i', j') && |ps| - i' + |qs| - j' < |ps| - i + |qs| - j
  {
    hide Packs, KeyOf, Concat, KeyCompare, Merging;
    assert i <= |ps| && j <= |qs| by { MergingBounds(b, ps, qs, i, j); }
    CountIs(s1, ps);
    CountIs(s2, qs);
    if i < |ps| { ItemRead(s1, ps, i); }
    if j < |qs| { ItemRead(s2, qs, j); }
    var difference :=
      if i >= Count(s1) then 1 else if j >= Count(s2) then -1 else KeyCompare(KeyOf(s1, i), KeyOf(s2, j));
    ConcatStep(ps, qs, i, j, difference);
    if difference >= 0 {
      i', j' := if difference == 0 then i + 1 else i, j + 1;
      TakeRight(b, s2, i, j, i', ps, qs);
    } else {
      i', j' := i + 1, j;
      TakeLeft(b, s1, i, j, ps, qs);
    }
  }

  lemma {:induction false} MergingBounds(b: Builder, ps: seq<Pair>, qs: seq<Pair>, i: nat, j: nat)
    requires Merging(b, ps, qs, i, j)
    ensures i <= |ps| && j <= |qs|
  {
  }

  method TakeLeft(b: Builder, s1: HStore, i: nat, j: nat, ghost ps: seq<Pair>, ghost qs: seq<Pair>)
    requires Packs(s1, ps) && Merging(b, ps, qs, i, j) && i < |ps|
    requires Concat(ps[i..], qs[j..]) == [ps[i]] + Concat(ps[i + 1..], qs[j..])
    modifies b, b.mem
    ensures Merging(b, ps, qs, i + 1, j)
  {
    hide Packs, Concat, Size, ItemBytes, Room, Builder.Valid, Builder.Contains;
    SizeTail(ps, i);
    Regroup(b.items, ps[i], Concat(ps[i + 1..], qs[j..]));
    CopyItem(b, s1, i, ps, |ps| - (i + 1) + |qs| - j, Size(ps[i + 1..]) + Size(qs[j..]));
  }

  /** Takes the pair on the right; on equal keys the one on the left is dropped. */
  method TakeRight(b: Builder, s2: HStore, i: nat, j: nat, ghost i': nat, ghost ps: seq<Pair>, ghost qs: seq<Pair>)
    requires Packs(s2, qs) && Merging(b, ps, qs, i, j) && j < |qs| && i <= i' <= |ps| && i' <= i + 1
    requires Concat(ps[i..], qs[j..]) == [qs[j]] + Concat(ps[i'..], qs[j + 1..])
    modifies b, b.mem
    ensures Merging(b, ps, qs, i', j + 1)
  {
    hide Packs, Concat, Size, ItemBytes, Room, Builder.Valid, Builder.Contains;
    SizeTail(qs, j);
    if i < i' { SizeTail(ps, i); }
    ghost var left, size := |ps| - i' + |qs| - (j + 1), Size(ps[i'..]) + Size(qs[j + 1..]);
    RoomLess(b, |ps| - i + |qs| - j, Size(ps[i..]) + Size(qs[j..]), left + 1, |ItemBytes(qs[j])| + size);
    Regroup(b.items, qs[j], Concat(ps[i'..], qs[j + 1..]));
    CopyItem(b, s2, j, qs, left, size);
  }

  // ----- hstore_in after parsing -----

  /** hstorePairs: packs a list of pairs with HS_ADDITEM. */
  method PackPairs(pairs: seq<Pair>) returns (out: HStore)
    requires Size(pairs) < POS_LIMIT
    ensures Packs(out, pairs)
  {
    hide Packs, Size, Room, ItemBytes, Builder.Valid, Builder.Contains;
    var size := SizeOfPairs(pairs);
    var b := new Builder(|pairs|, size);
    RoomAtStart(b, |pairs|, Size(pairs));
    assert pairs[0..] == pairs;
    for i := 0 to |pairs|
      invariant b.Valid() && fresh(b) && fresh(b.mem) && b.items == pairs[..i]
      invariant Room(b, |pairs| - i, Size(pairs[i..]))
    {
      SizeTail(pairs, i);
      PackItem(b, pairs[i], |pairs| - i - 1, Size(pairs[i + 1..]));
    }
    assert pairs[..|pairs|] == pairs;
    RoomAtEnd(b, 0, Size(pairs[|pairs|..]));
    out := b.Finalize();
  }

  method PackItem(b: Builder, p: Pair, ghost left: nat, ghost size: nat)
    requires b.Valid() && Room(b, left + 1, |ItemBytes(p)| + size)
    modifies b, b.mem
    ensures b.Valid() && b.items == old(b.items) + [p] && Room(b, left, size)
  {
    KeyFits(p);
    b.AddItem(ItemBytes(p), |p.key|, p.val.None?, p);
  }

  /** The length that hstoreUniquePairs adds up. */
  method SizeOfPairs(pairs: seq<Pair>) returns (size: nat)
    ensures size == Size(pairs)
  {
    hide ItemBytes;
    size := 0;
    assert pairs[0..] == pairs;
    for i := 0 to |pairs|
      invariant size + Size(pairs[i..]) == Size(pairs)
    {
      SizeTail(pairs, i);
      size := size + |ItemBytes(pairs[i])|;
    }
  }
}
