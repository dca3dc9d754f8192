/** What bt_index_parent_check has established about an index when it ends without an error. */
module BtreeVerdict {
  import opened Options
  import opened BtreeCheck
  import opened BtreeLockstep
  import IntRanges

  // ----- parent and child levels -----

  /** The child level lists the downlinks of the parent level in order; blocks in between are excused. */
  ghost predicate Mirrors(index: Index, parent: seq<nat>, child: seq<nat>) {
    exists owner :: MirrorsBy(index, parent, child, owner)
  }

  ghost predicate MirrorsBy(index: Index, parent: seq<nat>, child: seq<nat>, owner: seq<nat>) {
    && LockStep(index, LevelDowns(index, parent), child, owner)
    && child != [] && owner[|child| - 1] + 1 == |LevelDowns(index, parent)|
  }

  /** The walk of the child level that the parent level makes is the chain that the child level makes itself. */
  lemma {:induction false} WalkIsChain(index: Index, downs: seq<Down>, walk: seq<nat>, owner: seq<nat>, level: nat,
                                       chain: seq<nat>)
    requires Finished(index, downs, walk, owner) && walk != []
    requires ChainOk(index, level, P_NONE, chain) && chain[0] == walk[0]
    ensures walk == chain
  {
    hide ChainOk, Excused, HighIs, Visited;
    assert chain != [] by { NextOfChain(index, level, chain, 0); }
    var n := 1;
    while n < |walk| && n < |chain|
      invariant n <= |walk| && n <= |chain| && walk[..n] == chain[..n]
      decreases |walk| - n
    {
      NextOfChain(index, level, chain, n - 1);
      assert StepOk(index, downs, walk, owner, n);
      assert walk[n] == chain[n];
      n := n + 1;
    }
    NextOfChain(index, level, chain, n - 1);
    assert n < |walk| ==> StepOk(index, downs, walk, owner, n);
    assert walk[n - 1] == chain[n - 1];
  }

  lemma {:induction false} NextOfChain(index: Index, level: nat, chain: seq<nat>, i: nat)
    requires ChainOk(index, level, P_NONE, chain) && (i == 0 || i < |chain|)
    ensures i < |chain| && chain[i] in index && index[chain[i]].next != INVALID_BLOCK
    ensures index[chain[i]].next == if i + 1 < |chain| then chain[i + 1] else P_NONE
    ensures index[chain[i]].next == P_NONE ==> i + 1 == |chain|
  {
    hide PageSound;
    ChainAt(index, level, P_NONE, chain, i);
    if i + 1 < |chain| {
      ChainAt(index, level, P_NONE, chain, i + 1);
    }
  }

  lemma {:induction false} FirstDown(index: Index, chain: seq<nat>)
    requires chain != [] && chain[0] in index && index[chain[0]].items != []
    ensures LevelDowns(index, chain) != [] && LevelDowns(index, chain)[0].link == index[chain[0]].items[0].link
  {
    DownInPage(index[chain[0]], 0, |index[chain[0]].items|);
  }

  /** The first page of an internal level is live, so it says where the level below starts. */
  lemma {:induction false} FirstPage(index: Index, level: nat, chain: seq<nat>)
    requires level > 0 && ChainOk(index, level, P_NONE, chain) && NoneIgnored(index, chain)
    ensures chain != [] && chain[0] in index && !Ignored(index[chain[0]])
    ensures !index[chain[0]].leaf && index[chain[0]].items != []
  {
    hide PageSound;
    assert chain[0] in chain;
  }

  lemma {:induction false} FirstOfWalk(index: Index, downs: seq<Down>, walk: seq<nat>, owner: seq<nat>)
    requires Finished(index, downs, walk, owner) && downs != []
    ensures walk != [] && walk[0] == downs[0].link
  {
    assert StepOk(index, downs, walk, owner, 0);
  }

  lemma {:induction false} NothingWalked(index: Index)
    ensures Abreast(index, [], [], []) && Remembers(index, [], START) && Boundary(START.lowKey, [])
  {
  }

  /** Two levels that pass mirror each other. */
  lemma {:induction false} LevelMirrored(index: Index, level: nat, isRoot: bool, b: nat, fuel: nat, steps: nat,
                                         child: seq<nat>)
    requires level > 0 && CheckLevel(index, level, isRoot, P_NONE, b, None, START, fuel, steps).Ok?
    requires var l := CheckLevel(index, level, isRoot, P_NONE, b, None, START, fuel, steps).value;
      && NoneIgnored(index, l.chain) && FirstLinksReal(index, l.chain)
      && ChainOk(index, level - 1, P_NONE, child) && child[0] == l.down
    ensures Mirrors(index, CheckLevel(index, level, isRoot, P_NONE, b, None, START, fuel, steps).value.chain, child)
  {
    hide CheckLevel, ChainOk, LockStep, LevelDowns, NoneIgnored, FirstLinksReal, Remembers, Boundary;
    var l := CheckLevel(index, level, isRoot, P_NONE, b, None, START, fuel, steps).value;
    LevelIsChain(index, level, isRoot, P_NONE, b, None, START, fuel, steps);
    FirstPage(index, level, l.chain);
    FirstDown(index, l.chain);
    var downs := LevelDowns(index, l.chain);
    NothingWalked(index);
    var walk, owner := LevelReaches(index, level, isRoot, P_NONE, b, None, START, fuel, steps, [], [], []);
    assert [] + downs == downs;
    FirstOfWalk(index, downs, walk, owner);
    WalkIsChain(index, downs, walk, owner, level - 1, child);
    assert MirrorsBy(index, l.chain, child, owner);
  }

  /** All pages are live and every negative infinity item leads to a block. */
  ghost predicate Clean(index: Index, levels: seq<seq<nat>>) {
    forall j :: 0 <= j < |levels| ==> NoneIgnored(index, levels[j]) && FirstLinksReal(index, levels[j])
  }

  /** The levels from `top` down to the leaves, each a chain of right links that mirrors the one above. */
  ghost predicate WellFormed(index: Index, levels: seq<seq<nat>>, top: nat) {
    && |levels| == top + 1
    && (forall j :: 0 <= j < |levels| ==> ChainOk(index, top - j, P_NONE, levels[j]))
    && (forall j :: 0 < j < |levels| ==> Mirrors(index, levels[j - 1], levels[j]))
  }

  lemma {:induction false} WellFormedCons(index: Index, chain: seq<nat>, rest: seq<seq<nat>>, top: nat)
    requires top > 0 && ChainOk(index, top, P_NONE, chain)
    requires WellFormed(index, rest, top - 1) && Mirrors(index, chain, rest[0])
    ensures WellFormed(index, [chain] + rest, top)
  {
    hide ChainOk, Mirrors;
    var all := [chain] + rest;
    forall j | 0 <= j < |all| ensures ChainOk(index, top - j, P_NONE, all[j]) {
      if j > 0 {
        assert ChainOk(index, top - 1 - (j - 1), P_NONE, rest[j - 1]);
      }
    }
    forall j | 0 < j < |all| ensures Mirrors(index, all[j - 1], all[j]) {
      if j > 1 {
        assert Mirrors(index, rest[j - 1 - 1], rest[j - 1]);
      }
    }
  }

  lemma {:induction false} CleanCons(index: Index, chain: seq<nat>, rest: seq<seq<nat>>)
    requires Clean(index, [chain] + rest)
    ensures NoneIgnored(index, chain) && FirstLinksReal(index, chain) && Clean(index, rest)
  {
    hide NoneIgnored, FirstLinksReal;
    var all := [chain] + rest;
    assert all[0] == chain;
    forall j | 0 <= j < |rest| ensures NoneIgnored(index, rest[j]) && FirstLinksReal(index, rest[j]) {
      assert all[j + 1] == rest[j];
    }
  }

  /** An accepted index of live pages is well formed, from the root level down to the leaves. */
  lemma {:induction false} AcceptedIsWellFormed(index: Index, leftmost: nat, level: nat, isRoot: bool, fuel: nat,
                                                steps: nat)
    requires leftmost != P_NONE && CheckTree(index, leftmost, level, isRoot, fuel, steps).Ok?
    requires Clean(index, CheckTree(index, leftmost, level, isRoot, fuel, steps).value)
    ensures WellFormed(index, CheckTree(index, leftmost, level, isRoot, fuel, steps).value, level)
    ensures CheckTree(index, leftmost, level, isRoot, fuel, steps).value[0][0] == leftmost
    decreases level
  {
    hide CheckLevel, ChainOk, Mirrors, NoneIgnored, FirstLinksReal, Clean, WellFormed;
    var l := CheckLevel(index, level, isRoot, P_NONE, leftmost, None, START, fuel, steps).value;
    LevelIsChain(index, level, isRoot, P_NONE, leftmost, None, START, fuel, steps);
    if level == 0 {
      SingleLevel(index, l.chain);
    } else {
      var all := CheckTree(index, leftmost, level, isRoot, fuel, steps).value;
      assert all == [l.chain] + all[1..];
      CleanCons(index, l.chain, all[1..]);
      FirstPage(index, level, l.chain);
      assert l.down != P_NONE by { FirstIsReal(index, l.chain); }
      AcceptedIsWellFormed(index, l.down, level - 1, false, fuel, steps);
      FirstChain(index, all[1..], level - 1);
      LevelMirrored(index, level, isRoot, leftmost, fuel, steps, all[1]);
      WellFormedCons(index, l.chain, all[1..], level);
    }
  }

  lemma {:induction false} SingleLevel(index: Index, chain: seq<nat>)
    requires ChainOk(index, 0, P_NONE, chain)
    ensures WellFormed(index, [chain], 0)
  {
    hide ChainOk;
  }

  lemma {:induction false} FirstChain(index: Index, levels: seq<seq<nat>>, top: nat)
    requires WellFormed(index, levels, top)
    ensures levels != [] && ChainOk(index, top, P_NONE, levels[0])
  {
    hide ChainOk;
    assert ChainOk(index, top - 0, P_NONE, levels[0]);
  }

  lemma {:induction false} FirstIsReal(index: Index, chain: seq<nat>)
    requires FirstLinksReal(index, chain) && chain != [] && chain[0] in index
    ensures FirstLinkReal(index[chain[0]])
  {
    assert chain[0] in chain;
  }

  /** If the levels are well formed, every negative infinity item leads to a block. */
  lemma {:induction false} WellFormedIsReal(index: Index, levels: seq<seq<nat>>, top: nat)
    requires WellFormed(index, levels, top) && (forall j :: 0 <= j < |levels| ==> NoneIgnored(index, levels[j]))
    ensures Clean(index, levels)
  {
    hide ChainOk, Mirrors, NoneIgnored, FirstLinksReal;
    forall j | 0 <= j < |levels| ensures FirstLinksReal(index, levels[j]) {
      assert ChainOk(index, top - j, P_NONE, levels[j]);
      if j + 1 < |levels| {
        assert Mirrors(index, levels[j + 1 - 1], levels[j + 1]);
        MirroredIsReal(index, levels[j], levels[j + 1]);
      } else {
        LeavesHaveNoLinks(index, levels[j]);
      }
    }
  }

  lemma {:induction false} LeavesHaveNoLinks(index: Index, chain: seq<nat>)
    requires ChainOk(index, 0, P_NONE, chain) && NoneIgnored(index, chain)
    ensures FirstLinksReal(index, chain)
  {
    hide PageSound, ChainOk;
    forall b | b in chain && b in index ensures FirstLinkReal(index[b]) {
      var i :| 0 <= i < |chain| && chain[i] == b;
      ChainAt(index, 0, P_NONE, chain, i);
    }
  }

  /** Every downlink of a mirrored level is the number of a block on the level below. */
  lemma {:induction false} EveryDownlinkIsAChild(index: Index, parent: seq<nat>, child: seq<nat>, owner: seq<nat>,
                                                 k: nat)
    requires MirrorsBy(index, parent, child, owner) && k < |LevelDowns(index, parent)|
    ensures exists i :: 0 <= i < |child| && owner[i] == k && child[i] == LevelDowns(index, parent)[k].link
  {
    hide Excused, HighIs, LinkedTo;
    var downs := LevelDowns(index, parent);
    var i := |child| - 1;
    assert StepOk(index, downs, child, owner, i);
    while owner[i] > k || (i > 0 && owner[i - 1] == k)
      invariant 0 <= i < |child| && owner[i] >= k
      decreases i
    {
      assert StepOk(index, downs, child, owner, i);
      i := i - 1;
    }
    assert StepOk(index, downs, child, owner, i);
    assert i > 0 ==> StepOk(index, downs, child, owner, i - 1);
  }

  lemma {:induction false} MirroredIsReal(index: Index, parent: seq<nat>, child: seq<nat>)
    requires Mirrors(index, parent, child)
    ensures FirstLinksReal(index, parent)
  {
    var owner :| MirrorsBy(index, parent, child, owner);
    forall b | b in parent && b in index && !index[b].leaf && index[b].items != []
      ensures index[b].items[0].link != P_NONE
    {
      var k := DownPosition(index, parent, b, 0);
      EveryDownlinkIsAChild(index, parent, child, owner, k);
      var i :| 0 <= i < |child| && owner[i] == k && child[i] == LevelDowns(index, parent)[k].link;
      assert StepOk(index, LevelDowns(index, parent), child, owner, i);
    }
  }

  /** Where the i-th downlink of a page stands among the downlinks of its level. */
  lemma {:induction false} DownPosition(index: Index, chain: seq<nat>, b: nat, i: nat) returns (k: nat)
    requires b in chain && b in index && i < |index[b].items|
    ensures k < |LevelDowns(index, chain)| && LevelDowns(index, chain)[k] == DownAt(index[b], i)
    decreases |chain|
  {
    hide DownAt;
    if chain[0] == b {
      k := i;
      DownInPage(index[b], i, |index[b].items|);
    } else {
      k := DownPosition(index, chain[1..], b, i);
      k := k + if chain[0] in index then |index[chain[0]].items| else 0;
    }
  }

  lemma {:induction false} DownInPage(p: Page, i: nat, n: nat)
    requires i < n <= |p.items|
    ensures DownsTo(p, n)[i] == DownAt(p, i)
  {
    hide DownAt;
    if i + 1 < n {
      DownInPage(p, i, n - 1);
    }
  }

  /** For accepted live pages: well formed exactly when no negative infinity item leads to the metapage. */
  lemma {:induction false} WellFormedIff(index: Index, leftmost: nat, level: nat, isRoot: bool, fuel: nat, steps: nat)
    requires leftmost != P_NONE && CheckTree(index, leftmost, level, isRoot, fuel, steps).Ok?
    requires forall chain :: chain in CheckTree(index, leftmost, level, isRoot, fuel, steps).value ==>
               NoneIgnored(index, chain)
    ensures var levels := CheckTree(index, leftmost, level, isRoot, fuel, steps).value;
      WellFormed(index, levels, level) <==> forall chain :: chain in levels ==> FirstLinksReal(index, chain)
  {
    hide CheckTree, NoneIgnored, FirstLinksReal, WellFormed;
    var levels := CheckTree(index, leftmost, level, isRoot, fuel, steps).value;
    if forall chain :: chain in levels ==> FirstLinksReal(index, chain) {
      AcceptedIsWellFormed(index, leftmost, level, isRoot, fuel, steps);
    }
    if WellFormed(index, levels, level) {
      WellFormedIsReal(index, levels, level);
    }
  }

  /** A root whose one downlink is zero is accepted, and nothing below it is looked at. */
  lemma {:induction false} ZeroDownlinkIsAccepted(fuel: nat, steps: nat)
    requires steps > 0
    ensures var root := Page(P_NONE, P_NONE, 1, false, true, false, false, false, None, 0, [Item(0, P_NONE)]);
      var index: Index := map[1 := root];
      CheckTree(index, 1, 1, true, fuel, steps) == Ok([[1]]) && !WellFormed(index, [[1]], 1)
  {
    var root := Page(P_NONE, P_NONE, 1, false, true, false, false, false, None, 0, [Item(0, P_NONE)]);
    var index: Index := map[1 := root];
    assert CheckItems(index, root, 1, START, fuel) == Ok(START);
    assert CheckItems(index, root, 0, START, fuel) == Ok(START);
    assert CheckPage(index, 1, true, P_NONE, 1, true, START, fuel) == Ok(START);
    assert CheckLevel(index, 1, true, P_NONE, 1, None, START, fuel, steps) == Ok(Level([1], P_NONE));
  }

  // ----- the walk of one level -----

  /** No block is visited twice: agreement of the sibling links makes every visit the first. */
  lemma {:induction false} NoBlockTwice(index: Index, level: nat, chain: seq<nat>, i: nat, j: nat)
    requires ChainOk(index, level, P_NONE, chain) && NoneIgnored(index, chain) && i < j < |chain|
    ensures chain[i] != chain[j]
    decreases i
  {
    hide ChainOk, PageSound, Ignored;
    ChainAt(index, level, P_NONE, chain, i);
    ChainAt(index, level, P_NONE, chain, j);
    ChainAt(index, level, P_NONE, chain, j - 1);
    if i > 0 {
      NoBlockTwice(index, level, chain, i - 1, j - 1);
    }
  }

  // ----- the keys of the leaf level -----

  function Keys(p: Page, n: nat): (ks: seq<int>)
    requires n <= |p.items|
    ensures |ks| == n && forall i :: 0 <= i < n ==> ks[i] == p.items[i].key
  {
    if n == 0 then [] else Keys(p, n - 1) + [p.items[n - 1].key]
  }

  function LeafKeys(index: Index, chain: seq<nat>): seq<int> {
    if chain == [] then []
    else
      (if chain[0] in index then Keys(index[chain[0]], |index[chain[0]].items|) else []) + LeafKeys(index, chain[1..])
  }

  lemma {:induction false} SoundLeafIsIncreasing(index: Index, p: Page, n: nat)
    requires p.leaf && PageSound(index, p) && n <= |p.items|
    ensures IntRanges.Increasing(Keys(p, n))
  {
    hide ChildOk, BelowNext;
    if n > 0 {
      SoundLeafIsIncreasing(index, p, n - 1);
      assert n > 1 ==> ItemOk(p, n - 2);
    }
  }

  /** Across every run of empty leaves the last key before it is below the first key after it; `last` is the last
      key met, and `skipped` says that an empty leaf has come since. */
  predicate AcrossEmpty(index: Index, chain: seq<nat>, last: Option<int>, skipped: bool)
    decreases |chain|
  {
    chain == [] || chain[0] !in index ||
    var items := index[chain[0]].items;
    if items == [] then AcrossEmpty(index, chain[1..], last, true)
    else
      && (skipped && last.Some? ==> last.value < items[0].key)
      && AcrossEmpty(index, chain[1..], Some(items[|items| - 1].key), false)
  }

  function Lead(last: Option<int>): seq<int> { if last.Some? then [last.value] else [] }

  lemma {:induction false} ConcatIncreasing(a: seq<int>, b: seq<int>)
    ensures IntRanges.Increasing(a + b) <==>
            IntRanges.Increasing(a) && IntRanges.Increasing(b) && (a != [] && b != [] ==> a[|a| - 1] < b[0])
  {
    var all := a + b;
    if IntRanges.Increasing(all) {
      assert forall i :: 0 <= i < |a| ==> a[i] == all[i];
      assert forall i :: 0 <= i < |b| ==> b[i] == all[|a| + i];
    }
  }

  lemma {:induction false} JoinIncreasing(last: Option<int>, ks: seq<int>, rest: seq<int>)
    requires IntRanges.Increasing(ks) && ks != []
    ensures IntRanges.Increasing(Lead(last) + (ks + rest)) <==>
            (last.Some? ==> last.value < ks[0]) && IntRanges.Increasing([ks[|ks| - 1]] + rest)
  {
    hide IntRanges.Increasing;
    ConcatIncreasing(Lead(last), ks + rest);
    ConcatIncreasing(ks, rest);
    ConcatIncreasing([ks[|ks| - 1]], rest);
    Alone(last);
    Alone(Some(ks[|ks| - 1]));
    assert Lead(last) + [] == Lead(last) && [ks[|ks| - 1]] + [] == [ks[|ks| - 1]];
  }

  /** How keys and runs go on from one leaf to the next. */
  lemma {:induction false} LeafStep(index: Index, chain: seq<nat>, last: Option<int>, skipped: bool)
    requires chain != [] && chain[0] in index
    ensures var items := index[chain[0]].items;
      && LeafKeys(index, chain) == Keys(index[chain[0]], |items|) + LeafKeys(index, chain[1..])
      && (AcrossEmpty(index, chain, last, skipped) <==>
            if items == [] then AcrossEmpty(index, chain[1..], last, true)
            else (skipped && last.Some? ==> last.value < items[0].key) &&
                 AcrossEmpty(index, chain[1..], Some(items[|items| - 1].key), false))
      && LeafKeys(index, []) == [] && AcrossEmpty(index, [], last, skipped)
  {
  }

  lemma {:induction false} LeafOrderFrom(index: Index, left: nat, chain: seq<nat>, last: Option<int>, skipped: bool)
    requires ChainOk(index, 0, left, chain) && NoneIgnored(index, chain)
    requires !skipped && last.Some? && index[chain[0]].items != [] ==> last.value < index[chain[0]].items[0].key
    ensures IntRanges.Increasing(Lead(last) + LeafKeys(index, chain)) <==> AcrossEmpty(index, chain, last, skipped)
    decreases |chain|
  {
    hide PageSound, IntRanges.Increasing, LeafKeys, AcrossEmpty;
    assert chain[0] in chain;
    var p, rest := index[chain[0]], chain[1..];
    var n := |p.items|;
    var last' := if p.items == [] then last else Some(p.items[n - 1].key);
    LeafStep(index, chain, last, skipped);
    LeafStep(index, chain, last', p.items == []);
    if |chain| > 1 {
      forall b | b in rest ensures b in chain {}
      if p.items != [] { LastIsBelow(index, p); }
      LeafOrderFrom(index, chain[0], rest, last', p.items == []);
    } else {
      Alone(last');
      assert rest == [];
    }
    if p.items != [] {
      SoundLeafIsIncreasing(index, p, n);
      JoinIncreasing(last, Keys(p, n), LeafKeys(index, rest));
    } else {
      assert Keys(p, n) + LeafKeys(index, rest) == LeafKeys(index, rest);
    }
  }

  lemma {:induction false} Alone(last: Option<int>)
    ensures IntRanges.Increasing(Lead(last) + [])
  {
  }

  /** The keys of an accepted leaf level of live pages strictly increase if and only if they do across its runs of
      empty leaves. */
  lemma {:induction false} LeafOrderIff(index: Index, left: nat, chain: seq<nat>)
    requires ChainOk(index, 0, left, chain) && NoneIgnored(index, chain)
    ensures IntRanges.Increasing(LeafKeys(index, chain)) <==> AcrossEmpty(index, chain, None, false)
  {
    LeafOrderFrom(index, left, chain, None, false);
    assert Lead(None) + LeafKeys(index, chain) == LeafKeys(index, chain);
  }

  ghost predicate NoneEmpty(index: Index, chain: seq<nat>) {
    forall b :: b in chain && b in index ==> index[b].items != []
  }

  lemma {:induction false} NothingToCross(index: Index, chain: seq<nat>, last: Option<int>)
    requires NoneEmpty(index, chain)
    ensures AcrossEmpty(index, chain, last, false)
    decreases |chain|
  {
    if chain != [] && chain[0] in index {
      forall b | b in chain[1..] ensures b in chain {}
      var items := index[chain[0]].items;
      NothingToCross(index, chain[1..], Some(items[|items| - 1].key));
    }
  }

  /** Without empty leaves the keys of all leaves, read left to right, are strictly increasing. */
  lemma {:induction false} LeafKeysIncrease(index: Index, left: nat, chain: seq<nat>)
    requires ChainOk(index, 0, left, chain) && NoneIgnored(index, chain) && NoneEmpty(index, chain)
    ensures IntRanges.Increasing(LeafKeys(index, chain))
  {
    NothingToCross(index, chain, None);
    LeafOrderIff(index, left, chain);
  }

  lemma {:induction false} LastIsBelow(index: Index, p: Page)
    requires p.leaf && PageSound(index, p) && p.items != [] && !Rightmost(p)
    ensures BelowNext(index, p.items[|p.items| - 1].key, p.next)
  {
    hide BelowNext, ItemOk, ChildOk;
  }

  function Leaf(prev: nat, next: nat, root: bool, high: Option<int>, items: seq<Item>): Page {
    Page(prev, next, 0, true, root, false, false, false, high, 0, items)
  }

  /** Leaves that hold 5, nothing and 3. */
  function Disordered(): Index {
    map[1 := Leaf(P_NONE, 2, true, Some(5), [Item(5, 0)]), 2 := Leaf(1, 3, false, Some(7), []),
        3 := Leaf(2, P_NONE, false, None, [Item(3, 0)])]
  }

  /** An empty leaf hides disorder from the whole check. */
  lemma {:induction false} EmptyLeafHidesDisorder(fuel: nat, steps: nat)
    requires fuel > 0 && steps > 2
    ensures CheckTree(Disordered(), 1, 0, true, fuel, steps) == Ok([[1, 2, 3]])
    ensures !IntRanges.Increasing(LeafKeys(Disordered(), [1, 2, 3]))
  {
    var index := Disordered();
    var st1, st2 := START.(lowKey := Some(5)), START.(lowKey := Some(7));
    assert RightKey(index, 2, fuel) == Ok(None);
    assert CheckItems(index, index[1], 1, START, fuel) == Ok(START);
    assert CheckPage(index, 0, true, P_NONE, 1, true, START, fuel) == Ok(st1);
    assert CheckPage(index, 0, true, 1, 2, false, st1, fuel) == Ok(st2);
    assert CheckItems(index, index[3], 1, st2, fuel) == Ok(st2);
    assert CheckPage(index, 0, true, 2, 3, false, st2, fuel) == Ok(START);
    assert CheckLevel(index, 0, true, 2, 3, Some(P_NONE), st2, fuel, steps - 2) == Ok(Level([3], P_NONE));
    assert [2] + [3] == [2, 3] && [1] + [2, 3] == [1, 2, 3];
    assert CheckLevel(index, 0, true, 1, 2, Some(P_NONE), st1, fuel, steps - 1) == Ok(Level([2, 3], P_NONE));
    assert CheckLevel(index, 0, true, P_NONE, 1, None, START, fuel, steps) == Ok(Level([1, 2, 3], P_NONE));
    DisorderedKeys(index);
  }

  lemma {:induction false} DisorderedKeys(index: Index)
    requires 1 in index && 2 in index && 3 in index
    requires index[1].items == [Item(5, 0)] && index[2].items == [] && index[3].items == [Item(3, 0)]
    ensures !IntRanges.Increasing(LeafKeys(index, [1, 2, 3]))
  {
    assert [1, 2, 3][1..] == [2, 3] && [2, 3][1..] == [3];
    assert Keys(index[1], 1) == [5] && Keys(index[3], 1) == [3];
    assert LeafKeys(index, [3]) == [3] + [];
    assert LeafKeys(index, [2, 3]) == [] + LeafKeys(index, [3]);
    assert LeafKeys(index, [1, 2, 3]) == [5] + LeafKeys(index, [2, 3]);
    var ks := LeafKeys(index, [1, 2, 3]);
    assert ks == [5, 3];
    assert ks[0] > ks[1];
  }

  // ----- blocks without a downlink, and the keys below a downlink -----

  /** Without half-dead pages there is no interrupted deletion. */
  lemma {:induction false} NoDeletion(index: Index, blk: nat, child: nat, level: nat)
    requires forall b :: b in index ==> !index[b].halfDead
    ensures !Descends(index, blk, child, level)
    decreases level
  {
    var c := Read(index, child);
    if c.Some? && !c.value.leaf && c.value.level + 1 == level && c.value.items != [] {
      NoDeletion(index, blk, c.value.items[0].link, c.value.level);
    }
  }

  /** A child without a downlink stands directly to the right of an incomplete split. */
  lemma {:induction false} MissingDownlinkFollowsSplit(index: Index, parent: seq<nat>, child: seq<nat>, owner: seq<nat>,
                                                       i: nat)
    requires MirrorsBy(index, parent, child, owner) && i < |child|
    requires forall b :: b in index ==> !Ignored(index[b])
    requires forall b :: b in child && b in index ==> !index[b].root
    requires forall d :: d in LevelDowns(index, parent) ==> d.link != child[i]
    ensures i > 0 && child[i - 1] in index && index[child[i - 1]].incompleteSplit
  {
    hide HighIs, LinkedTo, Descends;
    var downs := LevelDowns(index, parent);
    assert StepOk(index, downs, child, owner, i);
    assert downs[owner[i]] in downs;
    assert child[i] in child;
    var p := index[child[i]];
    if p.items != [] {
      NoDeletion(index, child[i], p.items[0].link, p.level);
    }
  }

  lemma {:induction false} DownSource(index: Index, chain: seq<nat>, k: nat) returns (b: nat, i: nat)
    requires k < |LevelDowns(index, chain)|
    ensures b in chain && b in index && i < |index[b].items| && LevelDowns(index, chain)[k] == DownAt(index[b], i)
    decreases |chain|
  {
    hide DownAt;
    var n := if chain[0] in index then |index[chain[0]].items| else 0;
    if k < n {
      b, i := chain[0], k;
      DownInPage(index[b], i, n);
    } else {
      b, i := DownSource(index, chain[1..], k - n);
    }
  }

  /** The keys of a page that a downlink leads to lie above the separator of that downlink and, once its
      splits are complete, not above the separator that follows. */
  lemma {:induction false} KeysBetweenSeparators(index: Index, level: nat, parent: seq<nat>, child: seq<nat>,
                                                 owner: seq<nat>, i: nat, n: nat)
    requires MirrorsBy(index, parent, child, owner) && level > 0 && i < |child|
    requires ChainOk(index, level, P_NONE, parent) && ChainOk(index, level - 1, P_NONE, child)
    requires NoneIgnored(index, parent) && NoneIgnored(index, child)
    requires i == 0 || owner[i] != owner[i - 1]
    requires child[i] in index && n < |index[child[i]].items| && !NegativeInfinity(index[child[i]], n)
    ensures owner[i] < |LevelDowns(index, parent)|
    ensures var d, c := LevelDowns(index, parent)[owner[i]], index[child[i]];
      && (d.low.Some? ==> d.low.value < c.items[n].key)
      && (!c.incompleteSplit && !Rightmost(c) ==> d.sep.Some? && c.items[n].key <= d.sep.value)
  {
    hide ChainOk, Excused, LinkedTo, NegativeInfinity, Ignored;
    assert StepOk(index, LevelDowns(index, parent), child, owner, i);
    var b, j := DownSource(index, parent, owner[i]);
    var q :| 0 <= q < |parent| && parent[q] == b;
    ChainAt(index, level, P_NONE, parent, q);
    ChainAt(index, level - 1, P_NONE, child, i);
    assert child[i] in child;
    if !Rightmost(index[child[i]]) {
      UpperBound(index, index[child[i]], n);
    }
    if j > 0 {
      LowerBound(index, index[b], j, n);
    }
  }

  lemma {:induction false} UpperBound(index: Index, p: Page, n: nat)
    requires PageSound(index, p) && n < |p.items| && !NegativeInfinity(p, n) && !Rightmost(p)
    ensures p.high.Some? && p.items[n].key <= p.high.value
  {
    hide ChildOk, BelowNext;
  }

  lemma {:induction false} LowerBound(index: Index, p: Page, j: nat, n: nat)
    requires PageSound(index, p) && !p.leaf && 0 < j < |p.items| && p.items[j].link in index
    requires var c := index[p.items[j].link]; n < |c.items| && !NegativeInfinity(c, n)
    ensures p.items[j].key < index[p.items[j].link].items[n].key
  {
    hide ItemOk, BelowNext;
    assert ChildOk(index, p, j);
  }
}
