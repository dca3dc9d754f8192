/**
 * What an index that amcheck accepts looks like: the child level moves in lockstep with the
 * downlinks of the level above.
 */
module BtreeLockstep {
  import opened Options
  import opened BtreeCheck

  /** A downlink with the separator before it on its page, which the first one lacks, and the one after it. */
  datatype Down = Down(link: nat, low: Option<int>, sep: Option<int>)

  function DownAt(p: Page, i: nat): Down
    requires i < |p.items|
  {
    Down(p.items[i].link,
         if i == 0 then None else Some(p.items[i].key),
         if i + 1 < |p.items| then Some(p.items[i + 1].key) else if Rightmost(p) then None else p.high)
  }

  /** The first n downlinks of an internal page. */
  ghost function DownsTo(p: Page, n: nat): (ds: seq<Down>)
    requires n <= |p.items|
    ensures |ds| == n
  {
    if n == 0 then [] else DownsTo(p, n - 1) + [DownAt(p, n - 1)]
  }

  /** Block b may follow block a on the child level although no downlink leads to it. */
  ghost predicate Excused(index: Index, a: nat, b: nat)
    requires a in index && b in index
  {
    index[a].incompleteSplit || index[b].root || Ignored(index[b]) || InterruptedDeletion(index, b, index[b])
  }

  /** The walk goes from a to b over the right link of a, unless that link is no block number. */
  ghost predicate LinkedTo(index: Index, a: nat, b: nat)
    requires a in index
  {
    index[a].next == b || index[a].next == INVALID_BLOCK
  }

  /** The high key of b is the separator s, unless b is split or has no high key. */
  ghost predicate HighIs(index: Index, b: nat, s: Option<int>)
    requires b in index
  {
    index[b].incompleteSplit || Rightmost(index[b]) || (s.Some? && index[b].high == s)
  }

  /**
   * The i-th block of the walk belongs to the downlink owner[i]: either the downlink leads to
   * it, or it has no downlink, is excused, and shares the owner of the block to its left.
   */
  ghost predicate StepOk(index: Index, downs: seq<Down>, walk: seq<nat>, owner: seq<nat>, i: nat)
    requires i < |walk| == |owner|
  {
    && Read(index, walk[i]).Some?
    && owner[i] < |downs|
    && HighIs(index, walk[i], downs[owner[i]].sep)
    && (if i == 0 then owner[0] == 0 && walk[0] == downs[0].link
        else
          && walk[i - 1] in index && LinkedTo(index, walk[i - 1], walk[i])
          && if owner[i] == owner[i - 1] then Excused(index, walk[i - 1], walk[i])
             else owner[i] == owner[i - 1] + 1 && walk[i] == downs[owner[i]].link)
  }

  ghost predicate LockStep(index: Index, downs: seq<Down>, walk: seq<nat>, owner: seq<nat>) {
    |walk| == |owner| && forall i :: 0 <= i < |walk| ==> StepOk(index, downs, walk, owner, i)
  }

  /** All downlinks so far have been passed and the walk stands at the child of the last one. */
  ghost predicate Abreast(index: Index, downs: seq<Down>, walk: seq<nat>, owner: seq<nat>) {
    && LockStep(index, downs, walk, owner)
    && (downs == [] <==> walk == [])
    && (walk != [] ==> owner[|walk| - 1] + 1 == |downs|)
  }

  lemma {:induction false} Advance(index: Index, downs: seq<Down>, more: seq<Down>, walk: seq<nat>, owner: seq<nat>,
                                   b: nat, k: nat)
    requires LockStep(index, downs, walk, owner)
    requires StepOk(index, downs + more, walk + [b], owner + [k], |walk|)
    ensures LockStep(index, downs + more, walk + [b], owner + [k])
  {
    hide Read, Excused, LinkedTo, HighIs;
    forall i | 0 <= i < |walk| ensures StepOk(index, downs + more, walk + [b], owner + [k], i) {
      assert StepOk(index, downs, walk, owner, i);
    }
  }

  /** The walk may go on at b; `split` is what is remembered of the block to its left. */
  ghost predicate AtBlock(index: Index, walk: seq<nat>, b: nat, split: bool) {
    walk != [] ==>
      var a := walk[|walk| - 1];
      a in index && LinkedTo(index, a, b) && (split ==> index[a].incompleteSplit)
  }

  /** What is carried from call to call is the right link and the split flag of the last child. */
  ghost predicate Remembers(index: Index, walk: seq<nat>, st: Carried) {
    if walk == [] then st.prevRight == INVALID_BLOCK
    else
      var a := walk[|walk| - 1];
      a in index && st.prevRight == index[a].next && st.prevSplit == index[a].incompleteSplit
  }

  /** The separator before the item at `off` is the one after the last downlink passed. */
  ghost predicate Meets(target: Page, off: Option<nat>, lowKey: Option<int>, downs: seq<Down>)
    requires off.Some? ==> off.value < |target.items|
  {
    downs != [] && off.Some? ==>
      (var e := ExpectedHigh(target, off, false, lowKey); e.Some? ==> e == downs[|downs| - 1].sep)
  }

  /** The end of a level: the walk has run off the last right link. */
  ghost predicate Finished(index: Index, downs: seq<Down>, walk: seq<nat>, owner: seq<nat>) {
    && Abreast(index, downs, walk, owner)
    && (walk != [] ==>
          var a := walk[|walk| - 1];
          a in index && (index[a].next == P_NONE || index[a].next == INVALID_BLOCK))
  }

  /** The page at b passes although it is not the child looked for. */
  lemma {:induction false} PassBlock(index: Index, target: Page, off: Option<nat>, st: Carried, b: nat, split: bool,
                                     first: bool, downs: seq<Down>, walk: seq<nat>, owner: seq<nat>)
    requires off.Some? ==> off.value < |target.items|
    requires Abreast(index, downs, walk, owner) && walk != []
    requires AtBlock(index, walk, b, split) && Meets(target, off, st.lowKey, downs)
    requires Read(index, b).Some? && b != Downlink(target, off)
    requires ChildPageOk(index, target, off, st, b, index[b], split, first)
    ensures downs != [] && Abreast(index, downs, walk + [b], owner + [|downs| - 1])
    ensures AtBlock(index, walk + [b], index[b].next, index[b].incompleteSplit)
  {
    var n := |walk|;
    var k := |downs| - 1;
    assert downs + [] == downs;
    assert HighIs(index, b, downs[k].sep);
    assert Excused(index, walk[n - 1], b);
    assert StepOk(index, downs, walk + [b], owner + [k], n) by { hide InterruptedDeletion, MayLackDownlink; }
    Advance(index, downs, [], walk, owner, b, k);
  }

  /** The page at b is the child that the downlink at `off` leads to. */
  lemma {:induction false} ReachChild(index: Index, target: Page, i: nat, st: Carried, b: nat, split: bool, first: bool,
                                      downs: seq<Down>, walk: seq<nat>, owner: seq<nat>)
    requires i < |target.items|
    requires Abreast(index, downs, walk, owner) && AtBlock(index, walk, b, split)
    requires Read(index, b).Some? && b == target.items[i].link
    requires ChildPageOk(index, target, Some(i), st, b, index[b], split, first)
    ensures Abreast(index, downs + [DownAt(target, i)], walk + [b], owner + [|downs|])
    ensures Remembers(index, walk + [b], st.(prevRight := index[b].next, prevSplit := index[b].incompleteSplit))
  {
    hide InterruptedDeletion, MayLackDownlink, Descends;
    var d := DownAt(target, i);
    var n := |walk|;
    assert HighIs(index, b, d.sep);
    assert StepOk(index, downs + [d], walk + [b], owner + [|downs|], n);
    Advance(index, downs, [d], walk, owner, b, |downs|);
  }

  /** A call for a real downlink that returns has found the child on the way to the right. */
  lemma {:induction false} WalkReaches(index: Index, target: Page, i: nat, st: Carried, b: nat, split: bool,
                                       first: bool, fuel: nat, downs: seq<Down>, walk: seq<nat>, owner: seq<nat>)
    returns (walk': seq<nat>, owner': seq<nat>)
    requires i < |target.items| && target.items[i].link != P_NONE
    requires Walk(index, target, Some(i), st, b, split, first, fuel).Ok?
    requires Abreast(index, downs, walk, owner) && AtBlock(index, walk, b, split)
    requires walk == [] ==> b == target.items[i].link
    requires Meets(target, Some(i), st.lowKey, downs)
    ensures Abreast(index, downs + [DownAt(target, i)], walk', owner')
    ensures Remembers(index, walk', Walk(index, target, Some(i), st, b, split, first, fuel).value)
    ensures Walk(index, target, Some(i), st, b, split, first, fuel).value.lowKey == st.lowKey
    decreases fuel
  {
    hide Abreast, AtBlock, Remembers, Meets, Read, ChildPageOk, DownAt;
    assert Read(index, b).Some? && index[b] == Read(index, b).value by { ReadIs(index, b); }
    if b == target.items[i].link {
      ReachChild(index, target, i, st, b, split, first, downs, walk, owner);
      walk', owner' := walk + [b], owner + [|downs|];
    } else {
      PassBlock(index, target, Some(i), st, b, split, first, downs, walk, owner);
      walk', owner' := WalkReaches(index, target, i, st, index[b].next, index[b].incompleteSplit, false, fuel - 1,
                                   downs, walk + [b], owner + [|downs| - 1]);
    }
  }

  lemma {:induction false} ReadIs(index: Index, b: nat)
    ensures Read(index, b).Some? ==> b in index && index[b] == Read(index, b).value
  {
  }

  /** The last call of a level, when it returns, has walked to the end of the child level. */
  lemma {:induction false} WalkEnds(index: Index, target: Page, st: Carried, b: nat, split: bool, first: bool,
                                    fuel: nat, downs: seq<Down>, walk: seq<nat>, owner: seq<nat>)
    returns (walk': seq<nat>, owner': seq<nat>)
    requires Walk(index, target, None, st, b, split, first, fuel).Ok?
    requires Abreast(index, downs, walk, owner) && AtBlock(index, walk, b, split) && walk != []
    ensures Finished(index, downs, walk', owner')
    decreases fuel
  {
    hide Abreast, Remembers, Read, ChildPageOk;
    if b == P_NONE {
      walk', owner' := walk, owner;
    } else {
      assert Read(index, b).Some? && index[b] == Read(index, b).value by { ReadIs(index, b); }
      assert Meets(target, None, st.lowKey, downs);
      PassBlock(index, target, None, st, b, split, first, downs, walk, owner);
      walk', owner' := WalkEnds(index, target, st, index[b].next, index[b].incompleteSplit, false, fuel - 1,
                                downs, walk + [b], owner + [|downs| - 1]);
    }
  }

  /** One call of bt_child_highkey_check keeps the child level abreast of the downlinks. */
  lemma {:induction false} CallReaches(index: Index, target: Page, i: nat, st: Carried, fuel: nat,
                                       downs: seq<Down>, walk: seq<nat>, owner: seq<nat>)
    returns (walk': seq<nat>, owner': seq<nat>)
    requires i < |target.items| && target.items[i].link != P_NONE
    requires ChildHighKeyCheck(index, target, Some(i), st, fuel).Ok?
    requires Abreast(index, downs, walk, owner) && Remembers(index, walk, st)
    requires Meets(target, Some(i), st.lowKey, downs)
    ensures Abreast(index, downs + [DownAt(target, i)], walk', owner')
    ensures Remembers(index, walk', ChildHighKeyCheck(index, target, Some(i), st, fuel).value)
    ensures ChildHighKeyCheck(index, target, Some(i), st, fuel).value.lowKey == st.lowKey
  {
    hide Abreast, Meets, Walk, DownAt;
    if st.prevRight == INVALID_BLOCK {
      walk', owner' := WalkReaches(index, target, i, st, target.items[i].link, false, true, fuel, downs, walk, owner);
    } else {
      walk', owner' := WalkReaches(index, target, i, st, st.prevRight, st.prevSplit, true, fuel, downs, walk, owner);
    }
  }

  lemma {:induction false} CallEnds(index: Index, target: Page, st: Carried, fuel: nat,
                                    downs: seq<Down>, walk: seq<nat>, owner: seq<nat>)
    returns (walk': seq<nat>, owner': seq<nat>)
    requires ChildHighKeyCheck(index, target, None, st, fuel).Ok?
    requires Abreast(index, downs, walk, owner) && Remembers(index, walk, st) && walk != []
    ensures Finished(index, downs, walk', owner')
  {
    hide Abreast, Finished, Walk;
    if st.prevRight == INVALID_BLOCK {
      walk', owner' := WalkEnds(index, target, st, P_NONE, false, true, fuel, downs, walk, owner);
    } else {
      walk', owner' := WalkEnds(index, target, st, st.prevRight, st.prevSplit, true, fuel, downs, walk, owner);
    }
  }

  // ----- one page -----

  /** No negative infinity item leads to the metapage. */
  predicate FirstLinkReal(p: Page) { !p.leaf && p.items != [] ==> p.items[0].link != P_NONE }

  /** At the start of an internal page the low key is the separator after the last downlink. */
  ghost predicate Boundary(lowKey: Option<int>, downs: seq<Down>) {
    downs != [] && lowKey.Some? ==> lowKey == downs[|downs| - 1].sep
  }

  lemma {:induction false} MeetsAt(target: Page, i: nat, lowKey: Option<int>, base: seq<Down>)
    requires i < |target.items| && Boundary(lowKey, base)
    ensures Meets(target, Some(i), lowKey, base + DownsTo(target, i))
  {
    if i > 0 {
      var ds := base + DownsTo(target, i);
      assert ds[|ds| - 1] == DownAt(target, i - 1);
    }
  }

  /** An internal page that passes brings the child level abreast of all its downlinks. */
  lemma {:induction false} PageReaches(index: Index, target: Page, i: nat, st: Carried, fuel: nat,
                                       base: seq<Down>, walk: seq<nat>, owner: seq<nat>)
    returns (walk': seq<nat>, owner': seq<nat>)
    requires i <= |target.items| && !target.leaf && target.items != [] && FirstLinkReal(target)
    requires CheckItems(index, target, i, st, fuel).Ok?
    requires Boundary(st.lowKey, base)
    requires Abreast(index, base + DownsTo(target, i), walk, owner) && Remembers(index, walk, st)
    ensures Rightmost(target) ==> Finished(index, base + DownsTo(target, |target.items|), walk', owner')
    ensures !Rightmost(target) ==>
      && Abreast(index, base + DownsTo(target, |target.items|), walk', owner')
      && Remembers(index, walk', CheckItems(index, target, i, st, fuel).value)
    decreases |target.items| - i
  {
    hide Abreast, Remembers, Meets, Finished, ChildHighKeyCheck, Boundary, CheckOrder, DownAt, ChildOk;
    var downs := base + DownsTo(target, i);
    if i == |target.items| {
      if Rightmost(target) {
        assert walk != [] by { AbreastSome(index, downs, walk, owner); }
        walk', owner' := CallEnds(index, target, st, fuel, downs, walk, owner);
      } else {
        walk', owner' := walk, owner;
      }
    } else {
      MeetsAt(target, i, st.lowKey, base);
      assert target.items[i].link != P_NONE by { hide ChildHighKeyCheck; }
      var r := ChildHighKeyCheck(index, target, Some(i), st, fuel);
      var w, o := CallReaches(index, target, i, st, fuel, downs, walk, owner);
      assert downs + [DownAt(target, i)] == base + DownsTo(target, i + 1);
      walk', owner' := PageReaches(index, target, i + 1, r.value, fuel, base, w, o);
    }
  }

  lemma {:induction false} AbreastSome(index: Index, downs: seq<Down>, walk: seq<nat>, owner: seq<nat>)
    requires Abreast(index, downs, walk, owner) && downs != []
    ensures walk != []
  {
  }

  // ----- one level -----

  /** The downlinks of a level, read left to right. */
  ghost function LevelDowns(index: Index, chain: seq<nat>): seq<Down> {
    if chain == [] then []
    else (if chain[0] in index then DownsTo(index[chain[0]], |index[chain[0]].items|) else [])
         + LevelDowns(index, chain[1..])
  }

  ghost predicate FirstLinksReal(index: Index, chain: seq<nat>) {
    forall b :: b in chain && b in index ==> FirstLinkReal(index[b])
  }

  ghost predicate NoneIgnored(index: Index, chain: seq<nat>) {
    forall b :: b in chain && b in index ==> !Ignored(index[b])
  }

  /** The separator after the last downlink of a page is its high key, the next low key. */
  lemma {:induction false} BoundaryAfter(p: Page, base: seq<Down>)
    requires p.items != [] && !Rightmost(p)
    ensures Boundary(p.high, base + DownsTo(p, |p.items|))
  {
    var n := |p.items|;
    var ds := base + DownsTo(p, n);
    assert ds[|ds| - 1] == DownAt(p, n - 1);
  }

  lemma {:induction false} NotIgnoredHead(index: Index, b: nat, rest: seq<nat>)
    requires NoneIgnored(index, [b] + rest) && FirstLinksReal(index, [b] + rest) && b in index
    ensures !Ignored(index[b]) && FirstLinkReal(index[b]) && NoneIgnored(index, rest) && FirstLinksReal(index, rest)
  {
    hide Ignored, FirstLinkReal;
    assert b in [b] + rest;
    forall c | c in rest ensures c in [b] + rest {}
  }

  /** A live page of an internal level that passes is an internal page whose items pass. */
  lemma {:induction false} PagePasses(index: Index, level: nat, isRoot: bool, left: nat, b: nat, isFirst: bool,
                                      st: Carried, fuel: nat)
    requires CheckPage(index, level, isRoot, left, b, isFirst, st, fuel).Ok? && b in index && !Ignored(index[b])
    ensures var p := index[b];
      && Sane(p) && (p.leaf <==> level == 0) && (!p.leaf ==> p.items != []) && p.prev == left && p.level == level
      && CheckItems(index, p, 0, st, fuel).Ok?
      && CheckPage(index, level, isRoot, left, b, isFirst, st, fuel).value ==
         CheckItems(index, p, 0, st, fuel).value.(lowKey := if Rightmost(p) then None else p.high)
  {
    hide CheckItems;
  }

  /** A level that passes brings the child level abreast of all its downlinks, and to its end. */
  lemma {:induction false} LevelReaches(index: Index, level: nat, isRoot: bool, left: nat, b: nat, down: Option<nat>,
                                        st: Carried, fuel: nat, steps: nat,
                                        base: seq<Down>, walk: seq<nat>, owner: seq<nat>)
    returns (walk': seq<nat>, owner': seq<nat>)
    requires level > 0 && CheckLevel(index, level, isRoot, left, b, down, st, fuel, steps).Ok?
    requires var l := CheckLevel(index, level, isRoot, left, b, down, st, fuel, steps).value;
      NoneIgnored(index, l.chain) && FirstLinksReal(index, l.chain)
    requires Boundary(st.lowKey, base) && Abreast(index, base, walk, owner) && Remembers(index, walk, st)
    ensures var l := CheckLevel(index, level, isRoot, left, b, down, st, fuel, steps).value;
      Finished(index, base + LevelDowns(index, l.chain), walk', owner')
    decreases steps
  {
    hide CheckPage, Boundary, Abreast, Remembers, Finished, Ignored, FirstLinkReal, NoneIgnored, FirstLinksReal,
         DownFrom, CheckItems;
    var l := CheckLevel(index, level, isRoot, left, b, down, st, fuel, steps).value;
    var p := index[b];
    assert l.chain == [b] + l.chain[1..];
    NotIgnoredHead(index, b, l.chain[1..]);
    PagePasses(index, level, isRoot, left, b, down.None?, st, fuel);
    var all := DownsTo(p, |p.items|);
    assert base + DownsTo(p, 0) == base;
    var w, o := PageReaches(index, p, 0, st, fuel, base, walk, owner);
    assert LevelDowns(index, l.chain) == all + LevelDowns(index, l.chain[1..]);
    if Rightmost(p) {
      assert base + LevelDowns(index, l.chain) == base + all;
      walk', owner' := w, o;
    } else {
      BoundaryAfter(p, base);
      var st' := CheckPage(index, level, isRoot, left, b, down.None?, st, fuel).value;
      RemembersNoLowKey(index, w, CheckItems(index, p, 0, st, fuel).value, p.high);
      var down' := if down.None? && !Ignored(p) then Some(DownFrom(p)) else down;
      walk', owner' := LevelReaches(index, level, isRoot, b, p.next, down', st', fuel, steps - 1, base + all, w, o);
      assert base + all + LevelDowns(index, l.chain[1..]) == base + LevelDowns(index, l.chain);
    }
  }

  lemma {:induction false} RemembersNoLowKey(index: Index, walk: seq<nat>, st: Carried, k: Option<int>)
    requires Remembers(index, walk, st)
    ensures Remembers(index, walk, st.(lowKey := k))
  {
  }

  // ----- the chain of a level -----

  /** What a level check says about the block b it met with `left` to its left. */
  ghost predicate Visited(index: Index, level: nat, left: nat, b: nat) {
    && Read(index, b).Some? && !index[b].deleted && b != left
    && (!Ignored(index[b]) ==> index[b].prev == left && index[b].level == level && PageSound(index, index[b]))
  }

  /** The items are in order, below the high key and below the next page, and above their children's lower bounds. */
  ghost predicate PageSound(index: Index, p: Page) {
    && (forall i :: 0 <= i < |p.items| && !NegativeInfinity(p, i) ==>
          ItemOk(p, i) && (!p.leaf ==> ChildOk(index, p, i)))
    && (p.items != [] && !NegativeInfinity(p, |p.items| - 1) && !Rightmost(p) ==>
          BelowNext(index, p.items[|p.items| - 1].key, p.next))
  }

  /** The key is below the first real key of page b, if that page is live and has one. */
  ghost predicate BelowNext(index: Index, key: int, b: nat) {
    Read(index, b).Some? && !Ignored(index[b]) ==>
      var q := index[b];
      (q.leaf && q.items != [] ==> key < q.items[0].key) && (!q.leaf && |q.items| > 1 ==> key < q.items[1].key)
  }

  /** The chain follows the right links to the end of the level. */
  ghost predicate ChainOk(index: Index, level: nat, left: nat, chain: seq<nat>)
    decreases |chain|
  {
    && chain != [] && Visited(index, level, left, chain[0])
    && if |chain| == 1 then index[chain[0]].next == P_NONE
       else index[chain[0]].next == chain[1] && ChainOk(index, level, chain[0], chain[1..])
  }

  lemma {:induction false} ItemsSound(index: Index, p: Page, i: nat, st: Carried, fuel: nat)
    requires i <= |p.items| && CheckItems(index, p, i, st, fuel).Ok?
    ensures forall k :: i <= k < |p.items| && !NegativeInfinity(p, k) ==>
      ItemOk(p, k) && (!p.leaf ==> ChildOk(index, p, k))
    ensures i < |p.items| && !NegativeInfinity(p, |p.items| - 1) && !Rightmost(p) ==>
      BelowNext(index, p.items[|p.items| - 1].key, p.next)
    decreases |p.items| - i
  {
    hide ItemOk, ChildOk, ChildHighKeyCheck, BelowNext, RightKey;
    if i < |p.items| {
      var r := if p.leaf then Ok(st) else CheckChild(index, p, i, st, fuel);
      ItemsSound(index, p, i + 1, r.value, fuel);
      if i + 1 == |p.items| && !NegativeInfinity(p, i) && !Rightmost(p) {
        NextIsAbove(index, p, i, fuel);
      }
    }
  }

  lemma {:induction false} NextIsAbove(index: Index, p: Page, i: nat, fuel: nat)
    requires i + 1 == |p.items| && !NegativeInfinity(p, i) && !Rightmost(p) && CheckOrder(index, p, i, fuel).Ok?
    ensures BelowNext(index, p.items[i].key, p.next)
  {
    hide ItemOk;
  }

  lemma {:induction false} LevelIsChain(index: Index, level: nat, isRoot: bool, left: nat, b: nat, down: Option<nat>,
                                        st: Carried, fuel: nat, steps: nat)
    requires CheckLevel(index, level, isRoot, left, b, down, st, fuel, steps).Ok?
    ensures var l := CheckLevel(index, level, isRoot, left, b, down, st, fuel, steps).value;
      && ChainOk(index, level, left, l.chain) && l.chain[0] == b
      && (down.Some? ==> l.down == down.value)
      && (down.None? && !Ignored(index[b]) ==> l.down == DownFrom(index[b]))
    decreases steps
  {
    hide CheckPage, Visited, DownFrom, Ignored, Rightmost;
    var l := CheckLevel(index, level, isRoot, left, b, down, st, fuel, steps).value;
    PageVisited(index, level, isRoot, left, b, down.None?, st, fuel);
    var p := index[b];
    if !Rightmost(p) {
      var st' := CheckPage(index, level, isRoot, left, b, down.None?, st, fuel).value;
      var down' := if down.None? && !Ignored(p) then Some(DownFrom(p)) else down;
      var rest := CheckLevel(index, level, isRoot, b, p.next, down', st', fuel, steps - 1).value;
      LevelIsChain(index, level, isRoot, b, p.next, down', st', fuel, steps - 1);
      assert l.chain[1..] == rest.chain;
    } else {
      assert p.next == P_NONE by { RightmostIs(p); }
    }
  }

  lemma {:induction false} RightmostIs(p: Page)
    ensures Rightmost(p) <==> p.next == P_NONE
  {
  }

  lemma {:induction false} PageVisited(index: Index, level: nat, isRoot: bool, left: nat, b: nat, isFirst: bool,
                                       st: Carried, fuel: nat)
    requires CheckPage(index, level, isRoot, left, b, isFirst, st, fuel).Ok?
    ensures b in index && Visited(index, level, left, b)
  {
    hide CheckItems, ItemOk, ChildOk, BelowNext;
    var p := index[b];
    if !Ignored(p) {
      ItemsSound(index, p, 0, st, fuel);
    }
  }

  lemma {:induction false} ChainAt(index: Index, level: nat, left: nat, chain: seq<nat>, i: nat)
    requires ChainOk(index, level, left, chain) && i < |chain|
    ensures Visited(index, level, if i == 0 then left else chain[i - 1], chain[i])
    ensures chain[i] in index && index[chain[i]].next == if i + 1 < |chain| then chain[i + 1] else P_NONE
    decreases i
  {
    hide PageSound;
    if i > 0 {
      ChainAt(index, level, chain[0], chain[1..], i - 1);
    }
  }
}
