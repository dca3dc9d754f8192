/** The check accepts every healthy index, half-dead leaves, incomplete splits and interrupted deletions included. */
module BtreeAccepts {
  import opened Options
  import opened BtreeCheck
  import opened BtreeLockstep
  import opened BtreeVerdict
  import opened BtreeHealth
  import BtreeSearch

  // ----- the order of keys -----

  lemma {:induction false} ItemsAreOk(index: Index, level: nat, left: nat, chain: seq<nat>, i: nat)
    requires RowFrom(index, level, left, chain) && i < |chain| && !P(index, chain[i]).halfDead
    ensures var p := P(index, chain[i]);
            && chain[i] in index && p == index[chain[i]] && Read(index, chain[i]) == Some(p) && !Ignored(p)
            && p.level == level && (p.leaf <==> level == 0) && (!p.leaf ==> p.items != [])
            && p.prev == LeftOf(left, chain, i) && p.next == (if i + 1 < |chain| then chain[i + 1] else P_NONE)
            && chain[i] != p.prev && chain[i] != LeftOf(left, chain, i)
            && (forall k :: 0 <= k < |p.items| && !NegativeInfinity(p, k) ==> ItemOk(p, k))
            && ChildrenAbove(index, p) && BelowNextLive(index, chain, i) && (i + 1 < |chain| ==> chain[i + 1] != P_NONE)
  {
    hide KeysOrdered, ChildrenAbove, BelowNextLive, ItemOk;
    assert BlockOk(index, level, left, chain, i);
    FormedIsRead(index, chain[i]);
    OrderedIff(P(index, chain[i]));
    if i + 1 < |chain| { assert BlockOk(index, level, left, chain, i + 1); }
  }

  lemma {:induction false} OrderPasses(index: Index, level: nat, left: nat, chain: seq<nat>, i: nat, k: nat, fuel: nat)
    requires RowFrom(index, level, left, chain) && i < |chain| && !P(index, chain[i]).halfDead
    requires k < |P(index, chain[i]).items| && fuel >= |chain|
    ensures CheckOrder(index, P(index, chain[i]), k, fuel) == Ok(true)
  {
    hide RowFrom, RightKey, KeyBehind, ItemOk, ChildrenAbove;
    ItemsAreOk(index, level, left, chain, i);
    if i + 1 < |chain| { RightKeyIs(index, level, left, chain, i, fuel); }
  }

  // ----- a row of leaves -----

  lemma {:induction false} LeafItems(index: Index, chain: seq<nat>, i: nat, k: nat, st: Carried, fuel: nat)
    requires RowFrom(index, 0, P_NONE, chain) && i < |chain| && !P(index, chain[i]).halfDead
    requires k <= |P(index, chain[i]).items| && fuel >= |chain|
    ensures CheckItems(index, P(index, chain[i]), k, st, fuel) == Ok(st)
    decreases |P(index, chain[i]).items| - k
  {
    hide RowFrom, CheckOrder, ItemOk, BelowNextLive;
    ItemsAreOk(index, 0, P_NONE, chain, i);
    if k < |P(index, chain[i]).items| {
      OrderPasses(index, 0, P_NONE, chain, i, k, fuel);
      LeafItems(index, chain, i, k + 1, st, fuel);
    }
  }

  lemma {:induction false} LeafPage(index: Index, isRoot: bool, chain: seq<nat>, i: nat, st: Carried, fuel: nat)
    requires RowHealthy(index, 0, isRoot, chain) && i < |chain| && fuel >= |chain|
    ensures chain[i] in index && Read(index, chain[i]).Some?
    ensures index[chain[i]].next == (if i + 1 < |chain| then chain[i + 1] else P_NONE)
    ensures i + 1 < |chain| ==> chain[i + 1] != P_NONE
    ensures !Ignored(index[chain[i]]) ==> index[chain[i]].leaf
    ensures i == 0 ==> !Ignored(index[chain[0]])
    ensures CheckPage(index, 0, isRoot, LeftOf(P_NONE, chain, i), chain[i], i == 0, st, fuel).Ok?
  {
    hide CheckItems, KeysOrdered, ChildrenAbove, BelowNextLive, ItemOk;
    assert BlockOk(index, 0, P_NONE, chain, i);
    FormedIsRead(index, chain[i]);
    if i + 1 < |chain| { assert BlockOk(index, 0, P_NONE, chain, i + 1); }
    if !P(index, chain[i]).halfDead {
      ItemsAreOk(index, 0, P_NONE, chain, i);
      LeafItems(index, chain, i, 0, st, fuel);
    }
  }

  lemma {:induction false} LeafRow(index: Index, isRoot: bool, chain: seq<nat>, i: nat, st: Carried, fuel: nat,
                                   steps: nat)
    requires RowHealthy(index, 0, isRoot, chain) && i < |chain| && fuel >= |chain| && steps >= |chain| - i
    ensures CheckLevel(index, 0, isRoot, LeftOf(P_NONE, chain, i), chain[i], if i == 0 then None else Some(P_NONE), st,
                       fuel, steps) == Ok(Level(chain[i..], P_NONE))
    decreases |chain| - i
  {
    hide CheckPage, RowHealthy, Ignored;
    LeafPage(index, isRoot, chain, i, st, fuel);
    assert chain[i..] == [chain[i]] + chain[i + 1..];
    assert !Ignored(index[chain[i]]) ==> DownFrom(index[chain[i]]) == P_NONE;
    if i + 1 == |chain| {
      assert chain[i..] == [chain[i]];
    } else {
      var st' := CheckPage(index, 0, isRoot, LeftOf(P_NONE, chain, i), chain[i], i == 0, st, fuel).value;
      LeafRow(index, isRoot, chain, i + 1, st', fuel, steps - 1);
    }
  }

  // ----- the walk along the children -----

  /** Two healthy rows, the lower one owned by the downlinks of the upper one. */
  ghost predicate Rows(index: Index, level: nat, isRoot: bool, parent: seq<nat>, child: seq<nat>, owner: seq<nat>) {
    && level > 0 && RowHealthy(index, level, isRoot, parent) && RowHealthy(index, level - 1, false, child)
    && Owned(index, parent, child, owner)
  }

  /** What is carried when the children before position i have been passed. */
  ghost predicate Ready(index: Index, child: seq<nat>, i: nat, st: Carried)
    requires i <= |child|
  {
    if i == 0 then st.prevRight == INVALID_BLOCK && !st.prevSplit
    else st.prevRight == P(index, child[i - 1]).next && st.prevSplit == P(index, child[i - 1]).incompleteSplit
  }

  function SplitBefore(index: Index, child: seq<nat>, t: nat): bool
    requires t <= |child|
  {
    t > 0 && P(index, child[t - 1]).incompleteSplit
  }

  /** The tests on the links of one block. */
  lemma {:induction false} LinksPass(index: Index, level: nat, child: seq<nat>, target: Page, off: Option<nat>,
                                     st: Carried, t: nat, first: bool)
    requires off.Some? ==> off.value < |target.items|
    requires RowHealthy(index, level, false, child) && t < |child| && target.level == level + 1
    requires first && st.prevRight == INVALID_BLOCK ==> t == 0
    requires !first ==> child[t] != st.prevRight
    requires child[t] == Downlink(target, off) || (t > 0 && MayBeMissed(index, child[t - 1], child[t]))
    ensures Read(index, child[t]) == Some(P(index, child[t]))
    ensures ChildLinksOk(index, target, off, st, child[t], P(index, child[t]), SplitBefore(index, child, t), first)
  {
    hide KeysOrdered, ChildrenAbove, BelowNextLive, InterruptedDeletion, BeingDeleted;
    assert BlockOk(index, level, P_NONE, child, t);
    FormedIsRead(index, child[t]);
    DeletedIff(index, child[t]);
  }

  lemma {:induction false} ExpectedIs(p: Page, c: nat, lowKey: Option<int>)
    requires c < |p.items|
    ensures ExpectedHigh(p, Some(c), true, lowKey) == DownAt(p, c).sep
    ensures ExpectedHigh(p, Some(c), false, lowKey) == if c == 0 then lowKey else DownAt(p, c - 1).sep
  {
  }

  /** The separator before the downlink number d, as the code remembers it. */
  ghost predicate LowFits(downs: seq<Down>, p: Page, c: nat, d: nat, lowKey: Option<int>)
    requires c < |p.items| && d < |downs|
  {
    c == 0 && d > 0 ==> lowKey == downs[d - 1].sep
  }

  /** The target page and the item of a downlink. */
  ghost predicate Targets(index: Index, level: nat, parent: seq<nat>, p: Page, c: nat, d: nat) {
    && c < |p.items| && d < |LevelDowns(index, parent)| && p.level == level
    && LevelDowns(index, parent)[d] == DownAt(p, c)
    && (c > 0 ==> d > 0 && LevelDowns(index, parent)[d - 1] == DownAt(p, c - 1))
  }

  lemma {:induction false} OwnedBlock(index: Index, parent: seq<nat>, child: seq<nat>, owner: seq<nat>, t: nat)
    requires Owned(index, parent, child, owner) && t < |child|
    ensures |child| == |owner| && OwnedAt(index, LevelDowns(index, parent), child, owner, t)
  {
    hide OwnedAt;
  }

  lemma {:induction false} WalkPasses(index: Index, p: Page, off: Option<nat>, st: Carried, b: nat, split: bool,
                                      first: bool, fuel: nat)
    requires (off.Some? ==> off.value < |p.items|) && fuel > 0
    requires Read(index, b) == Some(P(index, b)) && !NeedsItemZero(P(index, b), off)
    requires ChildPageOk(index, p, off, st, b, P(index, b), split, first)
    ensures var q := P(index, b);
            Walk(index, p, off, st, b, split, first, fuel) ==
            if b == Downlink(p, off) then Ok(st.(prevRight := q.next, prevSplit := q.incompleteSplit))
            else Walk(index, p, off, st, q.next, q.incompleteSplit, false, fuel - 1)
  {
    hide ChildLinksOk, ExpectedHigh;
  }

  /** The high key of a block is the separator behind its owner. */
  lemma {:induction false} HighFits(index: Index, parent: seq<nat>, child: seq<nat>, owner: seq<nat>, t: nat, p: Page,
                                    off: Option<nat>, st: Carried, first: bool)
    requires (off.Some? ==> off.value < |p.items|) && t < |child| == |owner|
    requires OwnedAt(index, LevelDowns(index, parent), child, owner, t)
    requires ChildLinksOk(index, p, off, st, child[t], P(index, child[t]), SplitBefore(index, child, t), first)
    requires ExpectedHigh(p, off, child[t] == Downlink(p, off), st.lowKey) == LevelDowns(index, parent)[owner[t]].sep
    ensures ChildPageOk(index, p, off, st, child[t], P(index, child[t]), SplitBefore(index, child, t), first)
  {
    hide ChildLinksOk, ExpectedHigh, MayBeMissed, LevelDowns;
  }

  /** The walk of the call for the downlink number d, from position i to the child at position e. */
  lemma {:induction false} WalkTo(index: Index, level: nat, isRoot: bool, parent: seq<nat>, child: seq<nat>,
                                  owner: seq<nat>, p: Page, c: nat, d: nat, st: Carried, i: nat, e: nat, first: bool,
                                  fuel: nat)
    requires Rows(index, level, isRoot, parent, child, owner) && Targets(index, level, parent, p, c, d)
    requires LowFits(LevelDowns(index, parent), p, c, d, st.lowKey)
    requires i <= e < |child| && owner[e] == d && (forall t :: i <= t < e ==> owner[t] + 1 == d)
    requires if i == 0 then d == 0 else owner[i - 1] + 1 == d
    requires first && st.prevRight == INVALID_BLOCK ==> i == 0
    requires !first ==> exists s :: 0 <= s < i && child[s] == st.prevRight
    requires first && i > 0 ==> st.prevRight == child[i]
    requires fuel > e - i
    ensures var q := P(index, child[e]);
            Walk(index, p, Some(c), st, child[i], SplitBefore(index, child, i), first, fuel) ==
            Ok(st.(prevRight := q.next, prevSplit := q.incompleteSplit))
    decreases e - i
  {
    hide RowFrom, Owned, DownAt, ExpectedHigh, ChildLinksOk, MayBeMissed, ChildPageOk, Walk, LevelDowns;
    var downs := LevelDowns(index, parent);
    OwnedBlock(index, parent, child, owner, e);
    OwnedBlock(index, parent, child, owner, i);
    LinkOf(p, c);
    assert Downlink(p, Some(c)) == downs[d].link == child[e];
    ExpectedIs(p, c, st.lowKey);
    if !first {
      var s :| 0 <= s < i && child[s] == st.prevRight;
      RowDistinct(index, level - 1, P_NONE, child, s, i);
    }
    if i < e { RowDistinct(index, level - 1, P_NONE, child, i, e); }
    LinksPass(index, level - 1, child, p, Some(c), st, i, first);
    HighFits(index, parent, child, owner, i, p, Some(c), st, first);
    WalkPasses(index, p, Some(c), st, child[i], SplitBefore(index, child, i), first, fuel);
    if i < e {
      NextBlock(index, level - 1, child, i);
      WalkTo(index, level, isRoot, parent, child, owner, p, c, d, st, i + 1, e, false, fuel - 1);
    }
  }

  lemma {:induction false} LinkOf(p: Page, c: nat)
    requires c < |p.items|
    ensures DownAt(p, c).link == p.items[c].link
  {
  }

  lemma {:induction false} NextBlock(index: Index, level: nat, child: seq<nat>, t: nat)
    requires RowFrom(index, level, P_NONE, child) && t < |child|
    ensures P(index, child[t]).next == (if t + 1 < |child| then child[t + 1] else P_NONE)
    ensures t + 1 < |child| ==> child[t + 1] != P_NONE && child[t + 1] != INVALID_BLOCK
    ensures child[t] in index && Read(index, child[t]) == Some(P(index, child[t])) && !P(index, child[t]).deleted
  {
    hide KeysOrdered, ChildrenAbove, BelowNextLive;
    assert BlockOk(index, level, P_NONE, child, t);
    FormedIsRead(index, child[t]);
    if t + 1 < |child| { assert BlockOk(index, level, P_NONE, child, t + 1); }
  }

  /** The walk past the last downlink, from position i to the end of the row. */
  lemma {:induction false} WalkRest(index: Index, level: nat, isRoot: bool, parent: seq<nat>, child: seq<nat>,
                                    owner: seq<nat>, p: Page, st: Carried, i: nat, first: bool, fuel: nat)
    requires Rows(index, level, isRoot, parent, child, owner) && p.level == level
    requires LevelDowns(index, parent) != [] && LevelDowns(index, parent)[|LevelDowns(index, parent)| - 1].sep.None?
    requires 0 < i <= |child| && forall t :: i - 1 <= t < |child| ==> owner[t] + 1 == |LevelDowns(index, parent)|
    requires first ==> st.prevRight != INVALID_BLOCK
    requires !first ==> exists s :: 0 <= s < i && child[s] == st.prevRight
    requires first && i < |child| ==> st.prevRight == child[i]
    requires fuel > |child| - i
    ensures var b := if i < |child| then child[i] else P_NONE;
            Walk(index, p, None, st, b, SplitBefore(index, child, i), first, fuel) ==
            Ok(st.(prevRight := INVALID_BLOCK, prevSplit := false))
    decreases |child| - i
  {
    hide RowFrom, Owned, ChildLinksOk, MayBeMissed, LevelDowns;
    if i == |child| {
      return;
    }
    OwnedBlock(index, parent, child, owner, i);
    if !first {
      var s :| 0 <= s < i && child[s] == st.prevRight;
      RowDistinct(index, level - 1, P_NONE, child, s, i);
    }
    LinksPass(index, level - 1, child, p, None, st, i, first);
    NextBlock(index, level - 1, child, i);
    WalkPasses(index, p, None, st, child[i], SplitBefore(index, child, i), first, fuel);
    NotNone(index, level - 1, child, i);
    WalkRest(index, level, isRoot, parent, child, owner, p, st, i + 1, false, fuel - 1);
  }

  lemma {:induction false} NotNone(index: Index, level: nat, child: seq<nat>, i: nat)
    requires RowFrom(index, level, P_NONE, child) && i < |child|
    ensures child[i] != P_NONE
  {
    hide KeysOrdered, ChildrenAbove, BelowNextLive;
    assert BlockOk(index, level, P_NONE, child, i);
  }

  // ----- calls -----

  /** The next child that a downlink leads to. */
  lemma {:induction false} NextChild(index: Index, parent: seq<nat>, child: seq<nat>, owner: seq<nat>, i: nat, d: nat)
    returns (e: nat)
    requires Owned(index, parent, child, owner) && i <= |child| && d < |LevelDowns(index, parent)|
    requires if i == 0 then d == 0 else owner[i - 1] + 1 == d
    ensures i <= e < |child| && owner[e] == d && forall t :: i <= t < e ==> owner[t] + 1 == d
    decreases |child| - i
  {
    hide MayBeMissed, LevelDowns;
    assert i < |child|;
    OwnedBlock(index, parent, child, owner, i);
    if owner[i] == d {
      e := i;
    } else {
      e := NextChild(index, parent, child, owner, i + 1, d);
    }
  }

  lemma {:induction false} CallReachesChild(index: Index, level: nat, isRoot: bool, parent: seq<nat>, child: seq<nat>,
                                            owner: seq<nat>, p: Page, c: nat, d: nat, st: Carried, i: nat, fuel: nat)
    returns (e: nat)
    requires Rows(index, level, isRoot, parent, child, owner) && Targets(index, level, parent, p, c, d)
    requires LowFits(LevelDowns(index, parent), p, c, d, st.lowKey) && fuel > |child|
    requires i <= |child| && Ready(index, child, i, st) && if i == 0 then d == 0 else owner[i - 1] + 1 == d
    ensures i <= e < |child| && owner[e] == d && child[e] == p.items[c].link
    ensures ChildHighKeyCheck(index, p, Some(c), st, fuel) ==
            Ok(st.(prevRight := P(index, child[e]).next, prevSplit := P(index, child[e]).incompleteSplit))
    ensures Read(index, child[e]) == Some(P(index, child[e])) && !P(index, child[e]).deleted
  {
    hide RowFrom, Owned, Walk, LevelDowns, MayBeMissed;
    e := NextChild(index, parent, child, owner, i, d);
    OwnedBlock(index, parent, child, owner, e);
    NextBlock(index, level - 1, child, e);
    NextBlock(index, level - 1, child, i);
    if i > 0 { NextBlock(index, level - 1, child, i - 1); }
    NotNone(index, level - 1, child, i);
    WalkTo(index, level, isRoot, parent, child, owner, p, c, d, st, i, e, true, fuel);
  }

  lemma {:induction false} ChildIsOk(index: Index, p: Page, c: nat)
    requires !p.leaf && 0 < c < |p.items| && ChildrenAbove(index, p)
    requires Read(index, p.items[c].link) == Some(P(index, p.items[c].link)) && !P(index, p.items[c].link).deleted
    ensures ChildOk(index, p, c)
  {
    assert ChildAbove(index, p, c);
  }

  // ----- an internal page -----

  lemma {:induction false} TargetsItem(index: Index, level: nat, isRoot: bool, parent: seq<nat>, y: nat, c: nat)
    requires level > 0 && RowHealthy(index, level, isRoot, parent) && y < |parent|
    requires c < |P(index, parent[y]).items|
    ensures Targets(index, level, parent, P(index, parent[y]), c, BtreeSearch.Start(index, parent, y) + c)
  {
    hide LevelDowns, DownAt, KeysOrdered, ChildrenAbove, BelowNextLive;
    assert BlockOk(index, level, P_NONE, parent, y);
    BtreeSearch.DownNumbered(index, parent, y, c);
    if c > 0 { BtreeSearch.DownNumbered(index, parent, y, c - 1); }
  }

  /** The low key of a page is the high key of the page to its left, and so the separator before its first downlink. */
  ghost predicate LowIsHigh(index: Index, parent: seq<nat>, y: nat, lowKey: Option<int>)
    requires y < |parent|
  {
    y > 0 ==> lowKey == P(index, parent[y - 1]).high
  }

  lemma {:induction false} LowFitsAt(index: Index, level: nat, isRoot: bool, parent: seq<nat>, y: nat, c: nat,
                                     lowKey: Option<int>)
    requires level > 0 && RowHealthy(index, level, isRoot, parent) && y < |parent|
    requires c < |P(index, parent[y]).items| && LowIsHigh(index, parent, y, lowKey)
    ensures BtreeSearch.Start(index, parent, y) + c < |LevelDowns(index, parent)|
    ensures LowFits(LevelDowns(index, parent), P(index, parent[y]), c, BtreeSearch.Start(index, parent, y) + c, lowKey)
  {
    hide LevelDowns, KeysOrdered, ChildrenAbove, BelowNextLive;
    BtreeSearch.DownNumbered(index, parent, y, c);
    if c == 0 && y > 0 {
      var q := P(index, parent[y - 1]);
      assert BlockOk(index, level, P_NONE, parent, y - 1) && BlockOk(index, level, P_NONE, parent, y);
      BtreeSearch.DownNumbered(index, parent, y - 1, |q.items| - 1);
    }
  }

  /** The items of an internal page from the c-th on. */
  lemma {:induction false} InnerItems(index: Index, level: nat, isRoot: bool, parent: seq<nat>, child: seq<nat>,
                                      owner: seq<nat>, y: nat, c: nat, st: Carried, i: nat, fuel: nat)
    returns (i': nat)
    requires Rows(index, level, isRoot, parent, child, owner) && y < |parent|
    requires c <= |P(index, parent[y]).items| && LowIsHigh(index, parent, y, st.lowKey)
    requires fuel > |child| && fuel >= |parent| && i <= |child| && Ready(index, child, i, st)
    requires var d := BtreeSearch.Start(index, parent, y) + c; if i == 0 then d == 0 else owner[i - 1] + 1 == d
    ensures CheckItems(index, P(index, parent[y]), c, st, fuel).Ok?
    ensures CheckItems(index, P(index, parent[y]), c, st, fuel).value.lowKey == st.lowKey
    ensures y + 1 < |parent| ==>
              && i' <= |child| && Ready(index, child, i', CheckItems(index, P(index, parent[y]), c, st, fuel).value)
              && i' > 0 && owner[i' - 1] + 1 == BtreeSearch.Start(index, parent, y + 1)
    decreases |P(index, parent[y]).items| - c
  {
    hide RowFrom, Owned, ChildHighKeyCheck, CheckOrder, ChildOk, LevelDowns, ChildrenAbove, Targets, LowFits, ItemOk;
    var p := P(index, parent[y]);
    PageIsLive(index, level, isRoot, parent, y);
    if c == |p.items| {
      i' := i;
      if y + 1 == |parent| { LastCall(index, level, isRoot, parent, child, owner, y, st, i, fuel); }
    } else {
      var d := BtreeSearch.Start(index, parent, y) + c;
      OrderPasses(index, level, P_NONE, parent, y, c, fuel);
      TargetsItem(index, level, isRoot, parent, y, c);
      LowFitsAt(index, level, isRoot, parent, y, c, st.lowKey);
      var e := CallReachesChild(index, level, isRoot, parent, child, owner, p, c, d, st, i, fuel);
      if c > 0 { ChildIsOk(index, p, c); }
      var st' := st.(prevRight := P(index, child[e]).next, prevSplit := P(index, child[e]).incompleteSplit);
      assert CheckChild(index, p, c, st, fuel) == Ok(st');
      i' := InnerItems(index, level, isRoot, parent, child, owner, y, c + 1, st', e + 1, fuel);
    }
  }

  lemma {:induction false} PageIsLive(index: Index, level: nat, isRoot: bool, parent: seq<nat>, y: nat)
    requires level > 0 && RowHealthy(index, level, isRoot, parent) && y < |parent|
    ensures var p := P(index, parent[y]);
            && !p.halfDead && !p.leaf && p.items != [] && parent[y] in index && p == index[parent[y]]
            && Read(index, parent[y]) == Some(p) && !Ignored(p) && p.level == level
            && p.prev == LeftOf(P_NONE, parent, y)
            && (Rightmost(p) <==> y + 1 == |parent|) && (y + 1 < |parent| ==> p.next == parent[y + 1])
            && parent[y] != p.prev && parent[y] != LeftOf(P_NONE, parent, y) && ChildrenAbove(index, p)
  {
    hide ChildrenAbove, BelowNextLive, ItemOk, KeysOrdered;
    assert BlockOk(index, level, P_NONE, parent, y);
    ItemsAreOk(index, level, P_NONE, parent, y);
  }

  lemma {:induction false} LastCall(index: Index, level: nat, isRoot: bool, parent: seq<nat>, child: seq<nat>,
                                    owner: seq<nat>, y: nat, st: Carried, i: nat, fuel: nat)
    requires Rows(index, level, isRoot, parent, child, owner) && y + 1 == |parent|
    requires fuel > |child| && 0 < i <= |child| && Ready(index, child, i, st)
    requires owner[i - 1] + 1 == BtreeSearch.Start(index, parent, |parent|)
    ensures ChildHighKeyCheck(index, P(index, parent[y]), None, st, fuel) ==
            Ok(st.(prevRight := INVALID_BLOCK, prevSplit := false))
  {
    hide RowFrom, Owned, Walk, LevelDowns, ChildrenAbove;
    var p := P(index, parent[y]);
    PageIsLive(index, level, isRoot, parent, y);
    BtreeSearch.DownCount(index, parent);
    BtreeSearch.DownNumbered(index, parent, y, |p.items| - 1);
    NextBlock(index, level - 1, child, i - 1);
    OwnersStay(index, parent, child, owner, i - 1);
    WalkRest(index, level, isRoot, parent, child, owner, p, st, i, true, fuel);
  }

  /** Behind a block of the last downlink all blocks belong to it. */
  lemma {:induction false} OwnersStay(index: Index, parent: seq<nat>, child: seq<nat>, owner: seq<nat>, i: nat)
    requires Owned(index, parent, child, owner) && i < |child| && owner[i] + 1 == |LevelDowns(index, parent)|
    ensures forall t :: i <= t < |child| ==> owner[t] + 1 == |LevelDowns(index, parent)|
    decreases |child| - i
  {
    hide MayBeMissed, LevelDowns;
    if i + 1 < |child| {
      OwnedBlock(index, parent, child, owner, i + 1);
      OwnersStay(index, parent, child, owner, i + 1);
    }
  }

  // ----- an internal row -----

  lemma {:induction false} InnerPage(index: Index, level: nat, isRoot: bool, parent: seq<nat>, child: seq<nat>,
                                     owner: seq<nat>, y: nat, st: Carried, i: nat, fuel: nat)
    returns (i': nat)
    requires Rows(index, level, isRoot, parent, child, owner) && y < |parent| && LowIsHigh(index, parent, y, st.lowKey)
    requires fuel > |child| && fuel >= |parent| && i <= |child| && Ready(index, child, i, st)
    requires var d := BtreeSearch.Start(index, parent, y); if i == 0 then d == 0 else owner[i - 1] + 1 == d
    ensures CheckPage(index, level, isRoot, LeftOf(P_NONE, parent, y), parent[y], y == 0, st, fuel).Ok?
    ensures var st' := CheckPage(index, level, isRoot, LeftOf(P_NONE, parent, y), parent[y], y == 0, st, fuel).value;
            y + 1 < |parent| ==>
              && i' <= |child| && Ready(index, child, i', st') && i' > 0 && LowIsHigh(index, parent, y + 1, st'.lowKey)
              && owner[i' - 1] + 1 == BtreeSearch.Start(index, parent, y + 1)
  {
    hide RowFrom, Owned, CheckItems, ChildrenAbove, LevelDowns;
    PageIsLive(index, level, isRoot, parent, y);
    i' := InnerItems(index, level, isRoot, parent, child, owner, y, 0, st, i, fuel);
  }

  lemma {:induction false} InnerRow(index: Index, level: nat, isRoot: bool, parent: seq<nat>, child: seq<nat>,
                                    owner: seq<nat>, y: nat, st: Carried, i: nat, fuel: nat, steps: nat)
    requires Rows(index, level, isRoot, parent, child, owner) && y < |parent| && LowIsHigh(index, parent, y, st.lowKey)
    requires fuel > |child| && fuel >= |parent| && steps >= |parent| - y && i <= |child| && Ready(index, child, i, st)
    requires var d := BtreeSearch.Start(index, parent, y); if i == 0 then d == 0 else owner[i - 1] + 1 == d
    ensures var link := DownFrom(P(index, parent[0]));
            var down := if y == 0 then None else Some(link);
            CheckLevel(index, level, isRoot, LeftOf(P_NONE, parent, y), parent[y], down, st, fuel, steps) ==
            Ok(Level(parent[y..], link))
    decreases |parent| - y
  {
    hide RowHealthy, Owned, CheckPage, ChildrenAbove, LevelDowns, DownFrom, Ready, LowIsHigh;
    PageIsLive(index, level, isRoot, parent, y);
    var i' := InnerPage(index, level, isRoot, parent, child, owner, y, st, i, fuel);
    if y + 1 == |parent| {
      assert parent[y..] == [parent[y]];
    } else {
      var st' := CheckPage(index, level, isRoot, LeftOf(P_NONE, parent, y), parent[y], y == 0, st, fuel).value;
      InnerRow(index, level, isRoot, parent, child, owner, y + 1, st', i', fuel, steps - 1);
      assert parent[y..] == [parent[y]] + parent[y + 1..];
    }
  }

  // ----- the whole check -----

  /** All rows are shorter than n. */
  predicate Within(levels: seq<seq<nat>>, n: nat) { forall j :: 0 <= j < |levels| ==> |levels[j]| < n }

  lemma {:induction false} HealthyTail(index: Index, levels: seq<seq<nat>>, top: nat, isRoot: bool)
    requires Healthy(index, levels, top, isRoot) && top > 0
    ensures Healthy(index, levels[1..], top - 1, false) && PairHealthy(index, levels[0], levels[1])
    ensures RowHealthy(index, top, isRoot, levels[0]) && RowHealthy(index, top - 1, false, levels[1])
  {
    hide RowHealthy, PairHealthy;
    var rest := levels[1..];
    assert RowHealthy(index, top - 0, isRoot && 0 == 0, levels[0]) && PairHealthy(index, levels[1 - 1], levels[1]);
    forall j | 0 <= j < |rest| ensures RowHealthy(index, top - 1 - j, false && j == 0, rest[j]) {
      assert RowHealthy(index, top - (j + 1), isRoot && j + 1 == 0, levels[j + 1]);
    }
    forall j | 0 < j < |rest| ensures PairHealthy(index, rest[j - 1], rest[j]) {
      assert PairHealthy(index, levels[j + 1 - 1], levels[j + 1]);
    }
    assert RowHealthy(index, top - 1 - 0, false && 0 == 0, rest[0]);
  }

  lemma {:induction false} RowAccepted(index: Index, level: nat, isRoot: bool, parent: seq<nat>, child: seq<nat>,
                                       fuel: nat, steps: nat)
    requires level > 0 && RowHealthy(index, level, isRoot, parent) && RowHealthy(index, level - 1, false, child)
    requires PairHealthy(index, parent, child) && fuel > |child| && fuel > |parent| && steps > |parent|
    ensures parent != [] && child != [] && child[0] != P_NONE
    ensures CheckLevel(index, level, isRoot, P_NONE, parent[0], None, START, fuel, steps) == Ok(Level(parent, child[0]))
  {
    hide RowFrom, Owned, CheckLevel, LevelDowns;
    var owner :| Owned(index, parent, child, owner);
    FirstOfRow(index, level, P_NONE, parent);
    FirstOfRow(index, level - 1, P_NONE, child);
    InnerRow(index, level, isRoot, parent, child, owner, 0, START, 0, fuel, steps);
    PageIsLive(index, level, isRoot, parent, 0);
    OwnedBlock(index, parent, child, owner, 0);
    BtreeSearch.DownNumbered(index, parent, 0, 0);
    assert parent[0..] == parent;
  }

  /** At bounds above the lengths of its rows, the check accepts a healthy index and returns its rows. */
  lemma {:induction false} HealthyIsAccepted(index: Index, levels: seq<seq<nat>>, level: nat, isRoot: bool, fuel: nat,
                                             steps: nat)
    requires Healthy(index, levels, level, isRoot) && Within(levels, fuel) && Within(levels, steps)
    ensures levels[0] != [] && CheckTree(index, levels[0][0], level, isRoot, fuel, steps) == Ok(levels)
    decreases level
  {
    hide CheckLevel, RowHealthy, PairHealthy, Healthy;
    if level == 0 {
      LeafRowAccepted(index, levels, isRoot, fuel, steps);
    } else {
      HealthyTail(index, levels, level, isRoot);
      HealthyCount(index, levels, level, isRoot);
      RowAccepted(index, level, isRoot, levels[0], levels[1], fuel, steps);
      NotNoneAtStart(index, level, isRoot, levels[0]);
      assert levels[1..][0] == levels[1];
      HealthyIsAccepted(index, levels[1..], level - 1, false, fuel, steps);
      assert levels == [levels[0]] + levels[1..];
    }
  }

  lemma {:induction false} HealthyCount(index: Index, levels: seq<seq<nat>>, level: nat, isRoot: bool)
    requires Healthy(index, levels, level, isRoot)
    ensures |levels| == level + 1
  {
    hide RowHealthy, PairHealthy;
  }

  lemma {:induction false} NotNoneAtStart(index: Index, level: nat, isRoot: bool, chain: seq<nat>)
    requires RowHealthy(index, level, isRoot, chain)
    ensures chain != [] && chain[0] != P_NONE
  {
    hide RowFrom;
    FirstOfRow(index, level, P_NONE, chain);
  }

  lemma {:induction false} LeafRowAccepted(index: Index, levels: seq<seq<nat>>, isRoot: bool, fuel: nat, steps: nat)
    requires Healthy(index, levels, 0, isRoot) && Within(levels, fuel) && Within(levels, steps)
    ensures levels[0] != [] && CheckTree(index, levels[0][0], 0, isRoot, fuel, steps) == Ok(levels)
  {
    hide CheckLevel, RowHealthy, PairHealthy;
    assert RowHealthy(index, 0 - 0, isRoot && 0 == 0, levels[0]);
    NotNoneAtStart(index, 0, isRoot, levels[0]);
    LeafRow(index, isRoot, levels[0], 0, START, fuel, steps);
    assert levels[0][0..] == levels[0] && levels == [levels[0]];
  }

  lemma {:induction false} HealthyIsClean(index: Index, levels: seq<seq<nat>>, top: nat, isRoot: bool)
    requires Healthy(index, levels, top, isRoot)
    ensures InnerClean(index, levels, top)
  {
    hide RowHealthy, PairHealthy, NoneIgnored, FirstLinksReal;
    forall j | 0 <= j < |levels| && j < top ensures NoneIgnored(index, levels[j]) && FirstLinksReal(index, levels[j]) {
      assert RowHealthy(index, top - j, isRoot && j == 0, levels[j]);
      assert RowHealthy(index, top - (j + 1), isRoot && j + 1 == 0, levels[j + 1]);
      assert PairHealthy(index, levels[j + 1 - 1], levels[j + 1]);
      RowIsClean(index, top - j, isRoot && j == 0, levels[j], levels[j + 1]);
    }
  }

  lemma {:induction false} RowIsClean(index: Index, level: nat, isRoot: bool, parent: seq<nat>, child: seq<nat>)
    requires level > 0 && RowHealthy(index, level, isRoot, parent) && RowHealthy(index, level - 1, false, child)
    requires PairHealthy(index, parent, child)
    ensures NoneIgnored(index, parent) && FirstLinksReal(index, parent)
  {
    hide RowFrom, Owned, ChildrenAbove, LevelDowns;
    var owner :| Owned(index, parent, child, owner);
    forall b | b in parent ensures b in index && !Ignored(index[b]) && FirstLinkReal(index[b]) {
      var y :| 0 <= y < |parent| && parent[y] == b;
      PageIsLive(index, level, isRoot, parent, y);
      BtreeSearch.DownNumbered(index, parent, y, 0);
      LinkIsReal(index, level - 1, parent, child, owner, BtreeSearch.Start(index, parent, y));
    }
  }

  lemma {:induction false} LinkIsReal(index: Index, level: nat, parent: seq<nat>, child: seq<nat>, owner: seq<nat>,
                                      d: nat)
    requires Owned(index, parent, child, owner) && RowFrom(index, level, P_NONE, child)
    requires d < |LevelDowns(index, parent)|
    ensures LevelDowns(index, parent)[d].link != P_NONE
  {
    hide RowFrom, LevelDowns, MayBeMissed;
    var e := ChildAt(index, parent, child, owner, d);
    NotNone(index, level, child, e);
  }

  lemma {:induction false} ChildAt(index: Index, parent: seq<nat>, child: seq<nat>, owner: seq<nat>, d: nat)
    returns (e: nat)
    requires Owned(index, parent, child, owner) && d < |LevelDowns(index, parent)|
    ensures e < |child| && owner[e] == d && child[e] == LevelDowns(index, parent)[d].link
    decreases d
  {
    hide LevelDowns, MayBeMissed;
    if d == 0 {
      e := 0;
      OwnedBlock(index, parent, child, owner, 0);
    } else {
      var i := ChildAt(index, parent, child, owner, d - 1);
      e := NextChild(index, parent, child, owner, i + 1, d);
      OwnedBlock(index, parent, child, owner, e);
    }
  }

  /** Exactly which indexes are accepted: at bounds above the lengths of the rows, the check returns these rows, with
      live pages and real first downlinks above the leaves, if and only if the pages are healthy in these rows. */
  lemma {:induction false} AcceptedIffHealthy(index: Index, leftmost: nat, level: nat, isRoot: bool, fuel: nat,
                                              steps: nat, levels: seq<seq<nat>>)
    requires leftmost != P_NONE && Within(levels, fuel) && Within(levels, steps)
    ensures CheckTree(index, leftmost, level, isRoot, fuel, steps) == Ok(levels) && InnerClean(index, levels, level)
            <==>
            Healthy(index, levels, level, isRoot) && levels[0] != [] && levels[0][0] == leftmost
  {
    hide CheckTree, Healthy, InnerClean, Within;
    if CheckTree(index, leftmost, level, isRoot, fuel, steps) == Ok(levels) && InnerClean(index, levels, level) {
      AcceptedIsHealthy(index, leftmost, level, isRoot, fuel, steps);
    }
    if Healthy(index, levels, level, isRoot) {
      HealthyCount(index, levels, level, isRoot);
      HealthyIsAccepted(index, levels, level, isRoot, fuel, steps);
      HealthyIsClean(index, levels, level, isRoot);
    }
  }

  // ----- an example -----

  /** Three leaves, of which the middle one is half-dead. */
  const AROUND_HALF_DEAD: Index :=
    map[1 := NO_PAGE.(next := 2, root := true, high := Some(5), items := [Item(4, 0)]),
        2 := NO_PAGE.(prev := 1, next := 3, halfDead := true, high := Some(7)),
        3 := NO_PAGE.(prev := 2, items := [Item(8, 0)])]

  lemma {:induction false} HalfDeadIsPassed(fuel: nat, steps: nat)
    requires fuel > 3 && steps > 3
    ensures CheckTree(AROUND_HALF_DEAD, 1, 0, true, fuel, steps) == Ok([[1, 2, 3]])
  {
    var index, chain := AROUND_HALF_DEAD, [1, 2, 3];
    assert KeyBehind(index, chain, 1) == Some(8);
    assert KeyBehind(index, chain, 0) == Some(8);
    assert BlockOk(index, 0, P_NONE, chain, 0);
    assert BlockOk(index, 0, P_NONE, chain, 1);
    assert BlockOk(index, 0, P_NONE, chain, 2);
    assert RowFrom(index, 0, P_NONE, chain);
    assert Healthy(index, [chain], 0, true);
    HealthyIsAccepted(index, [chain], 0, true, fuel, steps);
  }

  /** Two internal pages with a half-dead leaf between them, over two leaves. */
  const HALF_DEAD_ABOVE: Index :=
    map[1 := NO_PAGE.(next := 2, level := 1, leaf := false, root := true, high := Some(5), items := [Item(0, 4)]),
        2 := NO_PAGE.(prev := 1, next := 3, halfDead := true, high := Some(5)),
        3 := NO_PAGE.(prev := 2, level := 1, leaf := false, items := [Item(0, 5)]),
        4 := NO_PAGE.(next := 5, high := Some(5), items := [Item(4, 0)]),
        5 := NO_PAGE.(prev := 4, items := [Item(8, 0)])]

  /** The level of an ignorable page is not tested: a half-dead leaf passes above the leaves. */
  lemma {:induction false} HalfDeadAboveIsPassed(fuel: nat, steps: nat)
    requires fuel > 2 && steps > 3
    ensures CheckTree(HALF_DEAD_ABOVE, 1, 1, true, fuel, steps) == Ok([[1, 2, 3], [4, 5]])
    ensures !Healthy(HALF_DEAD_ABOVE, [[1, 2, 3], [4, 5]], 1, true)
  {
    hide Healthy, CheckLevel;
    HalfDeadTop(fuel, steps);
    HalfDeadLeaves(fuel, steps);
    assert [[1, 2, 3]] + [[4, 5]] == [[1, 2, 3], [4, 5]];
    assert !BlockOk(HALF_DEAD_ABOVE, 1, P_NONE, [1, 2, 3], 1);
    if Healthy(HALF_DEAD_ABOVE, [[1, 2, 3], [4, 5]], 1, true) {
      HealthyTail(HALF_DEAD_ABOVE, [[1, 2, 3], [4, 5]], 1, true);
    }
  }

  lemma {:induction false} HalfDeadLeaves(fuel: nat, steps: nat)
    requires fuel > 2 && steps > 3
    ensures CheckTree(HALF_DEAD_ABOVE, 4, 0, false, fuel, steps) == Ok([[4, 5]])
  {
    var index, chain := HALF_DEAD_ABOVE, [4, 5];
    assert KeyBehind(index, chain, 0) == Some(8);
    assert BlockOk(index, 0, P_NONE, chain, 0);
    assert BlockOk(index, 0, P_NONE, chain, 1);
    assert RowFrom(index, 0, P_NONE, chain);
    assert Healthy(index, [chain], 0, false);
    HealthyIsAccepted(index, [chain], 0, false, fuel, steps);
  }

  lemma {:induction false} HalfDeadTop(fuel: nat, steps: nat)
    requires fuel > 2 && steps > 3
    ensures CheckLevel(HALF_DEAD_ABOVE, 1, true, P_NONE, 1, None, START, fuel, steps) == Ok(Level([1, 2, 3], 4))
  {
    hide CheckItems;
    var index := HALF_DEAD_ABOVE;
    var st := Carried(Some(5), 5, false);
    HalfDeadItems(fuel);
    assert CheckPage(index, 1, true, P_NONE, 1, true, START, fuel) == Ok(st);
    assert CheckPage(index, 1, true, 1, 2, false, st, fuel) == Ok(st);
    assert CheckPage(index, 1, true, 2, 3, false, st, fuel) == Ok(START);
    assert CheckLevel(index, 1, true, 2, 3, Some(4), st, fuel, steps - 2) == Ok(Level([3], 4));
    assert [2] + [3] == [2, 3] && [1] + [2, 3] == [1, 2, 3];
    assert CheckLevel(index, 1, true, 1, 2, Some(4), st, fuel, steps - 1) == Ok(Level([2, 3], 4));
  }

  lemma {:induction false} HalfDeadItems(fuel: nat)
    requires fuel > 2
    ensures CheckItems(HALF_DEAD_ABOVE, HALF_DEAD_ABOVE[1], 0, START, fuel) == Ok(Carried(None, 5, false))
    ensures CheckItems(HALF_DEAD_ABOVE, HALF_DEAD_ABOVE[3], 0, Carried(Some(5), 5, false), fuel) ==
            Ok(Carried(Some(5), INVALID_BLOCK, false))
  {
    var index := HALF_DEAD_ABOVE;
    var p1, p3 := index[1], index[3];
    var st, end := Carried(Some(5), 5, false), Carried(Some(5), P_NONE, false);
    assert ChildHighKeyCheck(index, p1, Some(0), START, fuel) == Ok(Carried(None, 5, false));
    assert CheckItems(index, p1, 1, Carried(None, 5, false), fuel) == Ok(Carried(None, 5, false));
    assert ChildHighKeyCheck(index, p3, Some(0), st, fuel) == Ok(end);
    assert CheckItems(index, p3, 1, end, fuel) == Ok(Carried(Some(5), INVALID_BLOCK, false));
  }
}
