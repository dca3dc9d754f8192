/** When the loops of the check end: on live pages always, if the sibling links agree. */
module BtreeTermination {
  import opened Options
  import opened BtreeCheck
  import opened Sets

  // ----- following links that agree -----

  ghost predicate TrackAt(index: Index, seen: seq<nat>, i: nat)
    requires i < |seen|
  {
    && seen[i] in index && seen[i] != P_NONE
    && (i > 0 ==> index[seen[i]].prev == seen[i - 1])
  }

  /** Blocks met one after the other, each with the one before it as its left sibling. */
  ghost predicate Track(index: Index, seen: seq<nat>) {
    forall i :: 0 <= i < |seen| ==> TrackAt(index, seen, i)
  }

  /** The first block is not met again. */
  ghost predicate NoReturn(seen: seq<nat>) {
    forall j :: 0 < j < |seen| ==> seen[j] != seen[0]
  }

  lemma {:induction false} TrackIsDistinct(index: Index, seen: seq<nat>, i: nat, j: nat)
    requires Track(index, seen) && NoReturn(seen) && i < j < |seen|
    ensures seen[i] != seen[j]
    decreases i
  {
    assert TrackAt(index, seen, i) && TrackAt(index, seen, j);
    if i > 0 {
      TrackIsDistinct(index, seen, i - 1, j - 1);
    }
  }

  lemma {:induction false} TrackMore(index: Index, seen: seq<nat>, b: nat)
    requires Track(index, seen) && NoReturn(seen) && b in index && b != P_NONE
    requires seen != [] ==> index[b].prev == seen[|seen| - 1] && b != seen[0]
    ensures Track(index, seen + [b]) && NoReturn(seen + [b])
  {
    forall i | 0 <= i < |seen| + 1 ensures TrackAt(index, seen + [b], i) {
      assert i < |seen| ==> TrackAt(index, seen, i);
    }
  }

  ghost function Blocks(seen: seq<nat>, n: nat): (s: set<nat>)
    requires n <= |seen|
    ensures forall b :: b in s ==> exists i :: 0 <= i < n && seen[i] == b
  {
    if n == 0 then {} else Blocks(seen, n - 1) + {seen[n - 1]}
  }

  lemma {:induction false} TrackIsShort(index: Index, seen: seq<nat>)
    requires Track(index, seen) && NoReturn(seen)
    ensures |seen| <= |index|
  {
    var n := |seen|;
    TrackCount(index, seen, n);
    forall b | b in Blocks(seen, n) ensures b in index {
      var i :| 0 <= i < n && seen[i] == b;
      assert TrackAt(index, seen, i);
    }
    SubsetSize(Blocks(seen, n), index.Keys);
  }

  lemma {:induction false} TrackCount(index: Index, seen: seq<nat>, n: nat)
    requires Track(index, seen) && NoReturn(seen) && n <= |seen|
    ensures |Blocks(seen, n)| == n
  {
    hide Track, NoReturn;
    if n > 0 {
      TrackCount(index, seen, n - 1);
      forall i | 0 <= i < n - 1 ensures seen[i] != seen[n - 1] {
        TrackIsDistinct(index, seen, i, n - 1);
      }
      assert seen[n - 1] !in Blocks(seen, n - 1);
    }
  }

  // ----- the walk along the child level -----

  /** A page and its right sibling name each other. */
  ghost predicate SiblingsAgree(index: Index) {
    forall b :: b in index && index[b].next in index ==> index[index[b].next].prev == b
  }

  /** The walk of one call has met `seen` and stands at blk. */
  ghost predicate Walking(index: Index, st: Carried, seen: seq<nat>, blk: nat) {
    && Track(index, seen) && NoReturn(seen)
    && if seen == [] then st.prevRight == INVALID_BLOCK || blk == st.prevRight
       else
         && seen[|seen| - 1] in index && index[seen[|seen| - 1]].next == blk && seen[0] in index
         && (seen[0] == st.prevRight || index[seen[0]].prev == P_NONE)
  }

  /** A block that passes is a new one: it is not where the walk began. */
  lemma {:induction false} WalkingMore(index: Index, target: Page, off: Option<nat>, st: Carried, seen: seq<nat>,
                                       blk: nat, leftIsSplit: bool)
    requires off.Some? ==> off.value < |target.items|
    requires SiblingsAgree(index) && Walking(index, st, seen, blk) && Read(index, blk).Some?
    requires ChildLinksOk(index, target, off, st, blk, index[blk], leftIsSplit, seen == [])
    ensures Walking(index, st, seen + [blk], index[blk].next)
  {
    hide MayLackDownlink, Sane;
    if seen != [] {
      var last := seen[|seen| - 1];
      assert TrackAt(index, seen, |seen| - 1);
      assert index[index[last].next].prev == last;
    }
    TrackMore(index, seen, blk);
  }

  lemma {:induction false} WalkDecides(index: Index, target: Page, off: Option<nat>, st: Carried, blk: nat,
                                       leftIsSplit: bool, fuel: nat, seen: seq<nat>)
    requires off.Some? ==> off.value < |target.items|
    requires SiblingsAgree(index) && Walking(index, st, seen, blk) && |seen| + fuel > |index|
    ensures Walk(index, target, off, st, blk, leftIsSplit, seen == [], fuel) != Undecided
    decreases fuel
  {
    hide ChildLinksOk, ExpectedHigh, SiblingsAgree, NeedsItemZero, Sane;
    TrackIsShort(index, seen);
    var r := Read(index, blk);
    if r.Some? && ChildLinksOk(index, target, off, st, blk, r.value, leftIsSplit, seen == []) {
      WalkingMore(index, target, off, st, seen, blk, leftIsSplit);
      WalkDecides(index, target, off, st, index[blk].next, index[blk].incompleteSplit, fuel - 1, seen + [blk]);
    }
  }

  /** If sibling links agree, every call of bt_child_highkey_check ends within one page per block. */
  lemma {:induction false} ChildWalkEnds(index: Index, target: Page, off: Option<nat>, st: Carried, fuel: nat)
    requires off.Some? ==> off.value < |target.items|
    requires SiblingsAgree(index) && fuel > |index|
    ensures ChildHighKeyCheck(index, target, off, st, fuel) != Undecided
  {
    hide Walk, SiblingsAgree;
    if st.prevRight == INVALID_BLOCK {
      WalkDecides(index, target, off, st, Downlink(target, off), false, fuel, []);
    } else {
      WalkDecides(index, target, off, st, st.prevRight, st.prevSplit, fuel, []);
    }
  }

  // ----- the page loop and the whole check -----

  ghost predicate AllLive(index: Index) { forall b :: b in index ==> !Ignored(index[b]) }

  lemma {:induction false} OrderDecides(index: Index, target: Page, i: nat, fuel: nat)
    requires AllLive(index) && i < |target.items| && fuel > 0
    ensures CheckOrder(index, target, i, fuel) != Undecided
  {
    hide ItemOk, Sane;
  }

  lemma {:induction false} ItemsDecide(index: Index, target: Page, i: nat, st: Carried, fuel: nat)
    requires SiblingsAgree(index) && AllLive(index) && fuel > |index| && i <= |target.items|
    ensures CheckItems(index, target, i, st, fuel) != Undecided
    decreases |target.items| - i
  {
    hide SiblingsAgree, AllLive, CheckOrder, ChildHighKeyCheck, ChildOk, Read;
    if i == |target.items| {
      ChildWalkEnds(index, target, None, st, fuel);
    } else {
      OrderDecides(index, target, i, fuel);
      ChildWalkEnds(index, target, Some(i), st, fuel);
      var r := if target.leaf then Ok(st) else CheckChild(index, target, i, st, fuel);
      if r.Ok? { ItemsDecide(index, target, i + 1, r.value, fuel); }
    }
  }

  lemma {:induction false} PageDecides(index: Index, level: nat, isRoot: bool, left: nat, b: nat, isFirst: bool,
                                       st: Carried, fuel: nat)
    requires SiblingsAgree(index) && AllLive(index) && fuel > |index|
    ensures CheckPage(index, level, isRoot, left, b, isFirst, st, fuel) != Undecided
  {
    hide SiblingsAgree, AllLive, CheckItems, Sane;
    if b in index {
      ItemsDecide(index, index[b], 0, st, fuel);
    }
  }

  /** A page that passes has the one before it as its left sibling, or none if it is the first. */
  lemma {:induction false} PageAgrees(index: Index, level: nat, isRoot: bool, left: nat, b: nat, isFirst: bool,
                                      st: Carried, fuel: nat)
    requires CheckPage(index, level, isRoot, left, b, isFirst, st, fuel).Ok? && b in index && !Ignored(index[b])
    ensures b != P_NONE && index[b].prev == left
  {
    hide CheckItems;
  }

  /** The page loop has met `seen`, from the leftmost page on, and comes from `left`. */
  ghost predicate Looping(index: Index, seen: seq<nat>, left: nat) {
    && Track(index, seen) && NoReturn(seen)
    && if seen == [] then left == P_NONE
       else left == seen[|seen| - 1] && seen[0] in index && index[seen[0]].prev == P_NONE
  }

  lemma {:induction false} LoopingMore(index: Index, seen: seq<nat>, left: nat, b: nat)
    requires Looping(index, seen, left) && b in index && b != P_NONE && index[b].prev == left
    ensures Looping(index, seen + [b], b)
  {
    if seen != [] {
      assert TrackAt(index, seen, |seen| - 1);
    }
    TrackMore(index, seen, b);
  }

  /** With live pages only, the page loop ends within one turn per block: a larger bound changes nothing. */
  lemma {:induction false} PageLoopEnds(index: Index, level: nat, isRoot: bool, left: nat, b: nat, down: Option<nat>,
                                        st: Carried, fuel: nat, m: nat, n: nat, seen: seq<nat>)
    requires AllLive(index) && Looping(index, seen, left)
    requires |seen| + m > |index| && |seen| + n > |index|
    ensures CheckLevel(index, level, isRoot, left, b, down, st, fuel, m) ==
            CheckLevel(index, level, isRoot, left, b, down, st, fuel, n)
    decreases m
  {
    hide CheckPage, Ignored, Rightmost, DownFrom, Track, NoReturn;
    TrackIsShort(index, seen);
    var r := CheckPage(index, level, isRoot, left, b, down.None?, st, fuel);
    if r.Ok? && b in index && !Rightmost(index[b]) {
      var p := index[b];
      PageAgrees(index, level, isRoot, left, b, down.None?, st, fuel);
      LoopingMore(index, seen, left, b);
      var down' := if down.None? && !Ignored(p) then Some(DownFrom(p)) else down;
      PageLoopEnds(index, level, isRoot, b, p.next, down', r.value, fuel, m - 1, n - 1, seen + [b]);
    }
  }

  lemma {:induction false} LevelDecides(index: Index, level: nat, isRoot: bool, left: nat, b: nat, down: Option<nat>,
                                        st: Carried, fuel: nat, steps: nat, seen: seq<nat>)
    requires SiblingsAgree(index) && AllLive(index) && fuel > |index|
    requires Looping(index, seen, left) && |seen| + steps > |index|
    ensures CheckLevel(index, level, isRoot, left, b, down, st, fuel, steps) != Undecided
    decreases steps
  {
    hide CheckPage, Ignored, Rightmost, DownFrom, Track, NoReturn, SiblingsAgree;
    TrackIsShort(index, seen);
    PageDecides(index, level, isRoot, left, b, down.None?, st, fuel);
    var r := CheckPage(index, level, isRoot, left, b, down.None?, st, fuel);
    if r.Ok? && b in index && !Rightmost(index[b]) {
      var p := index[b];
      PageAgrees(index, level, isRoot, left, b, down.None?, st, fuel);
      LoopingMore(index, seen, left, b);
      var down' := if down.None? && !Ignored(p) then Some(DownFrom(p)) else down;
      LevelDecides(index, level, isRoot, b, p.next, down', r.value, fuel, steps - 1, seen + [b]);
    }
  }

  /** On live pages whose sibling links agree the whole check comes to a verdict. */
  lemma {:induction false} CheckEnds(index: Index, leftmost: nat, level: nat, isRoot: bool, fuel: nat, steps: nat)
    requires SiblingsAgree(index) && AllLive(index) && fuel > |index| && steps > |index|
    ensures CheckTree(index, leftmost, level, isRoot, fuel, steps) != Undecided
    decreases level
  {
    hide CheckLevel, SiblingsAgree, AllLive;
    LevelDecides(index, level, isRoot, P_NONE, leftmost, None, START, fuel, steps, []);
    var l := CheckLevel(index, level, isRoot, P_NONE, leftmost, None, START, fuel, steps);
    if l.Ok? && level > 0 {
      CheckEnds(index, l.value.down, level - 1, false, fuel, steps);
    }
  }

  // ----- a check that does not end -----

  function SplitLeaf(prev: nat, next: nat): Page {
    Page(prev, next, 0, true, false, true, false, false, Some(0), 0, [])
  }

  function RootOver(child: nat): Page {
    Page(P_NONE, P_NONE, 1, false, true, false, false, false, None, 0, [Item(0, child)])
  }

  /** A root over incompletely split leaves, the last of which links back to the one before it. */
  function Circle(): Index {
    map[1 := SplitLeaf(P_NONE, 2), 2 := SplitLeaf(1, 3), 3 := SplitLeaf(2, 4), 4 := SplitLeaf(3, 3), 5 := RootOver(1)]
  }

  const PAST_FIRST: Carried := Carried(None, 2, true)

  lemma {:induction false} CircleGoesOn(b: nat, fuel: nat)
    requires b in {3, 4}
    ensures Walk(Circle(), RootOver(1), None, PAST_FIRST, b, true, false, fuel) == Undecided
    decreases fuel
  {
    if fuel > 0 {
      assert Read(Circle(), b) == Some(Circle()[b]);
      CircleGoesOn(Circle()[b].next, fuel - 1);
    }
  }

  /** The check of this index has no verdict, whatever the bounds: the test for circular links compares with the
      first block of the walk and with left links only. */
  lemma {:induction false} CheckMayNotEnd(fuel: nat, steps: nat)
    ensures CheckTree(Circle(), 5, 1, true, fuel, steps) == Undecided
    ensures !SiblingsAgree(Circle())
  {
    var index, root := Circle(), RootOver(1);
    assert Read(index, 5) == Some(root) && Read(index, 1) == Some(index[1]) && Read(index, 2) == Some(index[2]);
    assert index[4].next in index && index[index[4].next].prev != 4;
    if fuel > 0 && steps > 0 {
      assert ChildHighKeyCheck(index, root, Some(0), START, fuel) == Ok(PAST_FIRST);
      CircleGoesOn(3, fuel - 1);
      assert ChildHighKeyCheck(index, root, None, PAST_FIRST, fuel) == Undecided;
      assert CheckItems(index, root, 1, PAST_FIRST, fuel) == Undecided;
      assert CheckItems(index, root, 0, START, fuel) == Undecided;
    }
  }
}
