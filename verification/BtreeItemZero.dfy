/**
 * Past the last downlink of a level bt_child_highkey_check has no key to match.  When it meets a page with a high
 * key there, it takes the item at offset zero, which is no item.  `BtreeWalk.CallReadsItemZeroIff` says exactly which
 * calls do; here are a whole check that does, and a condition on the index under which none does.
 */
module BtreeItemZero {
  import opened Options
  import opened BtreeCheck
  import opened BtreeVerdict
  import opened BtreeWalk

  /** No split is incomplete, all pages are live, and only pages of the top level are flagged as root. */
  ghost predicate Settled(index: Index, top: nat) {
    forall b :: b in index ==>
      !index[b].incompleteSplit && !Ignored(index[b]) && (index[b].root ==> index[b].level >= top)
  }

  lemma {:induction false} SettledCall(index: Index, target: Page, off: Option<nat>, st: Carried, fuel: nat, top: nat)
    requires off.Some? ==> off.value < |target.items|
    requires Settled(index, top) && target.level <= top && !st.prevSplit
    ensures var r := ChildHighKeyCheck(index, target, off, st, fuel);
            r != ReadsItemZero && (r.Ok? ==> !r.value.prevSplit)
  {
    hide Walk;
    SettledWalk(index, target, off, st, if st.prevRight == INVALID_BLOCK then Downlink(target, off) else st.prevRight,
                true, fuel, top);
  }

  /** A page without a downlink has no excuse in a settled index, so the error comes before the read. */
  lemma {:induction false} SettledWalk(index: Index, target: Page, off: Option<nat>, st: Carried, blk: nat, first: bool,
                                       fuel: nat, top: nat)
    requires off.Some? ==> off.value < |target.items|
    requires Settled(index, top) && target.level <= top
    ensures var r := Walk(index, target, off, st, blk, false, first, fuel);
            r != ReadsItemZero && (r.Ok? ==> !r.value.prevSplit)
    decreases fuel
  {
    hide Sane, ExpectedHigh, Descends;
    var r := Read(index, blk);
    if fuel > 0 && r.Some? && r.value.items != [] {
      NoDeletion(index, blk, r.value.items[0].link, r.value.level);
    }
    if fuel > 0 && r.Some? {
      SettledWalk(index, target, off, st, r.value.next, false, fuel - 1, top);
    }
  }

  lemma {:induction false} SettledItems(index: Index, target: Page, i: nat, st: Carried, fuel: nat, top: nat)
    requires Settled(index, top) && target.level <= top && !st.prevSplit && i <= |target.items|
    ensures var r := CheckItems(index, target, i, st, fuel);
            r != ReadsItemZero && (r.Ok? ==> !r.value.prevSplit)
    decreases |target.items| - i
  {
    hide Settled, ChildHighKeyCheck, ChildOk, ItemOk, Read;
    if i == |target.items| {
      SettledCall(index, target, None, st, fuel, top);
    } else {
      SettledCall(index, target, Some(i), st, fuel, top);
      OrderReadsKeys(index, target, i, fuel);
      var r := if target.leaf then Ok(st) else CheckChild(index, target, i, st, fuel);
      if r.Ok? { SettledItems(index, target, i + 1, r.value, fuel, top); }
    }
  }

  lemma {:induction false} OrderReadsKeys(index: Index, target: Page, i: nat, fuel: nat)
    requires i < |target.items|
    ensures CheckOrder(index, target, i, fuel) != ReadsItemZero
  {
    hide ItemOk, Read;
    RightKeyReadsKeys(index, target.next, fuel);
  }

  lemma {:induction false} RightKeyReadsKeys(index: Index, b: nat, fuel: nat)
    ensures RightKey(index, b, fuel) != ReadsItemZero
    decreases fuel
  {
    var r := Read(index, b);
    if fuel > 0 && r.Some? { RightKeyReadsKeys(index, r.value.next, fuel - 1); }
  }

  lemma {:induction false} SettledLevel(index: Index, level: nat, isRoot: bool, left: nat, b: nat, down: Option<nat>,
                                        st: Carried, fuel: nat, steps: nat, top: nat)
    requires Settled(index, top) && level <= top && !st.prevSplit
    ensures CheckLevel(index, level, isRoot, left, b, down, st, fuel, steps) != ReadsItemZero
    decreases steps
  {
    hide Settled, CheckItems, Sane;
    if b in index && !Ignored(index[b]) && index[b].level == level { SettledItems(index, index[b], 0, st, fuel, top); }
    var r := CheckPage(index, level, isRoot, left, b, down.None?, st, fuel);
    if steps > 0 && r.Ok? && b in index {
      var p := index[b];
      var down' := if down.None? && !Ignored(p) then Some(DownFrom(p)) else down;
      SettledLevel(index, level, isRoot, b, p.next, down', r.value, fuel, steps - 1, top);
    }
  }

  /** The check of a settled index never reads item zero. */
  lemma {:induction false} SettledNeverReadsItemZero(index: Index, leftmost: nat, level: nat, isRoot: bool, fuel: nat,
                                                     steps: nat, top: nat)
    requires Settled(index, top) && level <= top
    ensures CheckTree(index, leftmost, level, isRoot, fuel, steps) != ReadsItemZero
    decreases level
  {
    hide Settled, CheckLevel;
    SettledLevel(index, level, isRoot, P_NONE, leftmost, None, START, fuel, steps, top);
    var l := CheckLevel(index, level, isRoot, P_NONE, leftmost, None, START, fuel, steps);
    if l.Ok? && level > 0 {
      SettledNeverReadsItemZero(index, l.value.down, level - 1, false, fuel, steps, top);
    }
  }

  /** A root over an incompletely split leaf with two more leaves to its right. */
  function TwoBehindSplit(): Index {
    map[1 := Page(P_NONE, 2, 0, true, false, true, false, false, Some(1), 0, []),
        2 := Page(1, 3, 0, true, false, false, false, false, Some(2), 0, []),
        3 := Page(2, P_NONE, 0, true, false, false, false, false, None, 0, []),
        4 := Page(P_NONE, P_NONE, 1, false, true, false, false, false, None, 0, [Item(0, 1)])]
  }

  /** The check of this index reads item zero when it looks for the high key of block 2: the second call starts there
      and passes no page before. */
  lemma {:induction false} CheckReadsItemZero(fuel: nat, steps: nat)
    requires fuel > 0 && steps > 0
    ensures CheckTree(TwoBehindSplit(), 4, 1, true, fuel, steps) == ReadsItemZero
    ensures ReadsAt(Call(TwoBehindSplit(), TwoBehindSplit()[4], None, Carried(None, 2, true)), Spot(2, true, true), 0)
  {
    var index := TwoBehindSplit();
    var root, st := index[4], Carried(None, 2, true);
    var call: Call := Call(index, root, None, st);
    assert Read(index, 4) == Some(root) && Read(index, 1) == Some(index[1]) && Read(index, 2) == Some(index[2]);
    assert ChildHighKeyCheck(index, root, Some(0), START, fuel) == Ok(st);
    assert ReadsAt(call, FirstSpot(call), 0);
    CallReadsItemZeroIff(call, fuel);
    assert CheckItems(index, root, 1, st, fuel) == ReadsItemZero;
    assert CheckItems(index, root, 0, START, fuel) == ReadsItemZero;
  }
}
