/** The loops of verify_nbtree.c over the state they update, proved against the functions of BtreeCheck. */
module BtreeChecker {
  import opened Options
  import opened BtreeCheck

  /** How a call ends: it returns, it raises an error, it has used up its bound, or it has read item zero. */
  datatype Outcome = Returned | Raised | Unfinished | ReadZero

  function Ends<T>(v: Verdict<T>): Outcome {
    match v
    case Ok(_) => Returned
    case Corrupt => Raised
    case Undecided => Unfinished
    case ReadsItemZero => ReadZero
  }

  /** The verdict on a level of which the blocks `done` have been passed. */
  ghost function After(done: seq<nat>, v: Verdict<Level>): Verdict<Level> {
    if v.Ok? then Ok(Level(done + v.value.chain, v.value.down)) else v
  }

  ghost function Below(done: seq<seq<nat>>, v: Verdict<seq<seq<nat>>>): Verdict<seq<seq<nat>>> {
    if v.Ok? then Ok(done + v.value) else v
  }

  lemma {:induction false} AfterMore(done: seq<nat>, more: seq<nat>, v: Verdict<Level>)
    ensures After([], v) == v && After(done, After(more, v)) == After(done + more, v)
  {
    if v.Ok? {
      assert [] + v.value.chain == v.value.chain;
      assert done + (more + v.value.chain) == done + more + v.value.chain;
    }
  }

  lemma {:induction false} BelowMore(done: seq<seq<nat>>, more: seq<seq<nat>>, v: Verdict<seq<seq<nat>>>)
    ensures Below([], v) == v && Below(done, Below(more, v)) == Below(done + more, v)
  {
    if v.Ok? {
      assert [] + v.value == v.value;
      assert done + (more + v.value) == done + more + v.value;
    }
  }

  class BtreeCheckState {
    const index: Index
    var target: Page
    var lowKey: Option<int>
    var prevRight: nat
    var prevSplit: bool

    constructor (index: Index, target: Page)
      ensures this.index == index && Fields() == START
    {
      this.index, this.target := index, target;
      lowKey, prevRight, prevSplit := None, INVALID_BLOCK, false;
    }

    ghost function Fields(): Carried
      reads this
    {
      Carried(lowKey, prevRight, prevSplit)
    }

    /** bt_child_highkey_check. */
    method CheckChildHighKeys(off: Option<nat>, fuel: nat) returns (end: Outcome)
      requires off.Some? ==> off.value < |target.items|
      modifies `prevRight, `prevSplit
      ensures var r := ChildHighKeyCheck(index, target, off, old(Fields()), fuel);
        end == Ends(r) && (r.Ok? ==> Fields() == r.value)
    {
      hide ChildPageOk, ChildLinksOk, NeedsItemZero, ExpectedHigh;
      var blk, leftIsSplit, first, n := prevRight, prevSplit, true, fuel;
      var downlink := Downlink(target, off);
      if blk == INVALID_BLOCK {
        blk, leftIsSplit := downlink, false;
      }
      while true
        invariant Fields() == old(Fields())
        invariant ChildHighKeyCheck(index, target, off, Fields(), fuel) ==
                  Walk(index, target, off, Fields(), blk, leftIsSplit, first, n)
        decreases n
      {
        if blk == P_NONE && downlink == P_NONE {
          prevRight, prevSplit := INVALID_BLOCK, false;
          return Returned;
        }
        if n == 0 {
          return Unfinished;
        }
        var r := Read(index, blk);
        if r.None? {
          return Raised;
        }
        var p := r.value;
        var st := Carried(lowKey, prevRight, prevSplit);
        if ChildLinksOk(index, target, off, st, blk, p, leftIsSplit, first) && NeedsItemZero(p, off) {
          return ReadZero;
        }
        if !ChildPageOk(index, target, off, st, blk, p, leftIsSplit, first) {
          return Raised;
        }
        if blk == downlink {
          prevRight, prevSplit := p.next, p.incompleteSplit;
          return Returned;
        }
        blk, leftIsSplit, first, n := p.next, p.incompleteSplit, false, n - 1;
      }
    }

    /** bt_right_page_check_scankey, for a target that is not rightmost. */
    method FirstRightKey(fuel: nat) returns (r: Verdict<Option<int>>)
      ensures r == RightKey(index, target.next, fuel)
    {
      var blk, n := target.next, fuel;
      while n > 0
        invariant RightKey(index, target.next, fuel) == RightKey(index, blk, n)
      {
        var read := Read(index, blk);
        if read.None? {
          return Corrupt;
        }
        var p := read.value;
        if !Ignored(p) || Rightmost(p) {
          var first := if p.leaf then 0 else 1;
          return Ok(if first < |p.items| then Some(p.items[first].key) else None);
        }
        blk, n := p.next, n - 1;
      }
      r := Undecided;
    }

    /** bt_child_check. */
    method CheckDownlink(i: nat, fuel: nat) returns (end: Outcome)
      requires i < |target.items| && !NegativeInfinity(target, i)
      modifies `prevRight, `prevSplit
      ensures var r := CheckChild(index, target, i, old(Fields()), fuel);
        end == Ends(r) && (r.Ok? ==> Fields() == r.value)
    {
      hide ChildHighKeyCheck, Read;
      var read := Read(index, target.items[i].link);
      if read.None? {
        return Raised;
      }
      var child := read.value;
      end := CheckChildHighKeys(Some(i), fuel);
      if end.Returned? {
        if child.deleted {
          return Raised;
        }
        var k := if child.leaf then 0 else 1;
        while k < |child.items|
          invariant 0 <= k
          invariant forall m :: (if child.leaf then 0 else 1) <= m < |child.items| && m < k ==>
                      target.items[i].key < child.items[m].key
        {
          if child.items[k].key <= target.items[i].key {
            return Raised;
          }
          k := k + 1;
        }
      }
    }

    /** bt_target_page_check. */
    method CheckTarget(fuel: nat) returns (end: Outcome)
      modifies `prevRight, `prevSplit
      ensures var r := CheckItems(index, target, 0, old(Fields()), fuel);
        end == Ends(r) && (r.Ok? ==> Fields() == r.value)
    {
      hide ChildHighKeyCheck, CheckChild, RightKey;
      var i := 0;
      while i < |target.items|
        invariant i <= |target.items| && target == old(target)
        invariant CheckItems(index, target, 0, old(Fields()), fuel) == CheckItems(index, target, i, Fields(), fuel)
      {
        end := CheckItemOrder(i, fuel);
        if !end.Returned? {
          return;
        }
        if !target.leaf {
          if i == 0 {
            NegativeInfinityChild(index, target, Fields(), fuel);
            end := CheckChildHighKeys(Some(i), fuel);
          } else {
            end := CheckDownlink(i, fuel);
          }
          if !end.Returned? {
            return;
          }
        }
        i := i + 1;
      }
      end := Returned;
      if !target.leaf && Rightmost(target) {
        end := CheckChildHighKeys(None, fuel);
      }
    }

    /** The order tests within one turn of the item loop. */
    method CheckItemOrder(i: nat, fuel: nat) returns (end: Outcome)
      requires i < |target.items|
      ensures end == Ends(CheckOrder(index, target, i, fuel))
    {
      hide RightKey, ItemOk;
      if NegativeInfinity(target, i) {
        return Returned;
      }
      if !ItemOk(target, i) {
        return Raised;
      }
      if i + 1 < |target.items| || Rightmost(target) {
        return Returned;
      }
      var k := FirstRightKey(fuel);
      if k.Ok? && k.value.Some? && k.value.value <= target.items[i].key {
        return Raised;
      }
      end := Ends(k);
    }

    /** bt_check_level_from_leftmost; `chain` lists the blocks visited. */
    method CheckLevelFrom(leftmost: nat, level: nat, isRoot: bool, fuel: nat, steps: nat)
      returns (end: Outcome, down: nat, ghost chain: seq<nat>)
      requires lowKey == None
      modifies this
      ensures var r := CheckLevel(index, level, isRoot, P_NONE, leftmost, None, START, fuel, steps);
        end == Ends(r) && (r.Ok? ==> lowKey == None && r.value == Level(chain, down))
    {
      hide CheckPage, DownFrom;
      prevRight, prevSplit := INVALID_BLOCK, false;
      var left, cur, n := P_NONE, leftmost, steps;
      var next: Option<nat> := None;
      down, chain := P_NONE, [];
      AfterMore([], [], CheckLevel(index, level, isRoot, left, cur, next, Fields(), fuel, n));
      while n > 0
        invariant CheckLevel(index, level, isRoot, P_NONE, leftmost, None, START, fuel, steps) ==
                  After(chain, CheckLevel(index, level, isRoot, left, cur, next, Fields(), fuel, n))
      {
        end := CheckPageAt(level, isRoot, left, cur, next.None?, fuel);
        if !end.Returned? {
          return;
        }
        var p := index[cur];
        if next.None? && !Ignored(p) {
          next := Some(DownFrom(p));
        }
        if Rightmost(p) {
          lowKey, chain := None, chain + [cur];
          if next.None? {
            return Raised, P_NONE, chain;
          }
          down := next.value;
          return;
        }
        AfterMore(chain, [cur], CheckLevel(index, level, isRoot, cur, p.next, next, Fields(), fuel, n - 1));
        left, cur, n, chain := cur, p.next, n - 1, chain + [cur];
      }
      end := Unfinished;
    }

    /** One turn of the page loop: loads the target, checks it and keeps its high key as the next low key. */
    method CheckPageAt(level: nat, isRoot: bool, left: nat, cur: nat, isFirst: bool, fuel: nat) returns (end: Outcome)
      modifies this
      ensures var r := CheckPage(index, level, isRoot, left, cur, isFirst, old(Fields()), fuel);
        end == Ends(r) && (r.Ok? ==> Fields() == r.value && cur in index)
    {
      hide CheckItems;
      var read := Read(index, cur);
      if read.None? {
        return Raised;
      }
      target := read.value;
      if Ignored(target) {
        if target.deleted || Rightmost(target) {
          return Raised;
        }
      } else {
        if !LiveOk(target, level, isRoot, left, isFirst) {
          return Raised;
        }
        end := CheckTarget(fuel);
        if !end.Returned? {
          return;
        }
      }
      if cur == left || cur == target.prev {
        return Raised;
      }
      lowKey := if Rightmost(target) then None else target.high;
      end := Returned;
    }

    /** The level loop of bt_check_every_level; `levels` lists the blocks of each level. */
    method CheckEveryLevel(root: nat, level: nat, fuel: nat, steps: nat)
      returns (end: Outcome, ghost levels: seq<seq<nat>>)
      requires lowKey == None
      modifies this
      ensures var r := CheckTree(index, root, level, true, fuel, steps);
        end == Ends(r) && (r.Ok? ==> levels == r.value)
    {
      hide CheckLevel;
      var leftmost, at, isRoot := root, level, true;
      levels := [];
      BelowMore([], [], CheckTree(index, root, level, true, fuel, steps));
      while leftmost != P_NONE
        invariant lowKey == None
        invariant CheckTree(index, root, level, true, fuel, steps) ==
                  Below(levels, CheckTree(index, leftmost, at, isRoot, fuel, steps))
        decreases at, leftmost != P_NONE
      {
        var down: nat;
        ghost var chain: seq<nat>;
        end, down, chain := CheckLevelFrom(leftmost, at, isRoot, fuel, steps);
        if !end.Returned? {
          return;
        }
        if at > 0 && down != P_NONE {
          BelowMore(levels, [chain], CheckTree(index, down, at - 1, false, fuel, steps));
        }
        levels := levels + [chain];
        if at == 0 || down == P_NONE {
          return;
        }
        leftmost, at, isRoot := down, at - 1, false;
      }
      end := Returned;
    }
  }

  lemma {:induction false} NegativeInfinityChild(index: Index, target: Page, st: Carried, fuel: nat)
    requires target.items != [] && !target.leaf
    ensures CheckChild(index, target, 0, st, fuel) == ChildHighKeyCheck(index, target, Some(0), st, fuel)
  {
    hide ChildHighKeyCheck, ChildOk;
  }
}
