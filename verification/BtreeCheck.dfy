/**
 * The read-only check of amcheck (bt_index_parent_check): keys come from a total order, here
 * the integers, and all tuples are plain.  Walks that follow right links may not end on a
 * corrupt index; they carry a bound, and running out of it gives no verdict.
 */
module BtreeCheck {
  import opened Options

  const P_NONE: nat := 0
  const INVALID_BLOCK: nat := 0xffff_ffff

  /** A pivot tuple (separator and downlink) or a leaf tuple. */
  datatype Item = Item(key: int, link: nat)

  datatype Page = Page(prev: nat, next: nat, level: nat, leaf: bool, root: bool, incompleteSplit: bool,
                       halfDead: bool, deleted: bool, high: Option<int>, topParent: nat, items: seq<Item>)

  type Index = map<nat, Page>

  const NO_PAGE: Page := Page(P_NONE, P_NONE, 0, true, false, false, false, false, None, 0, [])

  predicate Ignored(p: Page) { p.halfDead || p.deleted }

  predicate Rightmost(p: Page) { p.next == P_NONE }

  /** What palloc_btree_page insists on. */
  predicate Sane(p: Page) {
    && (!p.deleted ==> (p.leaf <==> p.level == 0))
    && (!p.leaf && !p.deleted ==> p.items != [] && (!Rightmost(p) ==> p.high.Some?))
    && (p.leaf && !p.deleted && !Rightmost(p) ==> p.high.Some?)
    && (!p.leaf ==> !p.halfDead)
  }

  /** palloc_btree_page for a block other than the metapage; anything else is an error. */
  function Read(index: Index, b: nat): Option<Page> {
    if b in index && b != P_NONE && b != INVALID_BLOCK && Sane(index[b]) then Some(index[b]) else None
  }

  /** The fields of BtreeCheckState that are carried from call to call. */
  datatype Carried = Carried(lowKey: Option<int>, prevRight: nat, prevSplit: bool)

  /** The check returns, raises an error, has used up its bound, or has read the item at offset zero, which is
      no item. */
  datatype Verdict<T> = Ok(value: T) | Corrupt | Undecided | ReadsItemZero

  /** The verdict of a caller whose callee did not return. */
  function PassOn<T, U>(v: Verdict<T>): Verdict<U>
    requires !v.Ok?
  {
    match v
    case Corrupt => Corrupt
    case Undecided => Undecided
    case ReadsItemZero => ReadsItemZero
  }

  // ----- missing downlinks -----

  /** The descent of bt_downlink_missing_check: does the leftmost leaf below name `blk` as
      the top of an interrupted multi-level deletion? */
  predicate Descends(index: Index, blk: nat, child: nat, level: nat)
    decreases level
  {
    match Read(index, child)
    case None => false
    case Some(c) =>
      if c.leaf then !c.deleted && c.halfDead && !Rightmost(c) && c.topParent == blk
      else c.level + 1 == level && c.items != [] && Descends(index, blk, c.items[0].link, c.level)
  }

  predicate InterruptedDeletion(index: Index, blk: nat, p: Page) {
    !p.leaf && p.items != [] && Descends(index, blk, p.items[0].link, p.level)
  }

  /** bt_downlink_missing_check raises no error. */
  predicate MayLackDownlink(index: Index, blk: nat, p: Page, leftIsSplit: bool) {
    p.root || leftIsSplit || InterruptedDeletion(index, blk, p)
  }

  // ----- walking the child level -----

  function Downlink(target: Page, off: Option<nat>): nat
    requires off.Some? ==> off.value < |target.items|
  {
    if off.Some? then target.items[off.value].link else P_NONE
  }

  /** The parent key that a complete child's high key must equal, if there is one. */
  function ExpectedHigh(target: Page, off: Option<nat>, atDownlink: bool, lowKey: Option<int>): Option<int>
    requires off.Some? ==> off.value < |target.items|
  {
    if off.None? then None
    else if atDownlink then
      if off.value + 1 < |target.items| then Some(target.items[off.value + 1].key)
      else if Rightmost(target) then None else target.high
    else if off.value == 0 then lowKey
    else Some(target.items[off.value].key)
  }

  /** The tests on the links and the level of one page of the child level. */
  predicate ChildLinksOk(index: Index, target: Page, off: Option<nat>, st: Carried, blk: nat, p: Page,
                         leftIsSplit: bool, first: bool)
    requires off.Some? ==> off.value < |target.items|
  {
    && (first && st.prevRight == INVALID_BLOCK ==> p.prev == P_NONE)
    && (!Ignored(p) ==> p.level + 1 == target.level)
    && !(!first && blk == st.prevRight) && blk != p.prev
    && (blk != Downlink(target, off) && !Ignored(p) ==> MayLackDownlink(index, blk, p, leftIsSplit))
  }

  /** A page with a high key to match, met past the last downlink of the level: the offset of the key is zero. */
  predicate NeedsItemZero(p: Page, off: Option<nat>) { off.None? && !p.incompleteSplit && !Rightmost(p) }

  /** The tests that bt_child_highkey_check makes on one page of the child level. */
  predicate ChildPageOk(index: Index, target: Page, off: Option<nat>, st: Carried, blk: nat, p: Page,
                        leftIsSplit: bool, first: bool)
    requires off.Some? ==> off.value < |target.items|
  {
    && ChildLinksOk(index, target, off, st, blk, p, leftIsSplit, first)
    && (!p.incompleteSplit && !Rightmost(p) ==>
          p.high.Some? && ExpectedHigh(target, off, blk == Downlink(target, off), st.lowKey) == p.high)
  }

  /** The loop of bt_child_highkey_check. */
  function Walk(index: Index, target: Page, off: Option<nat>, st: Carried, blk: nat, leftIsSplit: bool, first: bool,
                fuel: nat): Verdict<Carried>
    requires off.Some? ==> off.value < |target.items|
    decreases fuel
  {
    if blk == P_NONE && Downlink(target, off) == P_NONE then Ok(st.(prevRight := INVALID_BLOCK, prevSplit := false))
    else if fuel == 0 then Undecided
    else
      match Read(index, blk)
      case None => Corrupt
      case Some(p) =>
        if ChildLinksOk(index, target, off, st, blk, p, leftIsSplit, first) && NeedsItemZero(p, off) then ReadsItemZero
        else if !ChildPageOk(index, target, off, st, blk, p, leftIsSplit, first) then Corrupt
        else if blk == Downlink(target, off) then Ok(st.(prevRight := p.next, prevSplit := p.incompleteSplit))
        else Walk(index, target, off, st, p.next, p.incompleteSplit, false, fuel - 1)
  }

  /** bt_child_highkey_check for the downlink at `off`, or past the last one of the level. */
  function ChildHighKeyCheck(index: Index, target: Page, off: Option<nat>, st: Carried, fuel: nat): Verdict<Carried>
    requires off.Some? ==> off.value < |target.items|
  {
    if st.prevRight == INVALID_BLOCK then Walk(index, target, off, st, Downlink(target, off), false, true, fuel)
    else Walk(index, target, off, st, st.prevRight, st.prevSplit, true, fuel)
  }

  /** bt_child_check: the child is not deleted and the separator is below all its keys. */
  predicate ChildOk(index: Index, target: Page, i: nat)
    requires i < |target.items|
  {
    match Read(index, target.items[i].link)
    case None => false
    case Some(c) =>
      !c.deleted && forall k :: (if c.leaf then 0 else 1) <= k < |c.items| ==> target.items[i].key < c.items[k].key
  }

  // ----- one target page -----

  /** bt_right_page_check_scankey: the first real key to the right, if there is one. */
  function RightKey(index: Index, blk: nat, fuel: nat): Verdict<Option<int>>
    decreases fuel
  {
    if fuel == 0 then Undecided
    else
      match Read(index, blk)
      case None => Corrupt
      case Some(p) =>
        if Ignored(p) && !Rightmost(p) then RightKey(index, p.next, fuel - 1)
        else if p.leaf && p.items != [] then Ok(Some(p.items[0].key))
        else if !p.leaf && |p.items| > 1 then Ok(Some(p.items[1].key))
        else Ok(None)
  }

  /** The order tests of bt_target_page_check on the item at i. */
  predicate ItemOk(target: Page, i: nat)
    requires i < |target.items|
  {
    && (!Rightmost(target) ==>
          target.high.Some? &&
          if target.leaf then target.items[i].key <= target.high.value else target.items[i].key < target.high.value)
    && (i + 1 < |target.items| ==> target.items[i].key < target.items[i + 1].key)
  }

  predicate NegativeInfinity(target: Page, i: nat) { !target.leaf && i == 0 }

  /** The order tests, and for the last item the comparison with the page to the right. */
  function CheckOrder(index: Index, target: Page, i: nat, fuel: nat): Verdict<bool>
    requires i < |target.items|
  {
    if NegativeInfinity(target, i) then Ok(true)
    else if !ItemOk(target, i) then Corrupt
    else if i + 1 < |target.items| || Rightmost(target) then Ok(true)
    else
      var right := RightKey(index, target.next, fuel);
      if !right.Ok? then PassOn(right)
      else if right.value.Some? && right.value.value <= target.items[i].key then Corrupt
      else Ok(true)
  }

  /** bt_child_check, and for the negative infinity item its high key part alone. */
  function CheckChild(index: Index, target: Page, i: nat, st: Carried, fuel: nat): Verdict<Carried>
    requires i < |target.items|
  {
    if !NegativeInfinity(target, i) && Read(index, target.items[i].link).None? then Corrupt
    else
      var r := ChildHighKeyCheck(index, target, Some(i), st, fuel);
      if r.Ok? && !NegativeInfinity(target, i) && !ChildOk(index, target, i) then Corrupt else r
  }

  /** The item loop of bt_target_page_check from the item at i on. */
  function CheckItems(index: Index, target: Page, i: nat, st: Carried, fuel: nat): Verdict<Carried>
    requires i <= |target.items|
    decreases |target.items| - i
  {
    if i == |target.items| then
      if !target.leaf && Rightmost(target) then ChildHighKeyCheck(index, target, None, st, fuel) else Ok(st)
    else
      var order := CheckOrder(index, target, i, fuel);
      if !order.Ok? then PassOn(order)
      else
        var r := if target.leaf then Ok(st) else CheckChild(index, target, i, st, fuel);
        if r.Ok? then CheckItems(index, target, i + 1, r.value, fuel) else r
  }

  // ----- levels -----

  /** The chain of blocks visited on a level, and the leftmost block of the level below. */
  datatype Level = Level(chain: seq<nat>, down: nat)

  /** What bt_check_level_from_leftmost asks of a live page before looking inside. */
  predicate LiveOk(p: Page, level: nat, isRoot: bool, left: nat, isFirst: bool) {
    && (isFirst ==> p.prev == P_NONE && (isRoot ==> p.root))
    && p.prev == left && p.level == level
  }

  /** One turn of the page loop: `st.lowKey` becomes the high key of the page. */
  function CheckPage(index: Index, level: nat, isRoot: bool, left: nat, b: nat, isFirst: bool, st: Carried, fuel: nat)
    : Verdict<Carried>
  {
    match Read(index, b)
    case None => Corrupt
    case Some(p) =>
      var r := if Ignored(p) then if p.deleted || Rightmost(p) then Corrupt else Ok(st)
               else if !LiveOk(p, level, isRoot, left, isFirst) then Corrupt
               else CheckItems(index, p, 0, st, fuel);
      if !r.Ok? then r
      else if b == left || b == p.prev then Corrupt
      else Ok(r.value.(lowKey := if Rightmost(p) then None else p.high))
  }

  /** Where the next level starts: the first downlink of an internal page, nowhere below a leaf. */
  function DownFrom(p: Page): nat {
    if p.leaf || p.items == [] then P_NONE else p.items[0].link
  }

  /** The page loop of bt_check_level_from_leftmost from block b on. */
  function CheckLevel(index: Index, level: nat, isRoot: bool, left: nat, b: nat, down: Option<nat>, st: Carried,
                      fuel: nat, steps: nat): Verdict<Level>
    decreases steps
  {
    if steps == 0 then Undecided
    else
      var r := CheckPage(index, level, isRoot, left, b, down.None?, st, fuel);
      if !r.Ok? then PassOn(r)
      else if b !in index then Corrupt
      else
        var p := index[b];
        var down' := if down.None? && !Ignored(p) then Some(DownFrom(p)) else down;
        if Rightmost(p) then
          if down'.None? then Corrupt else Ok(Level([b], down'.value))
        else
          var rest := CheckLevel(index, level, isRoot, b, p.next, down', r.value, fuel, steps - 1);
          if rest.Ok? then Ok(Level([b] + rest.value.chain, rest.value.down)) else rest
  }

  const START: Carried := Carried(None, INVALID_BLOCK, false)

  /** The level loop of bt_check_every_level: the chains of blocks, root level first. */
  function CheckTree(index: Index, leftmost: nat, level: nat, isRoot: bool, fuel: nat, steps: nat)
    : Verdict<seq<seq<nat>>>
    decreases level
  {
    if leftmost == P_NONE then Ok([])
    else
      var l := CheckLevel(index, level, isRoot, P_NONE, leftmost, None, START, fuel, steps);
      if !l.Ok? then PassOn(l)
      else if level == 0 || l.value.down == P_NONE then Ok([l.value.chain])
      else
        var rest := CheckTree(index, l.value.down, level - 1, false, fuel, steps);
        if rest.Ok? then Ok([l.value.chain] + rest.value) else rest
  }
}
