/**
 * Which indexes bt_index_parent_check accepts, said of their pages alone: rows of pages with agreeing links and ordered
 * keys, where half-dead leaves may stand between live ones, each row mirrored by the one below.
 */
module BtreeHealth {
  import opened Options
  import opened BtreeCheck
  import opened BtreeLockstep
  import opened BtreeVerdict
  import BtreeSearch

  function P(index: Index, b: nat): Page { BtreeSearch.PageOf(index, b) }

  // ----- one page -----

  /** A block with a page that is in use. */
  ghost predicate Formed(index: Index, b: nat) {
    && b in index && b != P_NONE && b != INVALID_BLOCK
    && var p := index[b];
    && !p.deleted && (p.leaf <==> p.level == 0) && (!p.leaf ==> p.items != [] && !p.halfDead)
    && (p.next != P_NONE ==> p.high.Some?)
  }

  /** The first item with a key of its own: on an internal page the first item is minus infinity. */
  function FirstReal(p: Page): nat { if p.leaf then 0 else 1 }

  /** The keys increase and stay within the high key; only a leaf key may equal it. */
  ghost predicate KeysOrdered(p: Page) {
    && (forall i, j :: FirstReal(p) <= i < j < |p.items| ==> p.items[i].key < p.items[j].key)
    && (p.next != P_NONE && p.high.Some? ==>
          forall i :: FirstReal(p) <= i < |p.items| ==>
            if p.leaf then p.items[i].key <= p.high.value else p.items[i].key < p.high.value)
  }

  /** Each separator is below all keys of the child behind it. */
  ghost predicate ChildrenAbove(index: Index, p: Page) {
    !p.leaf ==> forall i :: 1 <= i < |p.items| ==> ChildAbove(index, p, i)
  }

  ghost predicate ChildAbove(index: Index, p: Page, i: nat)
    requires i < |p.items|
  {
    var c := P(index, p.items[i].link);
    forall k :: FirstReal(c) <= k < |c.items| ==> p.items[i].key < c.items[k].key
  }

  // ----- one row -----

  /** The first real key on the live pages behind position i. */
  function KeyBehind(index: Index, chain: seq<nat>, i: nat): Option<int>
    requires i < |chain|
    decreases |chain| - i
  {
    if i + 1 == |chain| then None
    else
      var q := P(index, chain[i + 1]);
      if q.halfDead then KeyBehind(index, chain, i + 1)
      else if FirstReal(q) < |q.items| then Some(q.items[FirstReal(q)].key) else None
  }

  /** The last key of the page is below the first one of the next live page. */
  ghost predicate BelowNextLive(index: Index, chain: seq<nat>, i: nat)
    requires i < |chain|
  {
    var p, k := P(index, chain[i]), KeyBehind(index, chain, i);
    FirstReal(p) < |p.items| && k.Some? ==> p.items[|p.items| - 1].key < k.value
  }

  function LeftOf(left: nat, chain: seq<nat>, i: nat): nat
    requires i < |chain|
  {
    if i == 0 then left else chain[i - 1]
  }

  /** A block of a row: its links, and if it is live its level and its keys.  A half-dead leaf stands between others. */
  ghost predicate BlockOk(index: Index, level: nat, left: nat, chain: seq<nat>, i: nat)
    requires i < |chain|
  {
    var b, p := chain[i], P(index, chain[i]);
    && Formed(index, b) && p.next == (if i + 1 < |chain| then chain[i + 1] else P_NONE)
    && b != LeftOf(left, chain, i) && b != p.prev
    && if p.halfDead then level == 0 && i + 1 < |chain|
       else
         && p.prev == LeftOf(left, chain, i) && p.level == level
         && KeysOrdered(p) && ChildrenAbove(index, p) && BelowNextLive(index, chain, i)
  }

  ghost predicate RowFrom(index: Index, level: nat, left: nat, chain: seq<nat>) {
    chain != [] && forall i :: 0 <= i < |chain| ==> BlockOk(index, level, left, chain, i)
  }

  ghost predicate RowHealthy(index: Index, level: nat, isRoot: bool, chain: seq<nat>) {
    && RowFrom(index, level, P_NONE, chain)
    && !P(index, chain[0]).halfDead && (isRoot ==> P(index, chain[0]).root)
  }

  // ----- two rows -----

  ghost predicate PathStep(index: Index, level: nat, path: seq<nat>, i: nat)
    requires i + 1 < |path|
  {
    var p := P(index, path[i]);
    !p.leaf && p.items != [] && p.level + i + 1 == level && path[i + 1] == p.items[0].link
  }

  /** The first downlinks from `path[0]` down lead to a half-dead leaf that names blk as the top of its deletion. */
  ghost predicate DeletionPath(index: Index, blk: nat, level: nat, path: seq<nat>) {
    && path != []
    && (forall i :: 0 <= i < |path| ==> Read(index, path[i]).Some?)
    && (forall i :: 0 <= i < |path| - 1 ==> PathStep(index, level, path, i))
    && var q := P(index, path[|path| - 1]);
    q.leaf && q.halfDead && !q.deleted && q.next != P_NONE && q.topParent == blk
  }

  ghost predicate BeingDeleted(index: Index, b: nat) {
    var p := P(index, b);
    !p.leaf && p.items != [] &&
    exists path :: path != [] && path[0] == p.items[0].link && DeletionPath(index, b, p.level, path)
  }

  /** Why block b may have no downlink, standing behind block a. */
  ghost predicate MayBeMissed(index: Index, a: nat, b: nat) {
    P(index, a).incompleteSplit || P(index, b).root || P(index, b).halfDead || BeingDeleted(index, b)
  }

  /** The i-th child belongs to the downlink owner[i], which leads to it or to a block before it. */
  ghost predicate OwnedAt(index: Index, downs: seq<Down>, child: seq<nat>, owner: seq<nat>, i: nat)
    requires i < |child| == |owner|
  {
    var p := P(index, child[i]);
    && owner[i] < |downs|
    && (p.incompleteSplit || p.next == P_NONE || (downs[owner[i]].sep.Some? && p.high == downs[owner[i]].sep))
    && if i == 0 then owner[0] == 0 && child[0] == downs[0].link
       else if owner[i] == owner[i - 1] then MayBeMissed(index, child[i - 1], child[i])
       else owner[i] == owner[i - 1] + 1 && child[i] == downs[owner[i]].link
  }

  ghost predicate Owned(index: Index, parent: seq<nat>, child: seq<nat>, owner: seq<nat>) {
    && |child| == |owner| && child != [] && owner[|child| - 1] + 1 == |LevelDowns(index, parent)|
    && forall i :: 0 <= i < |child| ==> OwnedAt(index, LevelDowns(index, parent), child, owner, i)
  }

  /** The children stand in the order of the downlinks, each with the following separator as its high key unless it is
      split; a child without a downlink has an excuse. */
  ghost predicate PairHealthy(index: Index, parent: seq<nat>, child: seq<nat>) {
    exists owner :: Owned(index, parent, child, owner)
  }

  ghost predicate Healthy(index: Index, levels: seq<seq<nat>>, top: nat, isRoot: bool) {
    && |levels| == top + 1
    && (forall j :: 0 <= j < |levels| ==> RowHealthy(index, top - j, isRoot && j == 0, levels[j]))
    && (forall j :: 0 < j < |levels| ==> PairHealthy(index, levels[j - 1], levels[j]))
  }

  // ----- pages and rows as the code sees them -----

  lemma {:induction false} FormedIsRead(index: Index, b: nat)
    ensures Formed(index, b) <==> Read(index, b).Some? && !index[b].deleted
  {
  }

  lemma {:induction false} OrderedIff(p: Page)
    requires p.next != P_NONE ==> p.high.Some?
    ensures KeysOrdered(p) <==> forall i :: 0 <= i < |p.items| && !NegativeInfinity(p, i) ==> ItemOk(p, i)
  {
    if forall i :: 0 <= i < |p.items| && !NegativeInfinity(p, i) ==> ItemOk(p, i) {
      forall i, j | FirstReal(p) <= i < j < |p.items| ensures p.items[i].key < p.items[j].key { Chained(p, i, j); }
      forall i | FirstReal(p) <= i < |p.items| && p.next != P_NONE
        ensures if p.leaf then p.items[i].key <= p.high.value else p.items[i].key < p.high.value
      {
        assert ItemOk(p, i);
      }
    }
  }

  lemma {:induction false} Chained(p: Page, i: nat, j: nat)
    requires forall k :: 0 <= k < |p.items| && !NegativeInfinity(p, k) ==> ItemOk(p, k)
    requires FirstReal(p) <= i < j < |p.items|
    ensures p.items[i].key < p.items[j].key
    decreases j
  {
    assert ItemOk(p, j - 1);
    if i < j - 1 { Chained(p, i, j - 1); }
  }

  /** Following right links to the end, no block comes twice. */
  lemma {:induction false} RowDistinct(index: Index, level: nat, left: nat, chain: seq<nat>, i: nat, j: nat)
    requires RowFrom(index, level, left, chain) && i < j < |chain|
    ensures chain[i] != chain[j]
    decreases |chain| - j
  {
    hide KeysOrdered, ChildrenAbove, BelowNextLive;
    assert BlockOk(index, level, left, chain, i) && BlockOk(index, level, left, chain, j);
    assert BlockOk(index, level, left, chain, i + 1);
    if j + 1 < |chain| { RowDistinct(index, level, left, chain, i + 1, j + 1); }
  }

  /** The key that bt_right_page_check_scankey finds. */
  lemma {:induction false} RightKeyIs(index: Index, level: nat, left: nat, chain: seq<nat>, i: nat, fuel: nat)
    requires RowFrom(index, level, left, chain) && i + 1 < |chain|
    ensures fuel >= |chain| ==> RightKey(index, chain[i + 1], fuel) == Ok(KeyBehind(index, chain, i))
    ensures RightKey(index, chain[i + 1], fuel).Ok? ==>
              RightKey(index, chain[i + 1], fuel).value == KeyBehind(index, chain, i)
  {
    RightKeyFrom(index, level, left, chain, i, fuel);
  }

  lemma {:induction false} RightKeyFrom(index: Index, level: nat, left: nat, chain: seq<nat>, i: nat, fuel: nat)
    requires RowFrom(index, level, left, chain) && i + 1 < |chain|
    ensures fuel >= |chain| - i - 1 ==> RightKey(index, chain[i + 1], fuel) == Ok(KeyBehind(index, chain, i))
    ensures RightKey(index, chain[i + 1], fuel).Ok? ==>
              RightKey(index, chain[i + 1], fuel).value == KeyBehind(index, chain, i)
    decreases |chain| - i
  {
    hide KeysOrdered, ChildrenAbove, BelowNextLive;
    assert BlockOk(index, level, left, chain, i + 1);
    FormedIsRead(index, chain[i + 1]);
    var q := index[chain[i + 1]];
    assert P(index, chain[i + 1]) == q && Read(index, chain[i + 1]) == Some(q);
    if q.halfDead {
      if fuel > 0 {
        assert BlockOk(index, level, left, chain, i + 2);
        RightKeyFrom(index, level, left, chain, i + 1, fuel - 1);
      }
      assert KeyBehind(index, chain, i) == KeyBehind(index, chain, i + 1);
    }
  }

  lemma {:induction false} Shift(index: Index, b: nat, rest: seq<nat>, i: nat)
    requires i < |rest|
    ensures KeyBehind(index, [b] + rest, i + 1) == KeyBehind(index, rest, i)
    decreases |rest| - i
  {
    if i + 1 < |rest| {
      assert ([b] + rest)[i + 2] == rest[i + 1];
      Shift(index, b, rest, i + 1);
    }
  }

  /** The rest of a row is a row. */
  lemma {:induction false} RowCons(index: Index, level: nat, left: nat, b: nat, rest: seq<nat>)
    requires RowFrom(index, level, b, rest) && BlockOk(index, level, left, [b] + rest, 0)
    ensures RowFrom(index, level, left, [b] + rest)
  {
    hide Formed, KeysOrdered, ChildrenAbove, KeyBehind;
    var chain := [b] + rest;
    forall i | 0 < i < |chain| ensures BlockOk(index, level, left, chain, i) {
      assert BlockOk(index, level, b, rest, i - 1);
      Shift(index, b, rest, i - 1);
      assert chain[i] == rest[i - 1];
    }
  }

  // ----- an accepted row is healthy -----

  /** What the code has tested of a live page. */
  lemma {:induction false} LivePage(index: Index, level: nat, isRoot: bool, left: nat, b: nat, isFirst: bool,
                                    st: Carried, fuel: nat)
    requires CheckPage(index, level, isRoot, left, b, isFirst, st, fuel).Ok? && b in index
    ensures var p := index[b];
            && Formed(index, b) && b != left && b != p.prev && (p.halfDead ==> p.next != P_NONE)
            && (!p.halfDead ==>
                  && p.prev == left && p.level == level && KeysOrdered(p)
                  && (isFirst ==> p.prev == P_NONE && (isRoot ==> p.root))
                  && (forall i :: FirstReal(p) <= i < |p.items| ==> ItemOk(p, i) && (!p.leaf ==> ChildOk(index, p, i)))
                  && CheckItems(index, p, 0, st, fuel).Ok?)
  {
    hide CheckItems, ItemOk, ChildOk, KeysOrdered;
    var p := index[b];
    FormedIsRead(index, b);
    if !p.halfDead {
      ItemsSound(index, p, 0, st, fuel);
      OrderedIff(p);
    }
  }

  lemma {:induction false} AboveOf(index: Index, p: Page)
    requires forall i :: FirstReal(p) <= i < |p.items| ==> !p.leaf ==> ChildOk(index, p, i)
    ensures ChildrenAbove(index, p)
  {
    if !p.leaf {
      forall i | 1 <= i < |p.items| ensures ChildAbove(index, p, i) { assert ChildOk(index, p, i); }
    }
  }

  /** The comparison with the page to the right, whatever stands between. */
  lemma {:induction false} LastOrder(index: Index, p: Page, i: nat, st: Carried, fuel: nat)
    requires i < |p.items| && CheckItems(index, p, i, st, fuel).Ok? && FirstReal(p) < |p.items|
    ensures CheckOrder(index, p, |p.items| - 1, fuel).Ok?
    decreases |p.items| - i
  {
    hide CheckOrder, ChildOk, ChildHighKeyCheck, Read;
    if i + 1 < |p.items| {
      var r := if p.leaf then Ok(st) else CheckChild(index, p, i, st, fuel);
      LastOrder(index, p, i + 1, r.value, fuel);
    }
  }

  lemma {:induction false} LastIsBelowNextLive(index: Index, level: nat, b: nat, rest: seq<nat>, fuel: nat)
    requires RowFrom(index, level, b, rest) && b in index && index[b].next == rest[0] && rest[0] != P_NONE
    requires FirstReal(index[b]) < |index[b].items| ==> CheckOrder(index, index[b], |index[b].items| - 1, fuel).Ok?
    ensures BelowNextLive(index, [b] + rest, 0)
  {
    hide RowFrom, KeyBehind, RightKey, ItemOk;
    var p := index[b];
    if FirstReal(p) < |p.items| {
      RightOfFirst(index, level, b, rest, fuel);
    }
  }

  lemma {:induction false} RightOfFirst(index: Index, level: nat, b: nat, rest: seq<nat>, fuel: nat)
    requires RowFrom(index, level, b, rest)
    ensures RightKey(index, rest[0], fuel).Ok? ==>
              RightKey(index, rest[0], fuel).value == KeyBehind(index, [b] + rest, 0)
    ensures fuel > |rest| ==> RightKey(index, rest[0], fuel) == Ok(KeyBehind(index, [b] + rest, 0))
  {
    hide KeysOrdered, ChildrenAbove, BelowNextLive;
    assert BlockOk(index, level, b, rest, 0);
    FormedIsRead(index, rest[0]);
    assert ([b] + rest)[1] == rest[0];
    var q := index[rest[0]];
    assert P(index, rest[0]) == q && Read(index, rest[0]) == Some(q);
    if q.halfDead {
      Shift(index, b, rest, 0);
      if fuel > 0 {
        assert BlockOk(index, level, b, rest, 1);
        RightKeyFrom(index, level, b, rest, 0, fuel - 1);
      }
    }
  }

  lemma {:induction false} AcceptedRow(index: Index, level: nat, isRoot: bool, left: nat, b: nat, down: Option<nat>,
                                       st: Carried, fuel: nat, steps: nat)
    requires CheckLevel(index, level, isRoot, left, b, down, st, fuel, steps).Ok?
    requires var r := CheckLevel(index, level, isRoot, left, b, down, st, fuel, steps);
             level > 0 ==> NoneIgnored(index, r.value.chain)
    ensures var chain := CheckLevel(index, level, isRoot, left, b, down, st, fuel, steps).value.chain;
            RowFrom(index, level, left, chain) && chain[0] == b
    decreases steps
  {
    hide CheckPage, DownFrom, KeysOrdered, ChildrenAbove, RowFrom, Formed, BelowNextLive, FirstReal, ItemOk, ChildOk;
    var l := CheckLevel(index, level, isRoot, left, b, down, st, fuel, steps).value;
    var p, rest := index[b], l.chain[1..];
    assert l.chain == [b] + rest && b in l.chain;
    LivePage(index, level, isRoot, left, b, down.None?, st, fuel);
    if !p.halfDead { AboveOf(index, p); }
    if !Rightmost(p) {
      var st' := CheckPage(index, level, isRoot, left, b, down.None?, st, fuel).value;
      var down' := if down.None? && !Ignored(p) then Some(DownFrom(p)) else down;
      assert rest == CheckLevel(index, level, isRoot, b, p.next, down', st', fuel, steps - 1).value.chain;
      forall c | c in rest ensures c in l.chain {}
      AcceptedRow(index, level, isRoot, b, p.next, down', st', fuel, steps - 1);
      FirstOfRow(index, level, b, rest);
      if !p.halfDead { LiveIsBelow(index, level, b, rest, st, fuel); }
      BlockFirst(index, level, left, b, rest);
      RowCons(index, level, left, b, rest);
    } else {
      AloneIsBelow(index, b);
      assert rest == [];
      BlockFirst(index, level, left, b, []);
      assert [b] + [] == [b];
      RowOfOne(index, level, left, b);
    }
  }

  lemma {:induction false} FirstOfRow(index: Index, level: nat, left: nat, chain: seq<nat>)
    requires RowFrom(index, level, left, chain)
    ensures chain != [] && chain[0] != P_NONE
  {
    hide KeysOrdered, ChildrenAbove, BelowNextLive;
    assert BlockOk(index, level, left, chain, 0);
  }

  lemma {:induction false} LiveIsBelow(index: Index, level: nat, b: nat, rest: seq<nat>, st: Carried, fuel: nat)
    requires RowFrom(index, level, b, rest) && b in index && index[b].next == rest[0] && rest[0] != P_NONE
    requires CheckItems(index, index[b], 0, st, fuel).Ok?
    ensures BelowNextLive(index, [b] + rest, 0)
  {
    hide RowFrom, CheckItems, CheckOrder, BelowNextLive;
    var p := index[b];
    if FirstReal(p) < |p.items| { LastOrder(index, p, 0, st, fuel); }
    LastIsBelowNextLive(index, level, b, rest, fuel);
  }

  lemma {:induction false} AloneIsBelow(index: Index, b: nat)
    ensures BelowNextLive(index, [b], 0)
  {
  }

  lemma {:induction false} BlockFirst(index: Index, level: nat, left: nat, b: nat, rest: seq<nat>)
    requires Formed(index, b) && b in index && b != left && b != index[b].prev
    requires index[b].next == if rest == [] then P_NONE else rest[0]
    requires if index[b].halfDead then level == 0 && rest != []
             else && index[b].prev == left && index[b].level == level && KeysOrdered(index[b])
                  && ChildrenAbove(index, index[b]) && BelowNextLive(index, [b] + rest, 0)
    ensures BlockOk(index, level, left, [b] + rest, 0)
  {
    hide KeysOrdered, ChildrenAbove, BelowNextLive, Formed;
  }

  lemma {:induction false} RowOfOne(index: Index, level: nat, left: nat, b: nat)
    requires BlockOk(index, level, left, [b], 0)
    ensures RowFrom(index, level, left, [b])
  {
    hide BlockOk;
  }

  // ----- an accepted index is healthy -----

  /** A level whose first page is ignorable is not accepted: a live page behind it would have to be leftmost. */
  lemma {:induction false} NoLateStart(index: Index, level: nat, isRoot: bool, left: nat, b: nat, st: Carried,
                                       fuel: nat, steps: nat)
    requires left != P_NONE
    ensures !CheckLevel(index, level, isRoot, left, b, None, st, fuel, steps).Ok?
    decreases steps
  {
    hide CheckItems, Sane, DownFrom;
    var r := CheckPage(index, level, isRoot, left, b, true, st, fuel);
    if steps > 0 && r.Ok? && b in index {
      NoLateStart(index, level, isRoot, b, index[b].next, r.value, fuel, steps - 1);
    }
  }

  lemma {:induction false} FirstIsLive(index: Index, level: nat, isRoot: bool, b: nat, fuel: nat, steps: nat)
    requires CheckLevel(index, level, isRoot, P_NONE, b, None, START, fuel, steps).Ok?
    ensures b in index && !index[b].halfDead && (isRoot ==> index[b].root)
  {
    hide CheckItems, Sane, DownFrom, CheckLevel;
    FirstTurn(index, level, isRoot, b, fuel, steps);
    var st := CheckPage(index, level, isRoot, P_NONE, b, true, START, fuel).value;
    if index[b].halfDead { NoLateStart(index, level, isRoot, b, index[b].next, st, fuel, steps - 1); }
  }

  lemma {:induction false} FirstTurn(index: Index, level: nat, isRoot: bool, b: nat, fuel: nat, steps: nat)
    requires CheckLevel(index, level, isRoot, P_NONE, b, None, START, fuel, steps).Ok?
    ensures steps > 0 && b in index && b != P_NONE
    ensures var r := CheckPage(index, level, isRoot, P_NONE, b, true, START, fuel);
            r.Ok? && (index[b].halfDead ==>
                        CheckLevel(index, level, isRoot, b, index[b].next, None, r.value, fuel, steps - 1).Ok?)
  {
    hide CheckItems, DownFrom, Sane;
  }

  lemma {:induction false} PathOf(index: Index, blk: nat, child: nat, level: nat) returns (path: seq<nat>)
    requires Descends(index, blk, child, level)
    ensures path != [] && path[0] == child && DeletionPath(index, blk, level, path)
    decreases level
  {
    hide Sane;
    var c := index[child];
    if c.leaf {
      path := [child];
    } else {
      var more := PathOf(index, blk, c.items[0].link, c.level);
      path := [child] + more;
      forall i | 0 <= i < |path| - 1 ensures PathStep(index, level, path, i) {
        if i > 0 { assert PathStep(index, c.level, more, i - 1) && path[i] == more[i - 1] && path[i + 1] == more[i]; }
      }
      assert path[|path| - 1] == more[|more| - 1];
    }
  }

  lemma {:induction false} DescendsAlong(index: Index, blk: nat, level: nat, path: seq<nat>)
    requires path != [] && DeletionPath(index, blk, level, path)
    ensures Descends(index, blk, path[0], level)
    decreases |path|
  {
    hide Sane;
    assert Read(index, path[0]).Some?;
    if |path| > 1 {
      var rest, p := path[1..], P(index, path[0]);
      assert PathStep(index, level, path, 0);
      forall i | 0 <= i < |rest| ensures Read(index, rest[i]).Some? { assert rest[i] == path[i + 1]; }
      forall i | 0 <= i < |rest| - 1 ensures PathStep(index, p.level, rest, i) {
        assert PathStep(index, level, path, i + 1) && rest[i] == path[i + 1] && rest[i + 1] == path[i + 2];
      }
      assert rest[|rest| - 1] == path[|path| - 1];
      DescendsAlong(index, blk, p.level, rest);
    }
  }

  lemma {:induction false} DeletedIff(index: Index, b: nat)
    requires b in index
    ensures InterruptedDeletion(index, b, index[b]) <==> BeingDeleted(index, b)
  {
    hide Descends, DeletionPath;
    var p := index[b];
    if InterruptedDeletion(index, b, p) {
      var path := PathOf(index, b, p.items[0].link, p.level);
    }
    if BeingDeleted(index, b) {
      var path :| path != [] && path[0] == p.items[0].link && DeletionPath(index, b, p.level, path);
      DescendsAlong(index, b, p.level, path);
    }
  }

  lemma {:induction false} OwnedOf(index: Index, parent: seq<nat>, child: seq<nat>, owner: seq<nat>, level: nat)
    requires MirrorsBy(index, parent, child, owner) && RowFrom(index, level, P_NONE, child)
    ensures Owned(index, parent, child, owner)
  {
    hide KeysOrdered, ChildrenAbove, BelowNextLive, InterruptedDeletion, BeingDeleted;
    var downs := LevelDowns(index, parent);
    forall i | 0 <= i < |child| ensures OwnedAt(index, downs, child, owner, i) {
      assert StepOk(index, downs, child, owner, i);
      assert BlockOk(index, level, P_NONE, child, i);
      DeletedIff(index, child[i]);
    }
  }

  lemma {:induction false} MirroredIsHealthy(index: Index, parent: seq<nat>, child: seq<nat>, level: nat)
    requires Mirrors(index, parent, child) && RowFrom(index, level, P_NONE, child)
    ensures PairHealthy(index, parent, child)
  {
    hide MirrorsBy, RowFrom, Owned;
    var owner :| MirrorsBy(index, parent, child, owner);
    OwnedOf(index, parent, child, owner, level);
  }

  /** Above the leaves all pages are live and every first downlink leads to a block. */
  ghost predicate InnerClean(index: Index, levels: seq<seq<nat>>, top: nat) {
    forall j :: 0 <= j < |levels| && j < top ==> NoneIgnored(index, levels[j]) && FirstLinksReal(index, levels[j])
  }

  lemma {:induction false} HealthyCons(index: Index, chain: seq<nat>, rest: seq<seq<nat>>, top: nat, isRoot: bool)
    requires top > 0 && RowHealthy(index, top, isRoot, chain)
    requires Healthy(index, rest, top - 1, false) && PairHealthy(index, chain, rest[0])
    ensures Healthy(index, [chain] + rest, top, isRoot)
  {
    hide RowHealthy, PairHealthy;
    var all := [chain] + rest;
    forall j | 0 <= j < |all| ensures RowHealthy(index, top - j, isRoot && j == 0, all[j]) {
      if j > 0 { assert RowHealthy(index, top - 1 - (j - 1), false && j - 1 == 0, rest[j - 1]); }
    }
    forall j | 0 < j < |all| ensures PairHealthy(index, all[j - 1], all[j]) {
      if j > 1 { assert PairHealthy(index, rest[j - 1 - 1], rest[j - 1]); }
    }
  }

  lemma {:induction false} CleanTail(index: Index, chain: seq<nat>, rest: seq<seq<nat>>, top: nat)
    requires InnerClean(index, [chain] + rest, top) && top > 0
    ensures NoneIgnored(index, chain) && FirstLinksReal(index, chain) && InnerClean(index, rest, top - 1)
  {
    hide NoneIgnored, FirstLinksReal;
    var all := [chain] + rest;
    assert all[0] == chain;
    forall j | 0 <= j < |rest| && j < top - 1 ensures NoneIgnored(index, rest[j]) && FirstLinksReal(index, rest[j]) {
      assert all[j + 1] == rest[j];
    }
  }

  lemma {:induction false} AcceptedIsHealthy(index: Index, leftmost: nat, level: nat, isRoot: bool, fuel: nat,
                                             steps: nat)
    requires leftmost != P_NONE && CheckTree(index, leftmost, level, isRoot, fuel, steps).Ok?
    requires InnerClean(index, CheckTree(index, leftmost, level, isRoot, fuel, steps).value, level)
    ensures Healthy(index, CheckTree(index, leftmost, level, isRoot, fuel, steps).value, level, isRoot)
    ensures CheckTree(index, leftmost, level, isRoot, fuel, steps).value[0] != []
    ensures CheckTree(index, leftmost, level, isRoot, fuel, steps).value[0][0] == leftmost
    decreases level
  {
    hide CheckLevel, RowFrom, PairHealthy, Healthy, NoneIgnored, FirstLinksReal, InnerClean, ChainOk, Mirrors;
    var l := CheckLevel(index, level, isRoot, P_NONE, leftmost, None, START, fuel, steps).value;
    var all := CheckTree(index, leftmost, level, isRoot, fuel, steps).value;
    assert all == [l.chain] + all[1..];
    if level > 0 { CleanTail(index, l.chain, all[1..], level); }
    AcceptedRow(index, level, isRoot, P_NONE, leftmost, None, START, fuel, steps);
    FirstIsLive(index, level, isRoot, leftmost, fuel, steps);
    FirstOfRow(index, level, P_NONE, l.chain);
    if level == 0 {
      OneRow(index, l.chain, isRoot);
    } else {
      LevelIsChain(index, level, isRoot, P_NONE, leftmost, None, START, fuel, steps);
      FirstPage(index, level, l.chain);
      assert l.down != P_NONE by { FirstIsReal(index, l.chain); }
      AcceptedIsHealthy(index, l.down, level - 1, false, fuel, steps);
      var m := CheckLevel(index, level - 1, false, P_NONE, l.down, None, START, fuel, steps).value;
      assert all[1] == m.chain;
      LevelIsChain(index, level - 1, false, P_NONE, l.down, None, START, fuel, steps);
      LevelMirrored(index, level, isRoot, leftmost, fuel, steps, m.chain);
      RowOf(index, all[1..], level - 1, false);
      MirroredIsHealthy(index, l.chain, m.chain, level - 1);
      HealthyCons(index, l.chain, all[1..], level, isRoot);
    }
  }

  lemma {:induction false} OneRow(index: Index, chain: seq<nat>, isRoot: bool)
    requires RowHealthy(index, 0, isRoot, chain)
    ensures Healthy(index, [chain], 0, isRoot)
  {
    hide RowHealthy, PairHealthy;
  }

  lemma {:induction false} RowOf(index: Index, levels: seq<seq<nat>>, top: nat, isRoot: bool)
    requires Healthy(index, levels, top, isRoot)
    ensures levels != [] && RowFrom(index, top, P_NONE, levels[0])
  {
    hide RowFrom, PairHealthy;
    assert RowHealthy(index, top - 0, isRoot && 0 == 0, levels[0]);
  }
}
