/**
 * The descent from the root that bt_rootdescend makes for a leaf key, on an index that the check accepts.
 * Separators before the first item of a page are not kept, so bt_child_check cannot test the keys of the first child
 * against the high key of the page to the left of its parent.
 */
module BtreeSearch {
  import opened Options
  import opened BtreeCheck
  import opened BtreeLockstep
  import opened BtreeVerdict
  import opened BtreeItemZero

  // ----- the descent -----

  /** _bt_moveright stays on the page. */
  predicate Admits(p: Page, k: int) { Rightmost(p) || (p.high.Some? && k <= p.high.value) }

  /** The last of the first n items whose key is below k; the first one counts as minus infinity. */
  function LastBelow(p: Page, n: nat, k: int): (i: nat)
    requires 0 < n <= |p.items|
    ensures i < n && (i > 0 ==> p.items[i].key < k)
  {
    if n == 1 || p.items[n - 1].key < k then n - 1 else LastBelow(p, n - 1, k)
  }

  /** The real items of an internal page increase and are below its high key. */
  ghost predicate Ordered(p: Page) {
    && (forall i, j :: 1 <= i < j < |p.items| ==> p.items[i].key < p.items[j].key)
    && (forall i :: 1 <= i < |p.items| && !Rightmost(p) ==> p.high.Some? && p.items[i].key < p.high.value)
  }

  lemma {:induction false} LastBelowIs(p: Page, n: nat, k: int, i: nat)
    requires Ordered(p) && i < n <= |p.items| && (i > 0 ==> p.items[i].key < k)
    requires forall j :: i < j < n ==> k <= p.items[j].key
    ensures LastBelow(p, n, k) == i
  {
    if n > i + 1 { LastBelowIs(p, n - 1, k, i); }
  }

  /** _bt_binsrch on an internal page. */
  method BinSearch(p: Page, k: int) returns (i: nat)
    requires p.items != [] && Ordered(p)
    ensures i == LastBelow(p, |p.items|, k)
  {
    var low, high := 0, |p.items|;
    while high > low
      invariant 0 <= low <= high <= |p.items| && 0 < high
      invariant forall j :: 1 <= j < low ==> p.items[j].key < k
      invariant forall j :: high <= j < |p.items| ==> k <= p.items[j].key
    {
      var mid := low + (high - low) / 2;
      if mid == 0 || p.items[mid].key < k {
        low := mid + 1;
      } else {
        high := mid;
      }
    }
    LastBelowIs(p, |p.items|, k, low - 1);
    i := low - 1;
  }

  /** _bt_search from block b: the leaf it comes to, within so many pages. */
  function Descend(index: Index, b: nat, k: int, steps: nat): Option<nat>
    decreases steps
  {
    match Read(index, b)
    case None => None
    case Some(p) =>
      if steps == 0 then None
      else if !Admits(p, k) || (Ignored(p) && !Rightmost(p)) then Descend(index, p.next, k, steps - 1)
      else if p.leaf then Some(b)
      else if p.items == [] then None
      else Descend(index, p.items[LastBelow(p, |p.items|, k)].link, k, steps - 1)
  }

  // ----- levels that match -----

  function PageOf(index: Index, b: nat): Page { if b in index then index[b] else NO_PAGE }

  /** The number of downlinks before the page at position y. */
  function Start(index: Index, chain: seq<nat>, y: nat): nat
    requires y <= |chain|
  {
    if y == 0 then 0 else Start(index, chain, y - 1) + |PageOf(index, chain[y - 1]).items|
  }

  /** The page that holds the downlink with the number d. */
  function HolderIn(index: Index, chain: seq<nat>, y: nat, d: nat): (r: nat)
    requires y <= |chain| && d < Start(index, chain, y)
    ensures r < y && Start(index, chain, r) <= d < Start(index, chain, r + 1)
  {
    if d >= Start(index, chain, y - 1) then y - 1 else HolderIn(index, chain, y - 1, d)
  }

  /** A live page of a chain, with its right link and, unless it is the last one, its high key. */
  ghost predicate RowAt(index: Index, chain: seq<nat>, isLeaf: bool, y: nat)
    requires y < |chain|
  {
    && Read(index, chain[y]).Some?
    && var p := PageOf(index, chain[y]);
    && (p.leaf <==> isLeaf) && !Ignored(p) && (!isLeaf ==> p.items != [] && Ordered(p))
    && (Rightmost(p) <==> y + 1 == |chain|)
    && (y + 1 < |chain| ==> p.next == chain[y + 1] && p.high.Some?)
  }

  ghost predicate Row(index: Index, chain: seq<nat>, isLeaf: bool) {
    chain != [] && forall y :: 0 <= y < |chain| ==> RowAt(index, chain, isLeaf, y)
  }

  /** The separator behind a downlink, the high key of the page if it is the last one. */
  function SepAfter(p: Page, c: nat): Option<int> { if c + 1 < |p.items| then Some(p.items[c + 1].key) else p.high }

  /** The c-th downlink of page y leads to the child with its number, whose high key is the separator behind it. */
  ghost predicate MatchedAt(index: Index, parent: seq<nat>, child: seq<nat>, y: nat, c: nat)
    requires y < |parent|
  {
    var p, d := PageOf(index, parent[y]), Start(index, parent, y) + c;
    && c < |p.items| && d < |child| && child[d] == p.items[c].link
    && (d + 1 < |child| ==> PageOf(index, child[d]).high == SepAfter(p, c))
  }

  ghost predicate Matched(index: Index, parent: seq<nat>, child: seq<nat>) {
    && Start(index, parent, |parent|) == |child|
    && forall y, c :: 0 <= y < |parent| && 0 <= c < |PageOf(index, parent[y]).items| ==>
                        MatchedAt(index, parent, child, y, c)
  }

  ghost predicate Sound(index: Index, levels: seq<seq<nat>>) {
    && levels != []
    && (forall j :: 0 <= j < |levels| ==> Row(index, levels[j], j + 1 == |levels|))
    && (forall j :: 0 < j < |levels| ==> Matched(index, levels[j - 1], levels[j]))
  }

  lemma {:induction false} StartGrows(index: Index, chain: seq<nat>, y: nat, z: nat)
    requires y <= z <= |chain|
    ensures Start(index, chain, y) <= Start(index, chain, z)
    decreases z
  {
    if y < z { StartGrows(index, chain, y, z - 1); }
  }

  function Last(levels: seq<seq<nat>>): seq<nat>
    requires levels != []
  {
    levels[|levels| - 1]
  }

  // ----- two adjacent levels -----

  /** The holder of a child, and the place of its downlink there. */
  ghost function Holder(index: Index, parent: seq<nat>, child: seq<nat>, d: nat): (y: nat)
    requires Matched(index, parent, child) && d < |child|
    ensures y < |parent| && Start(index, parent, y) <= d < Start(index, parent, y) + |PageOf(index, parent[y]).items|
    ensures MatchedAt(index, parent, child, y, d - Start(index, parent, y))
  {
    HolderIn(index, parent, |parent|, d)
  }

  lemma {:induction false} HolderIs(index: Index, parent: seq<nat>, child: seq<nat>, d: nat, y: nat)
    requires Matched(index, parent, child) && d < |child| && y < |parent|
    requires Start(index, parent, y) <= d < Start(index, parent, y + 1)
    ensures Holder(index, parent, child, d) == y
  {
    hide MatchedAt;
    var h := Holder(index, parent, child, d);
    if h < y { StartGrows(index, parent, h + 1, y); }
    if y < h { StartGrows(index, parent, y + 1, h); }
  }

  lemma {:induction false} HolderGrows(index: Index, parent: seq<nat>, child: seq<nat>, d: nat, e: nat)
    requires Matched(index, parent, child) && d <= e < |child|
    ensures Holder(index, parent, child, d) <= Holder(index, parent, child, e)
  {
    hide MatchedAt, Matched;
    var x, y := Holder(index, parent, child, d), Holder(index, parent, child, e);
    if y < x { StartGrows(index, parent, y + 1, x); }
  }

  /** Separators grow to the right within a page. */
  lemma {:induction false} SepsGrow(p: Page, c: nat, e: nat, k: int)
    requires Ordered(p) && c <= e < |p.items| && SepAfter(p, c).Some? && k <= SepAfter(p, c).value
    ensures e + 1 < |p.items| || !Rightmost(p) ==> SepAfter(p, e).Some? && k <= SepAfter(p, e).value
  {
  }

  /** A page admits what a child below it admits. */
  lemma {:induction false} AdmitsUp(index: Index, parent: seq<nat>, child: seq<nat>, isLeaf: bool, d: nat, k: int)
    requires Matched(index, parent, child) && Row(index, parent, false) && Row(index, child, isLeaf) && d < |child|
    requires Admits(PageOf(index, child[d]), k)
    ensures Admits(PageOf(index, parent[Holder(index, parent, child, d)]), k)
  {
    hide Matched;
    var y := Holder(index, parent, child, d);
    var p, c := PageOf(index, parent[y]), d - Start(index, parent, y);
    assert RowAt(index, parent, false, y) && RowAt(index, child, isLeaf, d);
    if !Rightmost(p) {
      NotLast(index, parent, child, y, d);
      SepsGrow(p, c, |p.items| - 1, k);
    }
  }

  lemma {:induction false} NotLast(index: Index, parent: seq<nat>, child: seq<nat>, y: nat, d: nat)
    requires Matched(index, parent, child) && Row(index, parent, false)
    requires y + 1 < |parent| && d < Start(index, parent, y + 1)
    ensures d + 1 < |child|
  {
    hide MatchedAt;
    StartGrows(index, parent, y + 2, |parent|);
    assert RowAt(index, parent, false, y + 1);
  }

  /** The last child of a page admits what the page admits. */
  lemma {:induction false} AdmitsDown(index: Index, parent: seq<nat>, child: seq<nat>, isLeaf: bool, y: nat, k: int)
    requires Matched(index, parent, child) && Row(index, parent, false) && Row(index, child, isLeaf) && y < |parent|
    ensures 0 < Start(index, parent, y + 1) <= |child|
    ensures Start(index, parent, y + 1) - 1 >= Start(index, parent, y)
    ensures Admits(PageOf(index, parent[y]), k) ==> Admits(PageOf(index, child[Start(index, parent, y + 1) - 1]), k)
  {
    var p, d := PageOf(index, parent[y]), Start(index, parent, y + 1) - 1;
    assert RowAt(index, parent, false, y);
    StartGrows(index, parent, y + 1, |parent|);
    assert MatchedAt(index, parent, child, y, |p.items| - 1);
    assert RowAt(index, child, isLeaf, d);
  }

  // ----- the descent by positions -----

  /** Where _bt_moveright ends that starts at position t of the chain. */
  function Land(index: Index, chain: seq<nat>, t: nat, k: int): (u: nat)
    requires t < |chain|
    ensures t <= u < |chain|
    decreases |chain| - t
  {
    if t + 1 < |chain| && !Admits(PageOf(index, chain[t]), k) then Land(index, chain, t + 1, k) else t
  }

  lemma {:induction false} LandStops(index: Index, chain: seq<nat>, t: nat, w: nat, k: int)
    requires t <= w < |chain| && (Admits(PageOf(index, chain[w]), k) || w + 1 == |chain|)
    ensures Land(index, chain, t, k) <= w
    decreases w - t
  {
    hide Admits;
    if t < w && !Admits(PageOf(index, chain[t]), k) { LandStops(index, chain, t + 1, w, k); }
  }

  lemma {:induction false} LandAdmits(index: Index, chain: seq<nat>, t: nat, k: int)
    requires t < |chain|
    ensures Admits(PageOf(index, chain[Land(index, chain, t, k)]), k) || Land(index, chain, t, k) + 1 == |chain|
    decreases |chain| - t
  {
    hide Admits;
    if t + 1 < |chain| && !Admits(PageOf(index, chain[t]), k) { LandAdmits(index, chain, t + 1, k); }
  }

  /** The page of the level at `j` that the descent looks into next, for one on the level above at u. */
  ghost function ChildOf(index: Index, levels: seq<seq<nat>>, j: nat, u: nat, k: int): (s: nat)
    requires Sound(index, levels) && 0 < j < |levels| && u < |levels[j - 1]|
    ensures Start(index, levels[j - 1], u) <= s < Start(index, levels[j - 1], u + 1) && s < |levels[j]|
  {
    assert Row(index, levels[j - 1], false) && RowAt(index, levels[j - 1], false, u);
    assert Matched(index, levels[j - 1], levels[j]);
    var p := PageOf(index, levels[j - 1][u]);
    var c := LastBelow(p, |p.items|, k);
    assert MatchedAt(index, levels[j - 1], levels[j], u, c);
    Start(index, levels[j - 1], u) + c
  }

  /** The position of the leaf that a descent comes to from position t of the level at j. */
  ghost function Reach(index: Index, levels: seq<seq<nat>>, j: nat, t: nat, k: int): (r: nat)
    requires Sound(index, levels) && j < |levels| && t < |levels[j]|
    ensures r < |Last(levels)|
    decreases |levels| - j
  {
    var u := Land(index, levels[j], t, k);
    if j + 1 == |levels| then u else Reach(index, levels, j + 1, ChildOf(index, levels, j + 1, u, k), k)
  }

  /** All pages of the levels from j on. */
  function Room(levels: seq<seq<nat>>, j: nat): nat
    requires j <= |levels|
    decreases |levels| - j
  {
    if j == |levels| then 0 else |levels[j]| + Room(levels, j + 1)
  }

  lemma {:induction false} MoveRight(index: Index, chain: seq<nat>, isLeaf: bool, t: nat, k: int, steps: nat)
    requires Row(index, chain, isLeaf) && t < |chain| && steps >= |chain| - t
    ensures var u := Land(index, chain, t, k);
            steps > u - t && Descend(index, chain[t], k, steps) == Descend(index, chain[u], k, steps - (u - t))
    decreases |chain| - t
  {
    assert RowAt(index, chain, isLeaf, t);
    if t + 1 < |chain| && !Admits(PageOf(index, chain[t]), k) {
      MoveRight(index, chain, isLeaf, t + 1, k, steps - 1);
    }
  }

  lemma {:induction false} StepDown(index: Index, levels: seq<seq<nat>>, j: nat, u: nat, k: int, steps: nat)
    requires Sound(index, levels) && 0 < j < |levels| && u < |levels[j - 1]| && steps > 0
    requires Admits(PageOf(index, levels[j - 1][u]), k) || u + 1 == |levels[j - 1]|
    ensures Descend(index, levels[j - 1][u], k, steps) ==
            Descend(index, levels[j][ChildOf(index, levels, j, u, k)], k, steps - 1)
  {
    var p := PageOf(index, levels[j - 1][u]);
    assert Row(index, levels[j - 1], false) && RowAt(index, levels[j - 1], false, u);
    assert MatchedAt(index, levels[j - 1], levels[j], u, LastBelow(p, |p.items|, k));
  }

  /** The descent by right links and downlinks is the one by positions. */
  lemma {:induction false} DescendIsReach(index: Index, levels: seq<seq<nat>>, j: nat, t: nat, k: int, steps: nat)
    requires Sound(index, levels) && j < |levels| && t < |levels[j]| && steps >= Room(levels, j) - t
    ensures Descend(index, levels[j][t], k, steps) == Some(Last(levels)[Reach(index, levels, j, t, k)])
    decreases |levels| - j
  {
    hide Descend, Land, ChildOf, Admits, Row, Matched;
    var isLeaf := j + 1 == |levels|;
    var u := Land(index, levels[j], t, k);
    assert Row(index, levels[j], isLeaf);
    MoveRight(index, levels[j], isLeaf, t, k, steps);
    LandAdmits(index, levels[j], t, k);
    if isLeaf {
      AtLeaf(index, levels[j], u, k, steps - (u - t));
    } else {
      StepDown(index, levels, j + 1, u, k, steps - (u - t));
      DescendIsReach(index, levels, j + 1, ChildOf(index, levels, j + 1, u, k), k, steps - (u - t) - 1);
    }
  }

  lemma {:induction false} AtLeaf(index: Index, chain: seq<nat>, u: nat, k: int, steps: nat)
    requires Row(index, chain, true) && u < |chain| && steps > 0
    requires Admits(PageOf(index, chain[u]), k) || u + 1 == |chain|
    ensures Descend(index, chain[u], k, steps) == Some(chain[u])
  {
    assert RowAt(index, chain, true, u);
  }

  // ----- which leaf is reached -----

  /** The page of the level at j that the leaf at position r stands below. */
  ghost function Home(index: Index, levels: seq<seq<nat>>, j: nat, r: nat): (y: nat)
    requires Sound(index, levels) && j < |levels| && r < |Last(levels)|
    ensures y < |levels[j]|
    decreases |levels| - j
  {
    if j + 1 == |levels| then r
    else
      assert Matched(index, levels[j + 1 - 1], levels[j + 1]);
      Holder(index, levels[j], levels[j + 1], Home(index, levels, j + 1, r))
  }

  lemma {:induction false} LevelsAt(index: Index, levels: seq<seq<nat>>, j: nat)
    requires Sound(index, levels) && j + 1 < |levels|
    ensures Row(index, levels[j], false) && Row(index, levels[j + 1], j + 2 == |levels|)
    ensures Matched(index, levels[j], levels[j + 1])
  {
    hide Row, Matched;
    assert Matched(index, levels[j + 1 - 1], levels[j + 1]);
  }

  lemma {:induction false} HomeInside(index: Index, levels: seq<seq<nat>>, j: nat, r: nat)
    requires Sound(index, levels) && j + 1 < |levels| && r < |Last(levels)|
    ensures var y, d := Home(index, levels, j, r), Home(index, levels, j + 1, r);
            Start(index, levels[j], y) <= d < Start(index, levels[j], y + 1)
  {
    hide Row;
    LevelsAt(index, levels, j);
  }

  lemma {:induction false} HomeGrows(index: Index, levels: seq<seq<nat>>, j: nat, r: nat, q: nat)
    requires Sound(index, levels) && j < |levels| && r <= q < |Last(levels)|
    ensures Home(index, levels, j, r) <= Home(index, levels, j, q)
    decreases |levels| - j
  {
    hide Row, Matched, Holder;
    if j + 1 < |levels| {
      LevelsAt(index, levels, j);
      HomeGrows(index, levels, j + 1, r, q);
      HolderGrows(index, levels[j], levels[j + 1], Home(index, levels, j + 1, r), Home(index, levels, j + 1, q));
    }
  }

  lemma {:induction false} HomeAdmits(index: Index, levels: seq<seq<nat>>, j: nat, r: nat, k: int)
    requires Sound(index, levels) && j < |levels| && r < |Last(levels)|
    requires Admits(PageOf(index, Last(levels)[r]), k)
    ensures Admits(PageOf(index, levels[j][Home(index, levels, j, r)]), k)
    decreases |levels| - j
  {
    hide Row, Matched, Holder, Admits;
    if j + 1 < |levels| {
      LevelsAt(index, levels, j);
      HomeAdmits(index, levels, j + 1, r, k);
      AdmitsUp(index, levels[j], levels[j + 1], j + 2 == |levels|, Home(index, levels, j + 1, r), k);
    }
  }

  ghost predicate NoneAdmitsBefore(index: Index, chain: seq<nat>, y: nat, k: int)
    requires y <= |chain|
  {
    forall t :: 0 <= t < y ==> !Admits(PageOf(index, chain[t]), k)
  }

  /** If no leaf to the left admits the key, no page to the left on any level does. */
  lemma {:induction false} NoneOnAnyLevel(index: Index, levels: seq<seq<nat>>, j: nat, r: nat, k: int)
    requires Sound(index, levels) && j < |levels| && r < |Last(levels)|
    requires NoneAdmitsBefore(index, Last(levels), r, k)
    ensures NoneAdmitsBefore(index, levels[j], Home(index, levels, j, r), k)
    decreases |levels| - j
  {
    hide Row, Matched, Admits;
    if j + 1 < |levels| {
      LevelsAt(index, levels, j);
      NoneOnAnyLevel(index, levels, j + 1, r, k);
      var y, h := Home(index, levels, j, r), Home(index, levels, j + 1, r);
      forall t | 0 <= t < y ensures !Admits(PageOf(index, levels[j][t]), k) {
        AdmitsDown(index, levels[j], levels[j + 1], j + 2 == |levels|, t, k);
        StartGrows(index, levels[j], t + 1, y);
        assert Start(index, levels[j], t + 1) - 1 < h;
      }
    }
  }

  lemma {:induction false} LandIs(index: Index, chain: seq<nat>, t: nat, y: nat, k: int)
    requires t <= y < |chain| && NoneAdmitsBefore(index, chain, y, k) && Admits(PageOf(index, chain[y]), k)
    ensures Land(index, chain, t, k) == y
    decreases y - t
  {
    hide Admits;
    if t < y { LandIs(index, chain, t + 1, y, k); }
  }

  /** The downlink chosen is not to the right of the one that leads to a child which admits the key. */
  lemma {:induction false} ChosenIsNotRight(index: Index, levels: seq<seq<nat>>, j: nat, y: nat, d: nat, k: int)
    requires Sound(index, levels) && 0 < j < |levels| && y < |levels[j - 1]|
    requires Start(index, levels[j - 1], y) <= d < Start(index, levels[j - 1], y + 1) && d < |levels[j]|
    requires Admits(PageOf(index, levels[j][d]), k)
    ensures ChildOf(index, levels, j, y, k) <= d
  {
    LevelsAt(index, levels, j - 1);
    var p, c := PageOf(index, levels[j - 1][y]), d - Start(index, levels[j - 1], y);
    assert RowAt(index, levels[j - 1], false, y) && RowAt(index, levels[j], j + 1 == |levels|, d);
    assert MatchedAt(index, levels[j - 1], levels[j], y, c);
    ChoiceBound(p, c, k, d + 1 == |levels[j]|);
    if d + 1 == |levels[j]| { ChildOfBound(index, levels, j, y, k); }
  }

  lemma {:induction false} ChildOfBound(index: Index, levels: seq<seq<nat>>, j: nat, y: nat, k: int)
    requires Sound(index, levels) && 0 < j < |levels| && y < |levels[j - 1]|
    ensures ChildOf(index, levels, j, y, k) < |levels[j]|
  {
  }

  lemma {:induction false} ChoiceBound(p: Page, c: nat, k: int, last: bool)
    requires c < |p.items| && Ordered(p)
    requires last || (SepAfter(p, c).Some? && k <= SepAfter(p, c).value)
    ensures last || LastBelow(p, |p.items|, k) <= c
  {
    var i := LastBelow(p, |p.items|, k);
    assert c + 1 < i ==> p.items[c + 1].key < p.items[i].key;
  }

  /** No leaf to the left admits the key: the descent comes to its leaf. */
  lemma {:induction false} Hit(index: Index, levels: seq<seq<nat>>, j: nat, t: nat, r: nat, k: int)
    requires Sound(index, levels) && j < |levels| && r < |Last(levels)| && t <= Home(index, levels, j, r)
    requires Admits(PageOf(index, Last(levels)[r]), k) && NoneAdmitsBefore(index, Last(levels), r, k)
    ensures Reach(index, levels, j, t, k) == r
    decreases |levels| - j
  {
    hide Row, Matched, Admits, NoneAdmitsBefore, Land, ChildOf;
    var y := Home(index, levels, j, r);
    HomeAdmits(index, levels, j, r, k);
    NoneOnAnyLevel(index, levels, j, r, k);
    LandIs(index, levels[j], t, y, k);
    if j + 1 < |levels| {
      LevelsAt(index, levels, j);
      HomeAdmits(index, levels, j + 1, r, k);
      ChosenIsNotRight(index, levels, j + 1, y, Home(index, levels, j + 1, r), k);
      Hit(index, levels, j + 1, ChildOf(index, levels, j + 1, y, k), r, k);
    }
  }

  /** The leaf reached stands below the page landed on. */
  lemma {:induction false} ReachStays(index: Index, levels: seq<seq<nat>>, j: nat, t: nat, k: int)
    requires Sound(index, levels) && j < |levels| && t < |levels[j]|
    ensures Home(index, levels, j, Reach(index, levels, j, t, k)) == Land(index, levels[j], t, k)
    decreases |levels| - j
  {
    hide Row, Matched, Admits, Land, Holder;
    if j + 1 < |levels| {
      LevelsAt(index, levels, j);
      var u := Land(index, levels[j], t, k);
      var s := ChildOf(index, levels, j + 1, u, k);
      ReachStays(index, levels, j + 1, s, k);
      LandAdmits(index, levels[j], t, k);
      AdmitsDown(index, levels[j], levels[j + 1], j + 2 == |levels|, u, k);
      LastOfAll(index, levels[j], levels[j + 1]);
      LandStops(index, levels[j + 1], s, Start(index, levels[j], u + 1) - 1, k);
      HolderIs(index, levels[j], levels[j + 1], Land(index, levels[j + 1], s, k), u);
    }
  }

  lemma {:induction false} LastOfAll(index: Index, parent: seq<nat>, child: seq<nat>)
    requires Matched(index, parent, child)
    ensures Start(index, parent, |parent|) == |child|
  {
  }

  /** Two children of one page, the left one admitting the key: the choice is left of the right one, whose left
      neighbour admits the key too. */
  lemma {:induction false} ChosenIsLeft(index: Index, levels: seq<seq<nat>>, j: nat, y: nat, d: nat, e: nat, k: int)
    requires Sound(index, levels) && 0 < j < |levels| && y < |levels[j - 1]|
    requires Start(index, levels[j - 1], y) <= d < e < Start(index, levels[j - 1], y + 1) && e < |levels[j]|
    requires Admits(PageOf(index, levels[j][d]), k)
    ensures ChildOf(index, levels, j, y, k) < e && Admits(PageOf(index, levels[j][e - 1]), k)
  {
    LevelsAt(index, levels, j - 1);
    var p, c := PageOf(index, levels[j - 1][y]), Start(index, levels[j - 1], y);
    assert RowAt(index, levels[j - 1], false, y) && RowAt(index, levels[j], j + 1 == |levels|, d);
    assert MatchedAt(index, levels[j - 1], levels[j], y, d - c);
    assert MatchedAt(index, levels[j - 1], levels[j], y, e - 1 - c);
    SepsGrow(p, d - c, e - 1 - c, k);
    ChosenIsNotRight(index, levels, j, y, d, k);
  }

  /** A leaf further left admits the key: the descent does not come to the leaf at r. */
  lemma {:induction false} Miss(index: Index, levels: seq<seq<nat>>, j: nat, t: nat, q: nat, r: nat, k: int)
    requires Sound(index, levels) && j < |levels| && t < |levels[j]| && q < r < |Last(levels)|
    requires Admits(PageOf(index, Last(levels)[q]), k)
    requires Home(index, levels, j, q) < Home(index, levels, j, r) ==>
               exists w :: t <= w < Home(index, levels, j, r) && Admits(PageOf(index, levels[j][w]), k)
    ensures Reach(index, levels, j, t, k) != r
    decreases |levels| - j
  {
    hide Row, Matched, Admits, Land, Home, ChildOf;
    var z, y := Home(index, levels, j, q), Home(index, levels, j, r);
    HomeGrows(index, levels, j, q, r);
    ReachStays(index, levels, j, t, k);
    var u := Land(index, levels[j], t, k);
    if z < y {
      var w :| t <= w < y && Admits(PageOf(index, levels[j][w]), k);
      LandStops(index, levels[j], t, w, k);
    } else if u == y {
      if j + 1 == |levels| { HomeOfLeaf(index, levels, q, r); }
      HomeInside(index, levels, j, q);
      HomeInside(index, levels, j, r);
      HomeGrows(index, levels, j + 1, q, r);
      var z', y' := Home(index, levels, j + 1, q), Home(index, levels, j + 1, r);
      var s := ChildOf(index, levels, j + 1, u, k);
      HomeAdmits(index, levels, j + 1, q, k);
      if z' < y' {
        ChosenIsLeft(index, levels, j + 1, y, z', y', k);
        assert s <= y' - 1 < y' && Admits(PageOf(index, levels[j + 1][y' - 1]), k);
      }
      Miss(index, levels, j + 1, s, q, r, k);
    }
  }

  lemma {:induction false} HomeOfLeaf(index: Index, levels: seq<seq<nat>>, q: nat, r: nat)
    requires Sound(index, levels) && q < |Last(levels)| && r < |Last(levels)|
    ensures Home(index, levels, |levels| - 1, q) == q && Home(index, levels, |levels| - 1, r) == r
  {
  }

  /** A key that its leaf admits is found there by the descent from the first page of the top level if and only if it is
      above the high keys of all leaves to the left. */
  lemma {:induction false} ReachedIff(index: Index, levels: seq<seq<nat>>, r: nat, k: int)
    requires Sound(index, levels) && r < |Last(levels)| && Admits(PageOf(index, Last(levels)[r]), k)
    ensures Row(index, levels[0], |levels| == 1)
    ensures Reach(index, levels, 0, 0, k) == r <==> NoneAdmitsBefore(index, Last(levels), r, k)
  {
    hide Row, Matched, Admits;
    if NoneAdmitsBefore(index, Last(levels), r, k) {
      Hit(index, levels, 0, 0, r, k);
    } else {
      var q :| 0 <= q < r && Admits(PageOf(index, Last(levels)[q]), k);
      HomeAdmits(index, levels, 0, q, k);
      HomeGrows(index, levels, 0, q, r);
      Miss(index, levels, 0, 0, q, r, k);
    }
  }

  // ----- on an accepted index -----

  lemma {:induction false} OrderedOf(index: Index, p: Page)
    requires PageSound(index, p) && !p.leaf
    ensures Ordered(p)
  {
    hide ChildOk, BelowNext;
    forall i, j | 1 <= i < j < |p.items| ensures p.items[i].key < p.items[j].key { InOrder(index, p, i, j); }
    forall i | 1 <= i < |p.items| && !Rightmost(p) ensures p.high.Some? && p.items[i].key < p.high.value {
      assert ItemOk(p, i);
    }
  }

  lemma {:induction false} InOrder(index: Index, p: Page, i: nat, j: nat)
    requires PageSound(index, p) && !p.leaf && 1 <= i < j < |p.items|
    ensures p.items[i].key < p.items[j].key
    decreases j
  {
    hide ChildOk, BelowNext;
    assert ItemOk(p, j - 1);
    if i < j - 1 { InOrder(index, p, i, j - 1); }
  }

  lemma {:induction false} RowOf(index: Index, level: nat, chain: seq<nat>, top: nat)
    requires ChainOk(index, level, P_NONE, chain) && Settled(index, top)
    ensures Row(index, chain, level == 0)
  {
    hide ChainOk, PageSound, Ordered;
    assert chain != [] by { ChainIsSome(index, level, chain); }
    var isLeaf := level == 0;
    forall y | 0 <= y < |chain| ensures RowAt(index, chain, isLeaf, y) {
      ChainAt(index, level, P_NONE, chain, y);
      if y + 1 < |chain| { ChainAt(index, level, P_NONE, chain, y + 1); }
      var p := index[chain[y]];
      if !p.leaf { OrderedOf(index, p); }
    }
  }

  lemma {:induction false} ChainIsSome(index: Index, level: nat, chain: seq<nat>)
    requires ChainOk(index, level, P_NONE, chain)
    ensures chain != []
  {
  }

  lemma {:induction false} StartOfTail(index: Index, chain: seq<nat>, y: nat)
    requires 0 < y <= |chain|
    ensures Start(index, chain, y) == |PageOf(index, chain[0]).items| + Start(index, chain[1..], y - 1)
  {
    if y > 1 { StartOfTail(index, chain, y - 1); }
  }

  lemma {:induction false} DownNumbered(index: Index, chain: seq<nat>, y: nat, c: nat)
    requires y < |chain| && c < |PageOf(index, chain[y]).items|
    ensures Start(index, chain, y) + c < |LevelDowns(index, chain)|
    ensures LevelDowns(index, chain)[Start(index, chain, y) + c] == DownAt(PageOf(index, chain[y]), c)
    decreases |chain|
  {
    hide DownAt;
    if y == 0 {
      DownInPage(index[chain[0]], c, |index[chain[0]].items|);
    } else {
      StartOfTail(index, chain, y);
      DownNumbered(index, chain[1..], y - 1, c);
    }
  }

  lemma {:induction false} DownCount(index: Index, chain: seq<nat>)
    ensures |LevelDowns(index, chain)| == Start(index, chain, |chain|)
    decreases |chain|
  {
    if chain != [] {
      DownCount(index, chain[1..]);
      StartOfTail(index, chain, |chain|);
    }
  }

  /** Without incomplete splits and root flags every child has a downlink of its own. */
  lemma {:induction false} OwnersCount(index: Index, level: nat, parent: seq<nat>, child: seq<nat>, owner: seq<nat>,
                                       top: nat, i: nat)
    requires MirrorsBy(index, parent, child, owner) && ChainOk(index, level, P_NONE, child) && Settled(index, top)
    requires level < top && i < |child|
    ensures owner[i] == i
    decreases i
  {
    hide ChainOk, HighIs, LinkedTo, PageSound, Descends;
    assert StepOk(index, LevelDowns(index, parent), child, owner, i);
    if i > 0 {
      OwnersCount(index, level, parent, child, owner, top, i - 1);
      ChainAt(index, level, P_NONE, child, i);
      var p := index[child[i]];
      if p.items != [] { NoDeletion(index, child[i], p.items[0].link, p.level); }
    }
  }

  lemma {:induction false} MatchedOf(index: Index, level: nat, parent: seq<nat>, child: seq<nat>, top: nat)
    requires Mirrors(index, parent, child) && ChainOk(index, level, P_NONE, child) && Settled(index, top) && level < top
    ensures Matched(index, parent, child)
  {
    hide ChainOk, Settled;
    var owner :| MirrorsBy(index, parent, child, owner);
    OwnersCount(index, level, parent, child, owner, top, |child| - 1);
    DownCount(index, parent);
    forall y, c | 0 <= y < |parent| && 0 <= c < |PageOf(index, parent[y]).items|
      ensures MatchedAt(index, parent, child, y, c)
    {
      MatchedOne(index, level, parent, child, owner, top, y, c);
    }
  }

  lemma {:induction false} MatchedOne(index: Index, level: nat, parent: seq<nat>, child: seq<nat>, owner: seq<nat>,
                                      top: nat, y: nat, c: nat)
    requires MirrorsBy(index, parent, child, owner) && ChainOk(index, level, P_NONE, child) && Settled(index, top)
    requires level < top && |child| == |LevelDowns(index, parent)|
    requires y < |parent| && c < |PageOf(index, parent[y]).items|
    ensures MatchedAt(index, parent, child, y, c)
  {
    hide ChainOk, Excused, LinkedTo, PageSound;
    var d := Start(index, parent, y) + c;
    DownNumbered(index, parent, y, c);
    OwnersCount(index, level, parent, child, owner, top, d);
    if d > 0 { OwnersCount(index, level, parent, child, owner, top, d - 1); }
    assert StepOk(index, LevelDowns(index, parent), child, owner, d);
    ChainAt(index, level, P_NONE, child, d);
    if d + 1 < |child| {
      ChainAt(index, level, P_NONE, child, d + 1);
      assert !Rightmost(index[child[d]]) && !index[child[d]].incompleteSplit;
      assert index[child[d]].high == DownAt(PageOf(index, parent[y]), c).sep;
    }
  }

  lemma {:induction false} SoundOf(index: Index, levels: seq<seq<nat>>, top: nat)
    requires WellFormed(index, levels, top) && Settled(index, top)
    ensures Sound(index, levels)
  {
    hide ChainOk, Mirrors, Settled, Row, Matched;
    forall j | 0 <= j < |levels| ensures Row(index, levels[j], j + 1 == |levels|) {
      assert ChainOk(index, top - j, P_NONE, levels[j]);
      RowOf(index, top - j, levels[j], top);
    }
    forall j | 0 < j < |levels| ensures Matched(index, levels[j - 1], levels[j]) {
      assert ChainOk(index, top - j, P_NONE, levels[j]);
      MatchedOf(index, top - j, levels[j - 1], levels[j], top);
    }
  }

  /** The key is above the high keys of all leaves before position r. */
  ghost predicate AboveHighs(index: Index, leaves: seq<nat>, r: nat, k: int)
    requires r <= |leaves|
  {
    forall t :: 0 <= t < r ==> var h := PageOf(index, leaves[t]).high; h.Some? ==> h.value < k
  }

  predicate HasKey(p: Page, k: int) { exists n :: 0 <= n < |p.items| && p.items[n].key == k }

  /** The check passes an index with all splits complete, live pages and one root level, down to its leaves. */
  ghost predicate AcceptedSettled(index: Index, leftmost: nat, level: nat, isRoot: bool, fuel: nat, steps: nat) {
    && leftmost != P_NONE && Settled(index, level)
    && var r := CheckTree(index, leftmost, level, isRoot, fuel, steps);
    r.Ok? && forall chain :: chain in r.value ==> FirstLinksReal(index, chain)
  }

  lemma {:induction false} AcceptedIsSound(index: Index, leftmost: nat, level: nat, isRoot: bool, fuel: nat, steps: nat)
    requires AcceptedSettled(index, leftmost, level, isRoot, fuel, steps)
    ensures var levels := CheckTree(index, leftmost, level, isRoot, fuel, steps).value;
            && WellFormed(index, levels, level) && Sound(index, levels) && levels[0] != [] && levels[0][0] == leftmost
            && ChainOk(index, 0, P_NONE, Last(levels)) && NoneIgnored(index, Last(levels))
  {
    hide CheckTree, WellFormed, Sound, ChainOk, FirstLinksReal;
    var levels := CheckTree(index, leftmost, level, isRoot, fuel, steps).value;
    AcceptedIsWellFormed(index, leftmost, level, isRoot, fuel, steps);
    SoundOf(index, levels, level);
    Ends(index, levels, level);
  }

  lemma {:induction false} Ends(index: Index, levels: seq<seq<nat>>, top: nat)
    requires WellFormed(index, levels, top)
    ensures levels != [] && levels[0] != [] && ChainOk(index, 0, P_NONE, Last(levels))
  {
    hide Mirrors;
    assert ChainOk(index, top - 0, P_NONE, levels[0]);
    assert ChainOk(index, top - (|levels| - 1), P_NONE, levels[|levels| - 1]);
  }

  lemma {:induction false} AboveIsNotAdmitted(index: Index, leaves: seq<nat>, r: nat, k: int)
    requires Row(index, leaves, true) && r < |leaves|
    ensures AboveHighs(index, leaves, r, k) <==> NoneAdmitsBefore(index, leaves, r, k)
  {
    forall t | 0 <= t < r
      ensures !Admits(PageOf(index, leaves[t]), k) <==>
              (PageOf(index, leaves[t]).high.Some? ==> PageOf(index, leaves[t]).high.value < k)
    {
      assert RowAt(index, leaves, true, t);
    }
  }

  lemma {:induction false} LeafAdmits(index: Index, leaves: seq<nat>, r: nat, k: int)
    requires ChainOk(index, 0, P_NONE, leaves) && NoneIgnored(index, leaves) && r < |leaves|
    requires HasKey(PageOf(index, leaves[r]), k)
    ensures Admits(PageOf(index, leaves[r]), k)
  {
    hide ChainOk, PageSound;
    ChainAt(index, 0, P_NONE, leaves, r);
    assert leaves[r] in leaves;
    var p := index[leaves[r]];
    var n :| 0 <= n < |p.items| && p.items[n].key == k;
    if !Rightmost(p) { UpperBound(index, p, n); }
  }

  /** On an accepted index without incomplete splits, the descent from the root comes to the leaf of a key if and only
      if the key is above the high keys of all leaves to the left. */
  lemma {:induction false} LeafIsReachedIff(index: Index, leftmost: nat, level: nat, isRoot: bool, fuel: nat,
                                            steps: nat, r: nat, k: int, pages: nat)
    requires AcceptedSettled(index, leftmost, level, isRoot, fuel, steps)
    requires var levels := CheckTree(index, leftmost, level, isRoot, fuel, steps).value;
             && levels != [] && r < |Last(levels)| && HasKey(PageOf(index, Last(levels)[r]), k)
             && pages >= Room(levels, 0)
    ensures var leaves := Last(CheckTree(index, leftmost, level, isRoot, fuel, steps).value);
            Descend(index, leftmost, k, pages) == Some(leaves[r]) <==> AboveHighs(index, leaves, r, k)
  {
    hide CheckTree, WellFormed, Sound, ChainOk, AboveHighs, NoneAdmitsBefore, Descend, Admits, HasKey, Settled;
    var levels := CheckTree(index, leftmost, level, isRoot, fuel, steps).value;
    AcceptedIsSound(index, leftmost, level, isRoot, fuel, steps);
    LeafAdmits(index, Last(levels), r, k);
    ReachedIff(index, levels, r, k);
    LeavesAreRow(index, levels);
    AboveIsNotAdmitted(index, Last(levels), r, k);
    DescendIsReach(index, levels, 0, 0, k, pages);
    var q := Reach(index, levels, 0, 0, k);
    if q < r { NoBlockTwice(index, 0, Last(levels), q, r); }
    if r < q { NoBlockTwice(index, 0, Last(levels), r, q); }
  }

  lemma {:induction false} LeavesAreRow(index: Index, levels: seq<seq<nat>>)
    requires Sound(index, levels)
    ensures Row(index, Last(levels), true)
  {
    hide Row, Matched;
    assert Row(index, levels[|levels| - 1], |levels| - 1 + 1 == |levels|);
  }

  /** bt_rootdescend: the leaf that the descent comes to holds the key. */
  predicate RootDescend(index: Index, root: nat, k: int, pages: nat) {
    var b := Descend(index, root, k, pages);
    b.Some? && HasKey(PageOf(index, b.value), k)
  }

  /** Exactly the keys that bt_rootdescend finds: those that stand on some leaf, above the high keys of all leaves to
      its left. */
  lemma {:induction false} RootDescendIff(index: Index, leftmost: nat, level: nat, isRoot: bool, fuel: nat, steps: nat,
                                          k: int, pages: nat)
    requires AcceptedSettled(index, leftmost, level, isRoot, fuel, steps)
    requires var levels := CheckTree(index, leftmost, level, isRoot, fuel, steps).value;
             levels != [] && pages >= Room(levels, 0)
    ensures var leaves := Last(CheckTree(index, leftmost, level, isRoot, fuel, steps).value);
            RootDescend(index, leftmost, k, pages) <==>
            exists r :: 0 <= r < |leaves| && HasKey(PageOf(index, leaves[r]), k) && AboveHighs(index, leaves, r, k)
  {
    hide CheckTree, WellFormed, Sound, AboveHighs, Descend, HasKey, Settled, ChainOk;
    var levels := CheckTree(index, leftmost, level, isRoot, fuel, steps).value;
    var leaves := Last(levels);
    if r :| 0 <= r < |leaves| && HasKey(PageOf(index, leaves[r]), k) && AboveHighs(index, leaves, r, k) {
      LeafIsReachedIff(index, leftmost, level, isRoot, fuel, steps, r, k, pages);
    }
    if RootDescend(index, leftmost, k, pages) {
      AcceptedIsSound(index, leftmost, level, isRoot, fuel, steps);
      DescendIsReach(index, levels, 0, 0, k, pages);
      LeafIsReachedIff(index, leftmost, level, isRoot, fuel, steps, Reach(index, levels, 0, 0, k), k, pages);
    }
  }

  // ----- a key that is not found -----

  function Inner(prev: nat, next: nat, level: nat, root: bool, high: Option<int>, items: seq<Item>): Page {
    Page(prev, next, level, false, root, false, false, false, high, 0, items)
  }

  /** Two leaves with the keys 35 and 40 below two pages that the root separates at 50. */
  function Cousins(): Index {
    map[1 := Leaf(P_NONE, 2, false, Some(50), [Item(35, 0)]), 2 := Leaf(1, P_NONE, false, None, [Item(40, 0)]),
        3 := Inner(P_NONE, 4, 1, false, Some(50), [Item(0, 1)]), 4 := Inner(3, P_NONE, 1, false, None, [Item(0, 2)]),
        5 := Inner(P_NONE, P_NONE, 2, true, None, [Item(0, 3), Item(50, 4)])]
  }

  /** The check accepts this index, and a search from the root comes to leaf 1 for the key 40 of leaf 2. */
  lemma {:induction false} AcceptedKeyIsMissed(fuel: nat, steps: nat, pages: nat)
    requires fuel > 0 && steps > 1 && pages > 2
    ensures CheckTree(Cousins(), 5, 2, true, fuel, steps) == Ok([[5], [3, 4], [1, 2]])
    ensures Settled(Cousins(), 2) && HasKey(Cousins()[2], 40) && !RootDescend(Cousins(), 5, 40, pages)
  {
    hide CheckTree, Descend;
    CousinTree(fuel, steps);
    CousinSearch(pages);
    assert Cousins()[2].items[0].key == 40;
  }

  lemma {:induction false} CousinTree(fuel: nat, steps: nat)
    requires fuel > 0 && steps > 1
    ensures CheckTree(Cousins(), 5, 2, true, fuel, steps) == Ok([[5], [3, 4], [1, 2]])
  {
    hide CheckLevel, Cousins;
    CousinLeaves(fuel, steps);
    CousinParents(fuel, steps);
    CousinRoot(fuel, steps);
    var index := Cousins();
    assert [[3, 4]] + [[1, 2]] == [[3, 4], [1, 2]] && [[5]] + [[3, 4], [1, 2]] == [[5], [3, 4], [1, 2]];
    assert CheckTree(index, 1, 0, false, fuel, steps) == Ok([[1, 2]]);
    assert CheckTree(index, 3, 1, false, fuel, steps) == Ok([[3, 4], [1, 2]]);
  }

  lemma {:induction false} CousinSearch(pages: nat)
    requires pages > 2
    ensures Descend(Cousins(), 5, 40, pages) == Some(1) && !HasKey(Cousins()[1], 40)
  {
    var index := Cousins();
    assert Read(index, 5).Some? && Read(index, 3).Some? && Read(index, 1).Some?;
    assert LastBelow(index[5], 2, 40) == LastBelow(index[5], 1, 40) == 0 && LastBelow(index[3], 1, 40) == 0;
    assert Descend(index, 1, 40, pages - 2) == Some(1);
    assert Descend(index, 3, 40, pages - 1) == Some(1);
  }

  lemma {:induction false} CousinLeaves(fuel: nat, steps: nat)
    requires fuel > 0 && steps > 1
    ensures CheckLevel(Cousins(), 0, false, P_NONE, 1, None, START, fuel, steps) == Ok(Level([1, 2], P_NONE))
  {
    var index := Cousins();
    var st := START.(lowKey := Some(50));
    assert RightKey(index, 2, fuel) == Ok(Some(40));
    assert CheckItems(index, index[1], 1, START, fuel) == Ok(START);
    assert CheckPage(index, 0, false, P_NONE, 1, true, START, fuel) == Ok(st);
    assert CheckItems(index, index[2], 1, st, fuel) == Ok(st);
    assert CheckPage(index, 0, false, 1, 2, false, st, fuel) == Ok(START);
    assert CheckLevel(index, 0, false, 1, 2, Some(P_NONE), st, fuel, steps - 1) == Ok(Level([2], P_NONE));
    assert [1] + [2] == [1, 2];
  }

  lemma {:induction false} CousinParents(fuel: nat, steps: nat)
    requires fuel > 0 && steps > 1
    ensures CheckLevel(Cousins(), 1, false, P_NONE, 3, None, START, fuel, steps) == Ok(Level([3, 4], 1))
  {
    var index := Cousins();
    var st1, st2 := Carried(None, 2, false), Carried(Some(50), 2, false);
    var st3 := Carried(Some(50), P_NONE, false);
    assert Read(index, 1) == Some(index[1]) && Read(index, 2) == Some(index[2]);
    assert ChildHighKeyCheck(index, index[3], Some(0), START, fuel) == Ok(st1);
    assert CheckItems(index, index[3], 1, st1, fuel) == Ok(st1);
    assert CheckItems(index, index[3], 0, START, fuel) == Ok(st1);
    assert CheckPage(index, 1, false, P_NONE, 3, true, START, fuel) == Ok(st2);
    assert ChildHighKeyCheck(index, index[4], Some(0), st2, fuel) == Ok(st3);
    assert CheckItems(index, index[4], 1, st3, fuel) == Ok(st3.(prevRight := INVALID_BLOCK));
    assert CheckItems(index, index[4], 0, st2, fuel) == Ok(st3.(prevRight := INVALID_BLOCK));
    assert CheckPage(index, 1, false, 3, 4, false, st2, fuel) == Ok(START);
    assert CheckLevel(index, 1, false, 3, 4, Some(1), st2, fuel, steps - 1) == Ok(Level([4], 1));
    assert [3] + [4] == [3, 4];
  }

  lemma {:induction false} CousinRoot(fuel: nat, steps: nat)
    requires fuel > 0 && steps > 1
    ensures CheckLevel(Cousins(), 2, true, P_NONE, 5, None, START, fuel, steps) == Ok(Level([5], 3))
  {
    var index := Cousins();
    var st1, st2 := Carried(None, 4, false), Carried(None, P_NONE, false);
    assert Read(index, 3) == Some(index[3]) && Read(index, 4) == Some(index[4]);
    assert ChildHighKeyCheck(index, index[5], Some(0), START, fuel) == Ok(st1);
    assert ChildHighKeyCheck(index, index[5], Some(1), st1, fuel) == Ok(st2);
    assert ChildOk(index, index[5], 1);
    assert CheckItems(index, index[5], 2, st2, fuel) == Ok(START);
    assert CheckItems(index, index[5], 1, st1, fuel) == Ok(START);
    assert CheckItems(index, index[5], 0, START, fuel) == Ok(START);
    assert CheckPage(index, 2, true, P_NONE, 5, true, START, fuel) == Ok(START);
  }

  // ----- incomplete splits -----

  /** A leaf flagged as split whose high key 100 is not the separator 50 behind it, with the key 60. */
  function LooseHigh(): Index {
    map[1 := Page(P_NONE, 2, 0, true, false, true, false, false, Some(100), 0, [Item(60, 0)]),
        2 := Leaf(1, P_NONE, false, None, []),
        3 := Inner(P_NONE, P_NONE, 1, true, None, [Item(0, 1), Item(50, 2)])]
  }

  /** The high key of an incompletely split page is compared with no separator, so even a key of the first leaf can be
      missed: such indexes are not covered by the condition above. */
  lemma {:induction false} SplitKeyIsMissed(fuel: nat, steps: nat, pages: nat)
    requires fuel > 0 && steps > 1 && pages > 1
    ensures CheckTree(LooseHigh(), 3, 1, true, fuel, steps) == Ok([[3], [1, 2]])
    ensures HasKey(LooseHigh()[1], 60) && AboveHighs(LooseHigh(), [1, 2], 0, 60)
    ensures !RootDescend(LooseHigh(), 3, 60, pages)
  {
    hide CheckLevel;
    LooseRoot(fuel, steps);
    LooseLeaves(fuel, steps);
    var index := LooseHigh();
    assert CheckTree(index, 1, 0, false, fuel, steps) == Ok([[1, 2]]);
    assert [[3]] + [[1, 2]] == [[3], [1, 2]];
    assert index[1].items[0].key == 60;
    assert Read(index, 3).Some? && Read(index, 2).Some? && LastBelow(index[3], 2, 60) == 1;
    assert Descend(index, 2, 60, pages - 1) == Some(2);
  }

  lemma {:induction false} LooseRoot(fuel: nat, steps: nat)
    requires fuel > 0 && steps > 0
    ensures CheckLevel(LooseHigh(), 1, true, P_NONE, 3, None, START, fuel, steps) == Ok(Level([3], 1))
  {
    var index := LooseHigh();
    var st1, st2 := Carried(None, 2, true), Carried(None, P_NONE, false);
    assert Read(index, 1) == Some(index[1]) && Read(index, 2) == Some(index[2]);
    assert ChildHighKeyCheck(index, index[3], Some(0), START, fuel) == Ok(st1);
    assert ChildHighKeyCheck(index, index[3], Some(1), st1, fuel) == Ok(st2);
    assert ChildOk(index, index[3], 1);
    assert CheckItems(index, index[3], 2, st2, fuel) == Ok(START);
    assert CheckItems(index, index[3], 1, st1, fuel) == Ok(START);
    assert CheckItems(index, index[3], 0, START, fuel) == Ok(START);
    assert CheckPage(index, 1, true, P_NONE, 3, true, START, fuel) == Ok(START);
  }

  lemma {:induction false} LooseLeaves(fuel: nat, steps: nat)
    requires fuel > 0 && steps > 1
    ensures CheckLevel(LooseHigh(), 0, false, P_NONE, 1, None, START, fuel, steps) == Ok(Level([1, 2], P_NONE))
  {
    var index := LooseHigh();
    var st := START.(lowKey := Some(100));
    assert RightKey(index, 2, fuel) == Ok(None);
    assert CheckItems(index, index[1], 1, START, fuel) == Ok(START);
    assert CheckPage(index, 0, false, P_NONE, 1, true, START, fuel) == Ok(st);
    assert CheckPage(index, 0, false, 1, 2, false, st, fuel) == Ok(START);
    assert CheckLevel(index, 0, false, 1, 2, Some(P_NONE), st, fuel, steps - 1) == Ok(Level([2], P_NONE));
    assert [1] + [2] == [1, 2];
  }
}
