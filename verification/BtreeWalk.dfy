/**
 * The walk of bt_child_highkey_check page by page, on any index: exactly when it reads item zero, exactly when it
 * does not end, and how many pages are enough to tell.
 */
module BtreeWalk {
  import opened Options
  import opened BtreeCheck
  import opened Loops

  /** One call: its target page and downlink, and the state carried into it. */
  datatype AnyCall = Call(index: Index, target: Page, off: Option<nat>, st: Carried)

  type Call = c: AnyCall | c.off.Some? ==> c.off.value < |c.target.items|
    witness Call(map[], NO_PAGE, None, START)

  /** Where the walk stands: the page to look at, whether the page to its left is split, and whether it is the first. */
  datatype Spot = Spot(blk: nat, leftIsSplit: bool, first: bool)

  function WalkFrom(c: Call, s: Spot, fuel: nat): Verdict<Carried> {
    Walk(c.index, c.target, c.off, c.st, s.blk, s.leftIsSplit, s.first, fuel)
  }

  /** Where a call starts. */
  function FirstSpot(c: Call): Spot {
    if c.st.prevRight == INVALID_BLOCK then Spot(Downlink(c.target, c.off), false, true)
    else Spot(c.st.prevRight, c.st.prevSplit, true)
  }

  /** The page passes all tests, needs no item zero and is not the child looked for. */
  predicate GoesOn(c: Call, s: Spot) {
    Read(c.index, s.blk).Some? &&
    var p := c.index[s.blk];
    && ChildPageOk(c.index, c.target, c.off, c.st, s.blk, p, s.leftIsSplit, s.first)
    && !NeedsItemZero(p, c.off) && s.blk != Downlink(c.target, c.off)
  }

  function NextSpot(c: Call, s: Spot): Spot
    requires GoesOn(c, s)
  {
    Spot(c.index[s.blk].next, c.index[s.blk].incompleteSplit, false)
  }

  /** One turn of the loop. */
  function Turn(c: Call): Spot -> Option<Spot> {
    (s: Spot) => if GoesOn(c, s) then Some(NextSpot(c, s)) else None
  }

  // ----- the walk in terms of its turns -----

  lemma {:induction false} WalkStep(c: Call, s: Spot, fuel: nat)
    requires GoesOn(c, s) && fuel > 0
    ensures WalkFrom(c, s, fuel) == WalkFrom(c, NextSpot(c, s), fuel - 1)
  {
    hide ChildLinksOk, ExpectedHigh, Sane;
  }

  lemma {:induction false} WalkOn(c: Call, s: Spot, n: nat, fuel: nat)
    requires RunsFor(Turn(c), s, n) && n <= fuel
    ensures WalkFrom(c, s, fuel) == WalkFrom(c, After(Turn(c), s, n), fuel - n)
    decreases n
  {
    hide WalkFrom, GoesOn, NextSpot;
    if n > 0 {
      WalkStep(c, s, fuel);
      WalkOn(c, NextSpot(c, s), n - 1, fuel - 1);
    }
  }

  /** The walk does not go on: the same verdict with any pages left. */
  lemma {:induction false} WalkStops(c: Call, s: Spot, f: nat, g: nat)
    requires !GoesOn(c, s) && f > 0 && g > 0
    ensures WalkFrom(c, s, f) == WalkFrom(c, s, g) != Undecided
  {
    hide ChildLinksOk, ExpectedHigh, Sane;
  }

  lemma {:induction false} NoPagesLeft(c: Call, s: Spot, g: nat)
    ensures WalkFrom(c, s, 0) == Undecided || WalkFrom(c, s, 0) == WalkFrom(c, s, g)
    ensures GoesOn(c, s) ==> WalkFrom(c, s, 0) == Undecided
  {
    hide ChildPageOk;
  }

  // ----- item zero -----

  /** The page has a high key to match, with no downlink left, and passes the tests made before the matching. */
  predicate ReadsHere(c: Call, s: Spot) {
    Read(c.index, s.blk).Some? &&
    var p := c.index[s.blk];
    ChildLinksOk(c.index, c.target, c.off, c.st, s.blk, p, s.leftIsSplit, s.first) && NeedsItemZero(p, c.off)
  }

  /** The walk passes n pages and takes item zero at the next one. */
  predicate ReadsAt(c: Call, s: Spot, n: nat) {
    RunsFor(Turn(c), s, n) && ReadsHere(c, After(Turn(c), s, n))
  }

  lemma {:induction false} ReadsOrNot(c: Call, s: Spot, fuel: nat)
    ensures GoesOn(c, s) ==> !ReadsHere(c, s)
    ensures fuel == 0 || !GoesOn(c, s) ==> (WalkFrom(c, s, fuel) == ReadsItemZero <==> fuel > 0 && ReadsHere(c, s))
  {
    hide ChildLinksOk, ExpectedHigh, Sane;
  }

  /** A walk reads item zero if and only if, after some pages that pass and need no key, it comes to a page that
      passes the tests on its links and has a high key to match. */
  lemma {:induction false} WalkReadsItemZeroIff(c: Call, s: Spot, fuel: nat)
    ensures WalkFrom(c, s, fuel) == ReadsItemZero <==> exists n: nat :: n < fuel && ReadsAt(c, s, n)
    decreases fuel
  {
    hide WalkFrom, ReadsHere, GoesOn, NextSpot;
    ReadsOrNot(c, s, fuel);
    if fuel > 0 && GoesOn(c, s) {
      var next := NextSpot(c, s);
      WalkStep(c, s, fuel);
      WalkReadsItemZeroIff(c, next, fuel - 1);
      if n: nat :| n < fuel - 1 && ReadsAt(c, next, n) { assert ReadsAt(c, s, n + 1); }
      if n: nat :| n < fuel && ReadsAt(c, s, n) { assert ReadsAt(c, next, n - 1); }
    } else if fuel > 0 && ReadsHere(c, s) {
      assert ReadsAt(c, s, 0);
    }
  }

  /** The same for a whole call of bt_child_highkey_check. */
  lemma {:induction false} CallReadsItemZeroIff(c: Call, fuel: nat)
    ensures ChildHighKeyCheck(c.index, c.target, c.off, c.st, fuel) == ReadsItemZero <==>
            exists n: nat :: n < fuel && ReadsAt(c, FirstSpot(c), n)
  {
    hide Walk, ReadsAt;
    WalkReadsItemZeroIff(c, FirstSpot(c), fuel);
  }

  // ----- walks without end -----

  /** The first spot, and two for each block. */
  function AllSpots(index: Index, s: Spot): set<Spot> {
    (set b | b in index.Keys :: Spot(b, true, false)) + (set b | b in index.Keys :: Spot(b, false, false)) + {s}
  }

  lemma {:induction false} SpotCount(keys: set<nat>, split: bool)
    ensures |set b | b in keys :: Spot(b, split, false)| == |keys|
  {
    if keys != {} {
      var x :| x in keys;
      SpotCount(keys - {x}, split);
      assert (set b | b in keys :: Spot(b, split, false)) ==
             (set b | b in keys - {x} :: Spot(b, split, false)) + {Spot(x, split, false)};
    }
  }

  lemma {:induction false} AllSpotsSize(index: Index, s: Spot)
    ensures |AllSpots(index, s)| <= 2 * |index| + 1
  {
    SpotCount(index.Keys, true);
    SpotCount(index.Keys, false);
  }

  lemma {:induction false} SpotsAreClosed(c: Call, s: Spot)
    ensures Closed(Turn(c), s, AllSpots(c.index, s))
  {
    hide ChildPageOk, NeedsItemZero, Sane;
    forall x, y | Turn(c)(x) == Some(y) && Turn(c)(y).Some? ensures y in AllSpots(c.index, s) {
      assert y == Spot(y.blk, y.leftIsSplit, false) && y.blk in c.index.Keys;
    }
  }

  /** The number of pages after which a walk that will end has ended. */
  function Enough(index: Index): nat { 2 * |index| + 2 }

  lemma {:induction false} EnoughTurns(c: Call, s: Spot)
    ensures (forall n: nat :: RunsFor(Turn(c), s, n)) <==>
            exists i: nat, j: nat :: j < Enough(c.index) && ComesBack(Turn(c), s, i, j)
    ensures (forall n: nat :: RunsFor(Turn(c), s, n)) <==> RunsFor(Turn(c), s, Enough(c.index))
  {
    hide Turn, RunsFor, ComesBack, AllSpots;
    var all := AllSpots(c.index, s);
    SpotsAreClosed(c, s);
    AllSpotsSize(c.index, s);
    EndlessIff(Turn(c), s, all);
    if RunsFor(Turn(c), s, Enough(c.index)) { RunsLess(Turn(c), s, Enough(c.index), |all| + 1); }
    if i: nat, j: nat :| j < Enough(c.index) && ComesBack(Turn(c), s, i, j) {
      forall n: nat ensures RunsFor(Turn(c), s, n) { BackMeansEndless(Turn(c), s, i, j, n); }
    }
  }

  /** With more pages allowed a walk keeps its verdict, and a walk without one after enough pages never gets one. */
  lemma {:induction false} WalkSettles(c: Call, s: Spot, f: nat, g: nat)
    requires f <= g
    ensures WalkFrom(c, s, f) == WalkFrom(c, s, g) || (WalkFrom(c, s, f) == Undecided && f < Enough(c.index))
  {
    hide WalkFrom, RunsFor, After, ComesBack, Turn, GoesOn;
    EnoughTurns(c, s);
    RunsOrEnds(Turn(c), s, f);
    if k: nat :| k < f && EndsAfter(Turn(c), s, k) {
      SameAtEnd(c, s, k, f, g);
    } else {
      WalkOn(c, s, f, f);
      WalkOn(c, s, f, g);
      NoPagesLeft(c, After(Turn(c), s, f), g - f);
      if f >= Enough(c.index) {
        RunsLess(Turn(c), s, f, Enough(c.index));
        RunsAreUndecided(c, s, f);
        RunsAreUndecided(c, s, g);
      }
    }
  }

  lemma {:induction false} SameAtEnd(c: Call, s: Spot, k: nat, f: nat, g: nat)
    requires EndsAfter(Turn(c), s, k) && k < f && k < g
    ensures WalkFrom(c, s, f) == WalkFrom(c, s, g) != Undecided
  {
    hide WalkFrom, RunsFor, After, GoesOn;
    WalkOn(c, s, k, f);
    WalkOn(c, s, k, g);
    WalkStops(c, After(Turn(c), s, k), f - k, g - k);
  }

  lemma {:induction false} RunsAreUndecided(c: Call, s: Spot, n: nat)
    requires RunsFor(Turn(c), s, n + 1)
    ensures WalkFrom(c, s, n) == Undecided
  {
    hide WalkFrom, RunsFor, After, GoesOn;
    RunsLess(Turn(c), s, n + 1, n);
    WalkOn(c, s, n, n);
    RunsOn(Turn(c), s, n, 1);
    TurnIsStep(Turn(c), After(Turn(c), s, n));
    NoPagesLeft(c, After(Turn(c), s, n), 0);
  }

  /** The walk of a call never ends if and only if its right links lead back to a block met behind the first one, with
      the same split flag to its left, through pages that pass, need no item zero and are not the child looked for. */
  lemma {:induction false} CallNeverEndsIff(c: Call)
    ensures (forall fuel :: ChildHighKeyCheck(c.index, c.target, c.off, c.st, fuel) == Undecided) <==>
            exists i: nat, j: nat :: 0 < i && j < Enough(c.index) && ComesBack(Turn(c), FirstSpot(c), i, j)
  {
    hide Walk, RunsFor, After, ComesBack, Turn, Enough;
    var s := FirstSpot(c);
    EnoughTurns(c, s);
    assert forall fuel :: ChildHighKeyCheck(c.index, c.target, c.off, c.st, fuel) == WalkFrom(c, s, fuel);
    if i: nat, j: nat :| j < Enough(c.index) && ComesBack(Turn(c), s, i, j) {
      BackIsBehindFirst(c, s, i, j);
      forall fuel: nat ensures WalkFrom(c, s, fuel) == Undecided { RunsAreUndecided(c, s, fuel); }
    }
    if forall fuel :: ChildHighKeyCheck(c.index, c.target, c.off, c.st, fuel) == Undecided {
      assert ChildHighKeyCheck(c.index, c.target, c.off, c.st, Enough(c.index)) == Undecided;
      RunsOrEnds(Turn(c), s, Enough(c.index));
      if k: nat :| k < Enough(c.index) && EndsAfter(Turn(c), s, k) {
        SameAtEnd(c, s, k, Enough(c.index), Enough(c.index));
      }
      var i: nat, j: nat :| j < Enough(c.index) && ComesBack(Turn(c), s, i, j);
      BackIsBehindFirst(c, s, i, j);
    }
  }

  lemma {:induction false} BackIsBehindFirst(c: Call, s: Spot, i: nat, j: nat)
    requires ComesBack(Turn(c), s, i, j) && s.first
    ensures i > 0
  {
    hide GoesOn;
    LaterIsNotFirst(c, s, j);
  }

  lemma {:induction false} LaterIsNotFirst(c: Call, s: Spot, i: nat)
    requires 0 < i && RunsFor(Turn(c), s, i)
    ensures !After(Turn(c), s, i).first
    decreases i
  {
    hide GoesOn;
    if i > 1 { LaterIsNotFirst(c, NextSpot(c, s), i - 1); }
  }
}
