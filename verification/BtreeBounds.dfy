/**
 * The bounds on the loops of the check do not limit what is said about it: above a number that depends on the index
 * alone, the verdict stays the same, and is missing exactly when the loops of the source do not end.
 */
module BtreeBounds {
  import opened Options
  import opened BtreeCheck
  import opened BtreeWalk
  import opened Loops

  /** The verdict with a smaller and with a larger bound: the same, or there was none and the bound was too small. */
  predicate SameOrTooSmall<T(==)>(small: Verdict<T>, large: Verdict<T>, tooSmall: bool) {
    small == large || (small == Undecided && tooSmall)
  }

  // ----- the search for a key to the right -----

  /** One turn of bt_right_page_check_scankey: an ignorable page is skipped. */
  function Skip(index: Index): nat -> Option<nat> {
    (b: nat) =>
      var r := Read(index, b);
      if r.Some? && Ignored(r.value) && !Rightmost(r.value) then Some(r.value.next) else None
  }

  lemma {:induction false} RightKeyOn(index: Index, b: nat, n: nat, fuel: nat)
    requires RunsFor(Skip(index), b, n) && n <= fuel
    ensures RightKey(index, b, fuel) == RightKey(index, After(Skip(index), b, n), fuel - n)
    decreases n
  {
    hide Sane;
    if n > 0 { RightKeyOn(index, index[b].next, n - 1, fuel - 1); }
  }

  lemma {:induction false} RightKeyStops(index: Index, b: nat, f: nat, g: nat)
    requires Skip(index)(b).None? && f > 0 && g > 0
    ensures RightKey(index, b, f) == RightKey(index, b, g) != Undecided
  {
    hide Sane;
  }

  function AllBlocks(index: Index, b: nat): set<nat> { index.Keys + {b} }

  lemma {:induction false} SkipsAreClosed(index: Index, b: nat)
    ensures Closed(Skip(index), b, AllBlocks(index, b))
  {
    hide Sane;
  }

  lemma {:induction false} BlockCount(index: Index, b: nat)
    ensures |AllBlocks(index, b)| < Enough(index)
  {
    assert b in index ==> AllBlocks(index, b) == index.Keys;
  }

  lemma {:induction false} EnoughSkips(index: Index, b: nat)
    ensures (forall n: nat :: RunsFor(Skip(index), b, n)) <==>
            exists i: nat, j: nat :: j < Enough(index) && ComesBack(Skip(index), b, i, j)
    ensures (forall n: nat :: RunsFor(Skip(index), b, n)) <==> RunsFor(Skip(index), b, Enough(index))
  {
    hide Skip, RunsFor, ComesBack, AllBlocks, Enough;
    SkipsAreClosed(index, b);
    BlockCount(index, b);
    EndlessIff(Skip(index), b, AllBlocks(index, b));
    if RunsFor(Skip(index), b, Enough(index)) {
      RunsLess(Skip(index), b, Enough(index), |AllBlocks(index, b)| + 1);
    }
    if i: nat, j: nat :| j < Enough(index) && ComesBack(Skip(index), b, i, j) {
      forall n: nat ensures RunsFor(Skip(index), b, n) { BackMeansEndless(Skip(index), b, i, j, n); }
    }
  }

  lemma {:induction false} SkippingIsUndecided(index: Index, b: nat, fuel: nat)
    requires RunsFor(Skip(index), b, fuel)
    ensures RightKey(index, b, fuel) == Undecided
  {
    hide RightKey, RunsFor, After, Skip;
    RightKeyOn(index, b, fuel, fuel);
    NoFuel(index, After(Skip(index), b, fuel));
  }

  /** The search never ends if and only if it comes to a block twice, through ignorable pages. */
  lemma {:induction false} RightKeyNeverEndsIff(index: Index, b: nat)
    ensures (forall fuel :: RightKey(index, b, fuel) == Undecided) <==>
            exists i: nat, j: nat :: j < Enough(index) && ComesBack(Skip(index), b, i, j)
  {
    hide RightKey, RunsFor, After, ComesBack, Skip, Enough;
    EnoughSkips(index, b);
    var n := Enough(index);
    RunsOrEnds(Skip(index), b, n);
    if k: nat :| k < n && EndsAfter(Skip(index), b, k) {
      RightKeyAtEnd(index, b, k, n, n);
      assert RightKey(index, b, n) != Undecided;
      if RunsFor(Skip(index), b, n) { SkippingIsUndecided(index, b, n); }
    } else {
      forall fuel: nat ensures RightKey(index, b, fuel) == Undecided { SkippingIsUndecided(index, b, fuel); }
    }
  }

  lemma {:induction false} NoFuel(index: Index, b: nat)
    ensures RightKey(index, b, 0) == Undecided
  {
  }

  lemma {:induction false} RightKeyAtEnd(index: Index, b: nat, k: nat, f: nat, g: nat)
    requires EndsAfter(Skip(index), b, k) && k < f && k < g
    ensures RightKey(index, b, f) == RightKey(index, b, g) != Undecided
  {
    hide RightKey, RunsFor, After, Skip;
    RightKeyOn(index, b, k, f);
    RightKeyOn(index, b, k, g);
    RightKeyStops(index, After(Skip(index), b, k), f - k, g - k);
  }

  lemma {:induction false} RightKeySettles(index: Index, b: nat, f: nat, g: nat)
    requires f <= g
    ensures SameOrTooSmall(RightKey(index, b, f), RightKey(index, b, g), f < Enough(index))
  {
    hide RightKey, RunsFor, After, Skip, Enough, ComesBack;
    RunsOrEnds(Skip(index), b, f);
    if k: nat :| k < f && EndsAfter(Skip(index), b, k) {
      RightKeyAtEnd(index, b, k, f, g);
    } else {
      SkippingIsUndecided(index, b, f);
      if f >= Enough(index) {
        RunsLess(Skip(index), b, f, Enough(index));
        EnoughSkips(index, b);
        SkippingIsUndecided(index, b, g);
      }
    }
  }

  // ----- one page -----

  lemma {:induction false} CallSettles(index: Index, target: Page, off: Option<nat>, st: Carried, f: nat, g: nat)
    requires (off.Some? ==> off.value < |target.items|) && f <= g
    ensures SameOrTooSmall(ChildHighKeyCheck(index, target, off, st, f), ChildHighKeyCheck(index, target, off, st, g),
                           f < Enough(index))
  {
    hide Walk;
    var c: Call := Call(index, target, off, st);
    WalkSettles(c, FirstSpot(c), f, g);
  }

  lemma {:induction false} OrderSettles(index: Index, target: Page, i: nat, f: nat, g: nat)
    requires i < |target.items| && f <= g
    ensures SameOrTooSmall(CheckOrder(index, target, i, f), CheckOrder(index, target, i, g), f < Enough(index))
  {
    hide RightKey, ItemOk, Enough;
    RightKeySettles(index, target.next, f, g);
  }

  lemma {:induction false} ItemsSettle(index: Index, target: Page, i: nat, st: Carried, f: nat, g: nat)
    requires i <= |target.items| && f <= g
    ensures SameOrTooSmall(CheckItems(index, target, i, st, f), CheckItems(index, target, i, st, g), f < Enough(index))
    decreases |target.items| - i
  {
    hide CheckOrder, ChildHighKeyCheck, ChildOk, Read, Enough;
    if i == |target.items| {
      CallSettles(index, target, None, st, f, g);
    } else {
      OrderSettles(index, target, i, f, g);
      CallSettles(index, target, Some(i), st, f, g);
      var r := if target.leaf then Ok(st) else CheckChild(index, target, i, st, f);
      if r.Ok? { ItemsSettle(index, target, i + 1, r.value, f, g); }
    }
  }

  lemma {:induction false} PageSettles(index: Index, level: nat, isRoot: bool, v: Visit, f: nat, g: nat)
    requires f <= g
    ensures SameOrTooSmall(VisitPage(index, level, isRoot, v, f), VisitPage(index, level, isRoot, v, g),
                           f < Enough(index))
  {
    hide CheckItems, LiveOk, Sane, Enough;
    if v.b in index { ItemsSettle(index, index[v.b], 0, v.st, f, g); }
  }

  // ----- the page loop -----

  /** Where the page loop stands. */
  datatype Visit = Visit(left: nat, b: nat, isFirst: bool, st: Carried)

  function VisitPage(index: Index, level: nat, isRoot: bool, v: Visit, fuel: nat): Verdict<Carried> {
    CheckPage(index, level, isRoot, v.left, v.b, v.isFirst, v.st, fuel)
  }

  /** One turn of the page loop: the page passes and has a right sibling. */
  function NextPage(index: Index, level: nat, isRoot: bool, fuel: nat): Visit -> Option<Visit> {
    (v: Visit) =>
      var r := VisitPage(index, level, isRoot, v, fuel);
      if r.Ok? && v.b in index && !Rightmost(index[v.b])
      then Some(Visit(v.b, index[v.b].next, v.isFirst && Ignored(index[v.b]), r.value))
      else None
  }

  function LevelFrom(index: Index, level: nat, isRoot: bool, v: Visit, down: Option<nat>, fuel: nat, steps: nat)
    : Verdict<Level>
  {
    CheckLevel(index, level, isRoot, v.left, v.b, down, v.st, fuel, steps)
  }

  function DownAfter(index: Index, v: Visit, down: Option<nat>): Option<nat> {
    if v.b in index && down.None? && !Ignored(index[v.b]) then Some(DownFrom(index[v.b])) else down
  }

  /** The verdict on a level whose first block passes, from the one on the rest of it. */
  function WithBlock(b: nat, rest: Verdict<Level>): Verdict<Level> {
    if rest.Ok? then Ok(Level([b] + rest.value.chain, rest.value.down)) else rest
  }

  lemma {:induction false} LevelStep(index: Index, level: nat, isRoot: bool, v: Visit, down: Option<nat>, fuel: nat,
                                     steps: nat)
    requires NextPage(index, level, isRoot, fuel)(v).Some? && steps > 0 && (v.isFirst <==> down.None?)
    ensures var w, down' := NextPage(index, level, isRoot, fuel)(v).value, DownAfter(index, v, down);
            && LevelFrom(index, level, isRoot, v, down, fuel, steps) ==
               WithBlock(v.b, LevelFrom(index, level, isRoot, w, down', fuel, steps - 1))
            && (w.isFirst <==> down'.None?)
  {
    hide CheckPage, DownFrom;
  }

  lemma {:induction false} LevelAtEnd(index: Index, level: nat, isRoot: bool, v: Visit, down: Option<nat>, fuel: nat,
                                      k: nat, m: nat, n: nat)
    requires EndsAfter(NextPage(index, level, isRoot, fuel), v, k) && k < m && k < n && (v.isFirst <==> down.None?)
    ensures LevelFrom(index, level, isRoot, v, down, fuel, m) == LevelFrom(index, level, isRoot, v, down, fuel, n)
    decreases k
  {
    hide CheckPage, DownFrom, NextPage, DownAfter, LevelFrom;
    var next := NextPage(index, level, isRoot, fuel);
    if k == 0 {
      LevelStops(index, level, isRoot, v, down, fuel, m, n);
    } else {
      LevelStep(index, level, isRoot, v, down, fuel, m);
      LevelStep(index, level, isRoot, v, down, fuel, n);
      LevelAtEnd(index, level, isRoot, next(v).value, DownAfter(index, v, down), fuel, k - 1, m - 1, n - 1);
    }
  }

  lemma {:induction false} LevelStops(index: Index, level: nat, isRoot: bool, v: Visit, down: Option<nat>, fuel: nat,
                                      m: nat, n: nat)
    requires NextPage(index, level, isRoot, fuel)(v).None? && m > 0 && n > 0 && (v.isFirst <==> down.None?)
    ensures LevelFrom(index, level, isRoot, v, down, fuel, m) == LevelFrom(index, level, isRoot, v, down, fuel, n)
  {
    hide CheckPage, DownFrom;
  }

  lemma {:induction false} LevelRuns(index: Index, level: nat, isRoot: bool, v: Visit, down: Option<nat>, fuel: nat,
                                     steps: nat)
    requires RunsFor(NextPage(index, level, isRoot, fuel), v, steps) && (v.isFirst <==> down.None?)
    ensures LevelFrom(index, level, isRoot, v, down, fuel, steps) == Undecided
    decreases steps
  {
    hide CheckPage, DownFrom, NextPage, DownAfter;
    if steps > 0 {
      LevelStep(index, level, isRoot, v, down, fuel, steps);
      LevelRuns(index, level, isRoot, NextPage(index, level, isRoot, fuel)(v).value, DownAfter(index, v, down), fuel,
                steps - 1);
    }
  }

  // ----- finitely many visits -----

  function Lows(index: Index): set<Option<int>> { {None} + set b | b in index.Keys :: index[b].high }

  function Rights(index: Index): set<nat> { {INVALID_BLOCK} + set b | b in index.Keys :: index[b].next }

  function AllVisits(index: Index): set<Visit> {
    set l, b, f, k, r, q | l in index.Keys + {P_NONE} && b in index.Keys && f in {true, false} && k in Lows(index) &&
                           r in Rights(index) && q in {true, false} :: Visit(l, b, f, Carried(k, r, q))
  }

  lemma {:induction false} WalkCarries(index: Index, target: Page, off: Option<nat>, st: Carried, blk: nat,
                                       leftIsSplit: bool, first: bool, fuel: nat)
    requires off.Some? ==> off.value < |target.items|
    ensures var r := Walk(index, target, off, st, blk, leftIsSplit, first, fuel);
            r.Ok? ==> r.value.prevRight in Rights(index)
    decreases fuel
  {
    hide ChildLinksOk, ChildPageOk, NeedsItemZero, Sane;
    if blk in index && fuel > 0 {
      assert blk in index.Keys && index[blk].next in Rights(index);
      WalkCarries(index, target, off, st, index[blk].next, index[blk].incompleteSplit, false, fuel - 1);
    }
  }

  lemma {:induction false} ItemsCarry(index: Index, target: Page, i: nat, st: Carried, fuel: nat)
    requires i <= |target.items| && st.prevRight in Rights(index)
    ensures var r := CheckItems(index, target, i, st, fuel);
            r.Ok? ==> r.value.prevRight in Rights(index)
    decreases |target.items| - i
  {
    hide CheckOrder, ChildOk, Read, Walk, Rights;
    var off := if i < |target.items| then Some(i) else None;
    var s := FirstSpot(Call(index, target, off, st));
    WalkCarries(index, target, off, st, s.blk, s.leftIsSplit, s.first, fuel);
    if i < |target.items| {
      var r := if target.leaf then Ok(st) else CheckChild(index, target, i, st, fuel);
      if r.Ok? { ItemsCarry(index, target, i + 1, r.value, fuel); }
    }
  }

  lemma {:induction false} NextIsVisit(index: Index, level: nat, isRoot: bool, fuel: nat, v: Visit, w: Visit)
    requires NextPage(index, level, isRoot, fuel)(v) == Some(w) && NextPage(index, level, isRoot, fuel)(w).Some?
    requires v.st.prevRight in Rights(index)
    ensures w in AllVisits(index)
  {
    hide CheckItems, LiveOk, Sane, Rights;
    var p := index[v.b];
    ItemsCarry(index, p, 0, v.st, fuel);
    assert w.left in index.Keys && w.b in index.Keys;
    assert p.high in Lows(index);
    assert w.st == Carried(w.st.lowKey, w.st.prevRight, w.st.prevSplit);
  }

  lemma {:induction false} VisitsAreClosed(index: Index, level: nat, isRoot: bool, fuel: nat, v: Visit)
    requires v.st.prevRight in Rights(index)
    ensures Closed(NextPage(index, level, isRoot, fuel), v, AllVisits(index) + {v})
  {
    hide NextPage, Rights, Lows;
    var next := NextPage(index, level, isRoot, fuel);
    forall x, y | x in AllVisits(index) + {v} && next(x) == Some(y) && next(y).Some? ensures y in AllVisits(index) {
      NextIsVisit(index, level, isRoot, fuel, x, y);
    }
  }

  /** The number of turns after which a page loop that will end has ended. */
  ghost function EnoughSteps(index: Index): nat { |AllVisits(index)| + 2 }

  lemma {:induction false} LevelSettlesInSteps(index: Index, level: nat, isRoot: bool, v: Visit, down: Option<nat>,
                                               fuel: nat, m: nat, n: nat)
    requires m <= n && (v.isFirst <==> down.None?) && v.st.prevRight in Rights(index)
    ensures SameOrTooSmall(LevelFrom(index, level, isRoot, v, down, fuel, m),
                           LevelFrom(index, level, isRoot, v, down, fuel, n),
                           m < EnoughSteps(index))
  {
    hide LevelFrom, NextPage, RunsFor, After, ComesBack, Rights, AllVisits;
    var next, all := NextPage(index, level, isRoot, fuel), AllVisits(index) + {v};
    RunsOrEnds(next, v, m);
    if k: nat :| k < m && EndsAfter(next, v, k) {
      LevelAtEnd(index, level, isRoot, v, down, fuel, k, m, n);
    } else {
      LevelRuns(index, level, isRoot, v, down, fuel, m);
      if m >= EnoughSteps(index) {
        VisitsAreClosed(index, level, isRoot, fuel, v);
        RunsLess(next, v, m, |all| + 1);
        EndlessIff(next, v, all);
        LevelRuns(index, level, isRoot, v, down, fuel, n);
      }
    }
  }

  lemma {:induction false} LevelSettlesInFuel(index: Index, level: nat, isRoot: bool, v: Visit, down: Option<nat>,
                                              f: nat, g: nat, steps: nat)
    requires f <= g && (v.isFirst <==> down.None?)
    ensures SameOrTooSmall(LevelFrom(index, level, isRoot, v, down, f, steps),
                           LevelFrom(index, level, isRoot, v, down, g, steps),
                           f < Enough(index))
    decreases steps
  {
    hide CheckPage, DownFrom, Ignored, Rightmost, Enough;
    PageSettles(index, level, isRoot, v, f, g);
    var r := VisitPage(index, level, isRoot, v, f);
    if steps > 0 && r.Ok? && v.b in index {
      var p := index[v.b];
      var w := Visit(v.b, p.next, v.isFirst && Ignored(p), r.value);
      LevelSettlesInFuel(index, level, isRoot, w, DownAfter(index, v, down), f, g, steps - 1);
    }
  }

  /** The page loop never ends if and only if it comes to the same page twice in the same state, or comes to a page
      whose own check does not end. */
  lemma {:induction false} LevelNeverEndsIff(index: Index, level: nat, isRoot: bool, v: Visit, down: Option<nat>,
                                             fuel: nat)
    requires (v.isFirst <==> down.None?) && v.st.prevRight in Rights(index)
    ensures var next := NextPage(index, level, isRoot, fuel);
            (forall steps :: LevelFrom(index, level, isRoot, v, down, fuel, steps) == Undecided) <==>
            || (exists i: nat, j: nat :: j < EnoughSteps(index) && ComesBack(next, v, i, j))
            || (exists k: nat :: EndsAfter(next, v, k) &&
                                 VisitPage(index, level, isRoot, After(next, v, k), fuel) == Undecided)
  {
    hide LevelFrom, NextPage, RunsFor, After, ComesBack, Rights, AllVisits, VisitPage;
    var next, all := NextPage(index, level, isRoot, fuel), AllVisits(index) + {v};
    VisitsAreClosed(index, level, isRoot, fuel, v);
    EndlessIff(next, v, all);
    if i: nat, j: nat :| j < EnoughSteps(index) && ComesBack(next, v, i, j) {
      forall steps: nat ensures LevelFrom(index, level, isRoot, v, down, fuel, steps) == Undecided {
        BackMeansEndless(next, v, i, j, steps);
        LevelRuns(index, level, isRoot, v, down, fuel, steps);
      }
    } else {
      RunsOrEnds(next, v, |all| + 1);
      var k: nat :| EndsAfter(next, v, k);
      EndVerdict(index, level, isRoot, v, down, fuel, k);
      if VisitPage(index, level, isRoot, After(next, v, k), fuel) == Undecided {
        forall steps: nat ensures LevelFrom(index, level, isRoot, v, down, fuel, steps) == Undecided {
          if steps <= k {
            RunsLess(next, v, k, steps);
            LevelRuns(index, level, isRoot, v, down, fuel, steps);
          } else {
            LevelAtEnd(index, level, isRoot, v, down, fuel, k, k + 1, steps);
          }
        }
      }
      EndIsUnique(next, v, k);
    }
  }

  lemma {:induction false} EndIsUnique<S>(next: S -> Option<S>, v: S, k: nat)
    requires EndsAfter(next, v, k)
    ensures forall j: nat :: EndsAfter(next, v, j) ==> j == k
  {
    hide RunsFor, After;
    forall j: nat | EndsAfter(next, v, j) && j != k ensures false {
      var a, b := if j < k then j else k, if j < k then k else j;
      RunsLess(next, v, b, a + 1);
      RunsOn(next, v, a, 1);
      TurnIsStep(next, After(next, v, a));
    }
  }

  /** A loop that ends has no verdict exactly when its last page has none. */
  lemma {:induction false} EndVerdict(index: Index, level: nat, isRoot: bool, v: Visit, down: Option<nat>, fuel: nat,
                                      k: nat)
    requires EndsAfter(NextPage(index, level, isRoot, fuel), v, k) && (v.isFirst <==> down.None?)
    ensures LevelFrom(index, level, isRoot, v, down, fuel, k + 1) == Undecided <==>
            VisitPage(index, level, isRoot, After(NextPage(index, level, isRoot, fuel), v, k), fuel) == Undecided
    decreases k
  {
    hide CheckPage, DownFrom, NextPage, DownAfter, LevelFrom;
    if k == 0 {
      LastVerdict(index, level, isRoot, v, down, fuel);
    } else {
      LevelStep(index, level, isRoot, v, down, fuel, k + 1);
      EndVerdict(index, level, isRoot, NextPage(index, level, isRoot, fuel)(v).value, DownAfter(index, v, down), fuel,
                 k - 1);
    }
  }

  lemma {:induction false} LastVerdict(index: Index, level: nat, isRoot: bool, v: Visit, down: Option<nat>, fuel: nat)
    requires NextPage(index, level, isRoot, fuel)(v).None? && (v.isFirst <==> down.None?)
    ensures LevelFrom(index, level, isRoot, v, down, fuel, 1) == Undecided <==>
            VisitPage(index, level, isRoot, v, fuel) == Undecided
  {
    hide CheckPage, DownFrom;
  }

  // ----- the whole check -----

  lemma {:induction false} LevelSettles(index: Index, level: nat, isRoot: bool, leftmost: nat, f: nat, g: nat, m: nat,
                                        n: nat)
    requires f <= g && m <= n
    ensures SameOrTooSmall(CheckLevel(index, level, isRoot, P_NONE, leftmost, None, START, f, m),
                           CheckLevel(index, level, isRoot, P_NONE, leftmost, None, START, g, n),
                           f < Enough(index) || m < EnoughSteps(index))
  {
    hide CheckLevel, Enough, EnoughSteps;
    var v := Visit(P_NONE, leftmost, true, START);
    LevelSettlesInFuel(index, level, isRoot, v, None, f, g, m);
    LevelSettlesInSteps(index, level, isRoot, v, None, g, m, n);
  }

  /** With larger bounds the check keeps its verdict, and without one at bounds that depend on the index alone it never
      gets one. */
  lemma {:induction false} CheckSettles(index: Index, leftmost: nat, level: nat, isRoot: bool, f: nat, g: nat, m: nat,
                                        n: nat)
    requires f <= g && m <= n
    ensures SameOrTooSmall(CheckTree(index, leftmost, level, isRoot, f, m),
                           CheckTree(index, leftmost, level, isRoot, g, n),
                           f < Enough(index) || m < EnoughSteps(index))
    decreases level
  {
    hide CheckLevel, Enough, EnoughSteps;
    LevelSettles(index, level, isRoot, leftmost, f, g, m, n);
    var l := CheckLevel(index, level, isRoot, P_NONE, leftmost, None, START, f, m);
    if l.Ok? && level > 0 { CheckSettles(index, l.value.down, level - 1, false, f, g, m, n); }
  }

  /** The check has no verdict at any bounds if and only if it has none at those. */
  lemma {:induction false} CheckNeverEndsIff(index: Index, leftmost: nat, level: nat, isRoot: bool)
    ensures (forall fuel, steps :: CheckTree(index, leftmost, level, isRoot, fuel, steps) == Undecided) <==>
            CheckTree(index, leftmost, level, isRoot, Enough(index), EnoughSteps(index)) == Undecided
  {
    hide CheckTree, Enough, EnoughSteps;
    var f, m := Enough(index), EnoughSteps(index);
    if CheckTree(index, leftmost, level, isRoot, f, m) == Undecided {
      forall fuel: nat, steps: nat ensures CheckTree(index, leftmost, level, isRoot, fuel, steps) == Undecided {
        CheckSettles(index, leftmost, level, isRoot, fuel, f + fuel, steps, m + steps);
        CheckSettles(index, leftmost, level, isRoot, f, f + fuel, m, m + steps);
      }
    }
  }
}
