/** g_int_picksplit, with the merges of sorted arrays it is built on. */
module IntSplit {
  import opened IntRanges
  import opened IntGist
  import opened GistSplit

  // ----- union and intersection of sorted arrays -----

  function Merge(a: seq<int>, b: seq<int>): seq<int>
    decreases |a| + |b|
  {
    if a == [] then b
    else if b == [] then a
    else if a[0] == b[0] then [a[0]] + Merge(a[1..], b[1..])
    else if a[0] < b[0] then [a[0]] + Merge(a[1..], b)
    else [b[0]] + Merge(a, b[1..])
  }

  function Common(a: seq<int>, b: seq<int>): seq<int>
    decreases |a| + |b|
  {
    if a == [] || b == [] then []
    else if a[0] == b[0] then [a[0]] + Common(a[1..], b[1..])
    else if a[0] < b[0] then Common(a[1..], b)
    else Common(a, b[1..])
  }

  lemma {:induction false} Cons(x: int, s: seq<int>)
    requires Increasing(s) && forall y :: y in s ==> x < y
    ensures Increasing([x] + s)
  {
    assert forall i :: 0 <= i < |s| ==> s[i] in s;
  }

  lemma {:induction false} Head(a: seq<int>)
    requires Increasing(a) && a != []
    ensures Increasing(a[1..]) && forall x :: x in a[1..] ==> a[0] < x
    ensures forall x :: x in a <==> x == a[0] || x in a[1..]
  {
    assert a == [a[0]] + a[1..];
  }

  lemma {:induction false} MergeIsUnion(a: seq<int>, b: seq<int>)
    requires Increasing(a) && Increasing(b)
    ensures Increasing(Merge(a, b)) && forall x :: x in Merge(a, b) <==> x in a || x in b
    decreases |a| + |b|
  {
    hide Increasing;
    if a != [] && b != [] {
      Head(a);
      Head(b);
      if a[0] == b[0] {
        MergeIsUnion(a[1..], b[1..]);
        Cons(a[0], Merge(a[1..], b[1..]));
      } else if a[0] < b[0] {
        MergeIsUnion(a[1..], b);
        Cons(a[0], Merge(a[1..], b));
      } else {
        MergeIsUnion(a, b[1..]);
        Cons(b[0], Merge(a, b[1..]));
      }
    }
  }

  lemma {:induction false} CommonIsIntersection(a: seq<int>, b: seq<int>)
    requires Increasing(a) && Increasing(b)
    ensures Increasing(Common(a, b)) && forall x :: x in Common(a, b) <==> x in a && x in b
    decreases |a| + |b|
  {
    hide Increasing;
    if a == [] || b == [] {
      assert Increasing([]) by { EmptyIncreases(); }
    } else {
      Head(a);
      Head(b);
      if a[0] == b[0] {
        CommonIsIntersection(a[1..], b[1..]);
        Cons(a[0], Common(a[1..], b[1..]));
      } else if a[0] < b[0] {
        CommonIsIntersection(a[1..], b);
      } else {
        CommonIsIntersection(a, b[1..]);
      }
    }
  }

  lemma {:induction false} EmptyIncreases()
    ensures Increasing([])
  {
  }

  lemma {:induction false} FirstIsShared(a: seq<int>, b: seq<int>)
    requires a != [] && forall x :: x in a ==> x in b
    ensures a[0] in b
  {
    var x := a[0];
    assert x in a;
  }

  /** A set has one increasing array. */
  lemma {:induction false} IncreasingIsUnique(a: seq<int>, b: seq<int>)
    requires Increasing(a) && Increasing(b) && (forall x :: x in a ==> x in b) && forall x :: x in b ==> x in a
    ensures a == b
    decreases |a|
  {
    hide Increasing;
    if a != [] { FirstIsShared(a, b); }
    if b != [] { FirstIsShared(b, a); }
    if a != [] {
      Head(a);
      Head(b);
      IncreasingIsUnique(a[1..], b[1..]);
      assert a == [a[0]] + a[1..] && b == [b[0]] + b[1..];
    }
  }

  /** inner_int_union: the two arrays merged into a new one, equal elements once. */
  method InnerUnion(a: seq<int>, b: seq<int>) returns (r: seq<int>)
    ensures r == Merge(a, b)
  {
    if a == [] { return b; }
    if b == [] { return a; }
    var dr := new int[|a| + |b|];
    var i, j, w := 0, 0, 0;
    assert dr[..0] == [] && a[0..] == a && b[0..] == b;
    while i < |a| && j < |b|
      invariant 0 <= i <= |a| && 0 <= j <= |b| && 0 <= w <= i + j
      invariant dr[..w] + Merge(a[i..], b[j..]) == Merge(a, b)
      decreases |a| - i + |b| - j
    {
      MergeStep(dr[..w], a, b, i, j);
      if a[i] == b[j] {
        w := Write(dr, w, a[i]);
        i, j := i + 1, j + 1;
      } else if a[i] < b[j] {
        w := Write(dr, w, a[i]);
        i := i + 1;
      } else {
        w := Write(dr, w, b[j]);
        j := j + 1;
      }
    }
    var rest := if i < |a| then a[i..] else b[j..];
    MergeRest(a, b, i, j);
    w := Copy(dr, w, rest);
    r := dr[..w];
  }

  lemma {:induction false} MergeStep(done: seq<int>, a: seq<int>, b: seq<int>, i: nat, j: nat)
    requires i < |a| && j < |b|
    ensures done + Merge(a[i..], b[j..]) ==
      if a[i] == b[j] then done + [a[i]] + Merge(a[i + 1..], b[j + 1..])
      else if a[i] < b[j] then done + [a[i]] + Merge(a[i + 1..], b[j..])
      else done + [b[j]] + Merge(a[i..], b[j + 1..])
  {
    assert a[i..][1..] == a[i + 1..] && b[j..][1..] == b[j + 1..];
  }

  lemma {:induction false} MergeRest(a: seq<int>, b: seq<int>, i: nat, j: nat)
    requires i <= |a| && j <= |b| && (i == |a| || j == |b|)
    ensures Merge(a[i..], b[j..]) == if i < |a| then a[i..] else b[j..]
  {
  }

  method Write(dr: array<int>, w: nat, x: int) returns (w': nat)
    requires w < dr.Length
    modifies dr
    ensures w' == w + 1 && dr[..w'] == old(dr[..w]) + [x]
  {
    dr[w] := x;
    w' := w + 1;
  }

  method Copy(dr: array<int>, w: nat, src: seq<int>) returns (w': nat)
    requires w + |src| <= dr.Length
    modifies dr
    ensures w' == w + |src| && dr[..w'] == old(dr[..w]) + src
  {
    w' := w;
    for k := 0 to |src|
      invariant w' == w + k && dr[..w'] == old(dr[..w]) + src[..k]
    {
      w' := Write(dr, w', src[k]);
    }
  }

  // ----- seeds, costs and the choice of a side -----

  /** The size of the union less that of the intersection. */
  function Wastes(es: seq<seq<int>>): (nat, nat) -> real {
    (i: nat, j: nat) => if i < |es| && j < |es| then Waste(es[i], es[j]) as real else 0.0
  }

  function Waste(a: seq<int>, b: seq<int>): int { |Merge(a, b)| - |Common(a, b)| }

  /** How much an array grows by taking in another. */
  function Growth(key: seq<int>, e: seq<int>): int { |Merge(key, e)| - |key| }

  /** What the entries are sorted by before they are placed. */
  function Cost(es: seq<seq<int>>, seed1: nat, seed2: nat, x: nat): int
    requires seed1 < |es| && seed2 < |es| && x < |es|
  {
    var d := Growth(es[seed1], es[x]) - Growth(es[seed2], es[x]);
    if d < 0 then -d else d
  }

  ghost predicate SortedByCost(es: seq<seq<int>>, seed1: nat, seed2: nat, order: seq<nat>) {
    && seed1 < |es| && seed2 < |es| && Arrangement(order, |es|)
    && forall i, j :: 0 <= i < j < |order| ==> Cost(es, seed1, seed2, order[i]) <= Cost(es, seed1, seed2, order[j])
  }

  const BALANCE: real := 0.01

  datatype Placing = Placing(left: seq<nat>, right: seq<nat>, keyL: seq<int>, keyR: seq<int>)

  /** One turn of the placing loop. */
  function Next(p: Placing, es: seq<seq<int>>, seed1: nat, seed2: nat, x: nat): Placing
    requires x < |es|
  {
    if x == seed1 then p.(left := p.left + [x])
    else if x == seed2 then p.(right := p.right + [x])
    else
      var l, r := Growth(p.keyL, es[x]) as real, Growth(p.keyR, es[x]) as real;
      if l < r + Wish(|p.left|, |p.right|, BALANCE) then p.(left := p.left + [x], keyL := Merge(p.keyL, es[x]))
      else p.(right := p.right + [x], keyR := Merge(p.keyR, es[x]))
  }

  /** The state after k turns. */
  function Place(es: seq<seq<int>>, seed1: nat, seed2: nat, order: seq<nat>, k: nat): Placing
    requires seed1 < |es| && seed2 < |es| && k <= |order| && forall i :: 0 <= i < |order| ==> order[i] < |es|
  {
    if k == 0 then Placing([], [], es[seed1], es[seed2])
    else Next(Place(es, seed1, seed2, order, k - 1), es, seed1, seed2, order[k - 1])
  }

  // ----- the elements of several entries -----

  /** Some array at the offsets ms has the element. */
  ghost predicate Any(es: seq<seq<int>>, ms: seq<nat>, y: int) {
    exists k :: 0 <= k < |ms| && ms[k] < |es| && y in es[ms[k]]
  }

  /** The key has exactly the elements of the arrays at the offsets ms. */
  ghost predicate Exact(key: seq<int>, es: seq<seq<int>>, ms: seq<nat>) {
    Increasing(key) && forall y :: y in key <==> Any(es, ms, y)
  }

  lemma {:induction false} AnyMore(es: seq<seq<int>>, ms: seq<nat>, x: nat, y: int)
    requires x < |es|
    ensures Any(es, ms + [x], y) <==> Any(es, ms, y) || y in es[x]
    ensures x in ms && y in es[x] ==> Any(es, ms, y)
  {
    var more := ms + [x];
    if Any(es, ms, y) {
      var k :| 0 <= k < |ms| && ms[k] < |es| && y in es[ms[k]];
      assert more[k] == ms[k];
    }
    assert more[|ms|] == x;
  }

  lemma {:induction false} ExactMore(key: seq<int>, es: seq<seq<int>>, ms: seq<nat>, x: nat)
    requires Exact(key, es, ms) && x < |es| && Increasing(es[x])
    ensures Exact(Merge(key, es[x]), es, ms + [x])
    ensures x in ms ==> Exact(key, es, ms + [x])
  {
    hide Any, Merge, Increasing;
    MergeIsUnion(key, es[x]);
    forall y ensures Any(es, ms + [x], y) <==> Any(es, ms, y) || y in es[x]
             ensures x in ms && y in es[x] ==> Any(es, ms, y)
    {
      AnyMore(es, ms, x, y);
    }
  }

  /** The elements that an entry would bring in. */
  ghost function Fresh(es: seq<seq<int>>, ms: seq<nat>, x: nat): set<int> {
    if x < |es| then set y | y in es[x] && !Any(es, ms, y) else {}
  }

  lemma {:induction false} SizeIs(a: seq<int>)
    requires Increasing(a)
    ensures |a| == |set y | y in a|
  {
    if a != [] {
      Head(a);
      SizeIs(a[1..]);
      assert (set y | y in a) == (set y | y in a[1..]) + {a[0]};
    }
  }

  /** An array grows by the number of elements that it did not have. */
  lemma {:induction false} GrowthIs(key: seq<int>, es: seq<seq<int>>, ms: seq<nat>, x: nat)
    requires Exact(key, es, ms) && x < |es| && Increasing(es[x])
    ensures Growth(key, es[x]) == |Fresh(es, ms, x)|
  {
    hide Merge, Any, Increasing;
    MergeIsUnion(key, es[x]);
    SizeIs(key);
    SizeIs(Merge(key, es[x]));
    var all, had, added := (set y | y in Merge(key, es[x])), (set y | y in key), Fresh(es, ms, x);
    assert all == had + added && had !! added by {
      forall y ensures y in all <==> y in had || y in added {}
      forall y | y in added ensures y !in had {}
    }
  }

  /** The entry brings fewer new elements to the left seed and side than to the right ones, but for a bonus for the
      smaller side. */
  ghost function Nearer(es: seq<seq<int>>, seed1: nat, seed2: nat): Choice {
    (l: seq<nat>, r: seq<nat>, x: nat) =>
      |Fresh(es, [seed1] + l, x)| as real < |Fresh(es, [seed2] + r, x)| as real + Wish(|l|, |r|, BALANCE)
  }

  // ----- what a split keeps -----

  ghost predicate Holds(key: seq<int>, es: seq<seq<int>>, side: seq<nat>) {
    Increasing(key) && forall k :: 0 <= k < |side| ==> side[k] < |es| && Subset(es[side[k]], key)
  }

  lemma {:induction false} ExactHolds(key: seq<int>, es: seq<seq<int>>, seed: nat, side: seq<nat>)
    requires Exact(key, es, [seed] + side) && forall k :: 0 <= k < |side| ==> side[k] < |es|
    ensures Holds(key, es, side)
  {
    hide Increasing, Any;
    var ms := [seed] + side;
    forall k | 0 <= k < |side| ensures Subset(es[side[k]], key) {
      assert ms[k + 1] == side[k];
      forall y | y in es[side[k]] ensures y in key { AnyMore(es, ms, side[k], y); }
    }
  }

  ghost predicate AllIncreasing(es: seq<seq<int>>) { forall i :: 0 <= i < |es| ==> Increasing(es[i]) }

  /** After k turns: each entry is on the side it was nearer to, and each key has the elements of its seed and side. */
  lemma {:induction false} PlacedSoFar(es: seq<seq<int>>, seed1: nat, seed2: nat, order: seq<nat>, k: nat)
    returns (sentLeft: set<nat>)
    requires seed1 < |es| && seed2 < |es| && Arrangement(order, |es|) && AllIncreasing(es) && k <= |order|
    ensures var p := Place(es, seed1, seed2, order, k);
      && (forall x :: x in sentLeft ==> x in order[..k])
      && p.left == SideOf(order[..k], seed1, seed2, sentLeft, true)
      && p.right == SideOf(order[..k], seed1, seed2, sentLeft, false)
      && Greedy(order[..k], seed1, seed2, sentLeft, Nearer(es, seed1, seed2))
      && Exact(p.keyL, es, [seed1] + p.left) && Exact(p.keyR, es, [seed2] + p.right)
  {
    hide SideOf, Increasing, Merge, Next, GoesLeft, Exact, Greedy, Nearer;
    var nearer := Nearer(es, seed1, seed2);
    sentLeft := {};
    if k == 0 {
      NothingPlaced(order, seed1, seed2);
      NothingSent(order, seed1, seed2, nearer);
      SeedIsExact(es, seed1);
      SeedIsExact(es, seed2);
      assert [seed1] + [] == [seed1] && [seed2] + [] == [seed2];
    } else {
      var sent := PlacedSoFar(es, seed1, seed2, order, k - 1);
      var p, x := Place(es, seed1, seed2, order, k - 1), order[k - 1];
      ExactMore(p.keyL, es, [seed1] + p.left, x);
      ExactMore(p.keyR, es, [seed2] + p.right, x);
      assert [seed1] + (p.left + [x]) == [seed1] + p.left + [x];
      assert [seed2] + (p.right + [x]) == [seed2] + p.right + [x];
      var q := Next(p, es, seed1, seed2, x);
      var send := x != seed1 && x != seed2 && q.left != p.left;
      assert x !in order[..k - 1];
      PlaceNext(order, k - 1, seed1, seed2, sent, send);
      sentLeft := if send then sent + {x} else sent;
      WhereSent(x, seed1, seed2, sent, send);
      NextSide(p, es, seed1, seed2, x);
      if x != seed1 && x != seed2 { NextIsNearer(p, es, seed1, seed2, x); }
      GreedyNext(order, k - 1, seed1, seed2, sent, send, nearer);
      assert order[..k] == order[..k - 1] + [x];
    }
  }

  lemma {:induction false} SeedIsExact(es: seq<seq<int>>, seed: nat)
    requires seed < |es| && Increasing(es[seed])
    ensures Exact(es[seed], es, [seed])
  {
    hide Increasing;
    forall y | y in es[seed] ensures Any(es, [seed], y) { assert [seed][0] == seed; }
  }

  lemma {:induction false} NextIsNearer(p: Placing, es: seq<seq<int>>, seed1: nat, seed2: nat, x: nat)
    requires x < |es| && x != seed1 && x != seed2 && Increasing(es[x])
    requires Exact(p.keyL, es, [seed1] + p.left) && Exact(p.keyR, es, [seed2] + p.right)
    ensures Next(p, es, seed1, seed2, x).left != p.left <==> Nearer(es, seed1, seed2)(p.left, p.right, x)
  {
    hide Exact, Growth, Merge, Fresh, Wish;
    GrowthIs(p.keyL, es, [seed1] + p.left, x);
    GrowthIs(p.keyR, es, [seed2] + p.right, x);
  }

  lemma {:induction false} WhereSent(x: nat, seed1: nat, seed2: nat, sent: set<nat>, send: bool)
    requires x !in sent
    ensures GoesLeft(x, seed1, seed2, if send then sent + {x} else sent) <==> x == seed1 || (x != seed2 && send)
  {
  }

  /** A turn adds the entry to one side and enlarges at most the key of that side. */
  lemma {:induction false} NextSide(p: Placing, es: seq<seq<int>>, seed1: nat, seed2: nat, x: nat)
    requires x < |es|
    ensures var q := Next(p, es, seed1, seed2, x);
      if x == seed1 || (x != seed2 && q.left != p.left) then
        q.left == p.left + [x] && q.right == p.right && q.keyR == p.keyR &&
        q.keyL == if x == seed1 then p.keyL else Merge(p.keyL, es[x])
      else
        q.left == p.left && q.right == p.right + [x] && q.keyL == p.keyL &&
        q.keyR == if x == seed2 then p.keyR else Merge(p.keyR, es[x])
  {
    hide Merge, Wish;
  }

  /** g_int_picksplit: the entries are placed in any order, whatever qsort makes of equal costs. */
  method PickSplit(es: seq<seq<int>>, order: seq<nat>)
    returns (left: seq<nat>, right: seq<nat>, keyL: seq<int>, keyR: seq<int>, ghost seed1: nat, ghost seed2: nat,
             ghost sentLeft: set<nat>)
    requires |es| >= 2 && AllIncreasing(es) && Arrangement(order, |es|)
    ensures Seeds(|es|, Wastes(es), seed1, seed2)
    ensures Placing(left, right, keyL, keyR) == Place(es, seed1, seed2, order, |order|)
    ensures left == SideOf(order, seed1, seed2, sentLeft, true)
    ensures right == SideOf(order, seed1, seed2, sentLeft, false)
    ensures Greedy(order, seed1, seed2, sentLeft, Nearer(es, seed1, seed2))
    ensures Splits(left, right, |es|) && Holds(keyL, es, left) && Holds(keyR, es, right)
    ensures Exact(keyL, es, [seed1] + left) && Exact(keyR, es, [seed2] + right)
  {
    hide Merge, SideOf, Wish, Seeds, Splits, Increasing, Greedy, Nearer, Exact, Holds;
    var s1, s2 := FindSeeds(|es|, Wastes(es));
    SeedsInRange(|es|, Wastes(es), s1, s2);
    seed1, seed2 := s1, s2;
    left, right, keyL, keyR := [], [], es[s1], es[s2];
    for k := 0 to |order|
      invariant Placing(left, right, keyL, keyR) == Place(es, s1, s2, order, k)
    {
      var i := order[k];
      if i == s1 {
        left := left + [i];
      } else if i == s2 {
        right := right + [i];
      } else {
        var unionL := InnerUnion(keyL, es[i]);
        var unionR := InnerUnion(keyR, es[i]);
        var l, r := (|unionL| - |keyL|) as real, (|unionR| - |keyR|) as real;
        if l < r + Wish(|left|, |right|, BALANCE) {
          left, keyL := left + [i], unionL;
        } else {
          right, keyR := right + [i], unionR;
        }
      }
    }
    sentLeft := PlacedSoFar(es, s1, s2, order, |order|);
    assert order[..|order|] == order;
    PlacedOnce(order, |es|, s1, s2, sentLeft);
    SidesInRange(left, right, |es|);
    ExactHolds(keyL, es, s1, left);
    ExactHolds(keyR, es, s2, right);
  }

  // ----- the sides are not in order -----

  const SPLIT_ME: seq<seq<int>> := [[1, 2, 3], [11, 12, 13], [1, 2, 4], [1]]

  lemma {:induction false} MergeEquals(a: seq<int>, b: seq<int>, r: seq<int>)
    requires Increasing(a) && Increasing(b) && Increasing(r) && forall x :: x in r <==> x in a || x in b
    ensures Merge(a, b) == r
  {
    MergeIsUnion(a, b);
    IncreasingIsUnique(Merge(a, b), r);
  }

  lemma {:induction false} CommonEquals(a: seq<int>, b: seq<int>, r: seq<int>)
    requires Increasing(a) && Increasing(b) && Increasing(r) && forall x :: x in r <==> x in a && x in b
    ensures Common(a, b) == r
  {
    CommonIsIntersection(a, b);
    IncreasingIsUnique(Common(a, b), r);
  }

  lemma {:induction false} Apart(a: seq<int>, b: seq<int>)
    requires a != [] && b != [] ==> a[|a| - 1] < b[0]
    requires Increasing(a)
    ensures Merge(a, b) == a + b && Merge(b, a) == a + b && Common(a, b) == [] && Common(b, a) == []
    decreases |a|
  {
    if a != [] && b != [] {
      Apart(a[1..], b);
      assert a == [a[0]] + a[1..];
      assert [a[0]] + (a[1..] + b) == a + b;
    }
  }

  lemma {:induction false} FirstAndThird()
    ensures Merge([1, 2, 3], [1, 2, 4]) == [1, 2, 3, 4] && Common([1, 2, 3], [1, 2, 4]) == [1, 2]
  {
    MergeEquals([1, 2, 3], [1, 2, 4], [1, 2, 3, 4]);
    CommonEquals([1, 2, 3], [1, 2, 4], [1, 2]);
  }

  /** What the entries of SPLIT_ME waste and cost. */
  lemma {:induction false} SplitMeSizes()
    ensures Waste([1, 2, 3], [11, 12, 13]) == 6 && Waste([1, 2, 3], [1, 2, 4]) == 2
    ensures Waste([11, 12, 13], [1, 2, 4]) == 6
    ensures Growth([1, 2, 3], [1, 2, 3]) == 0 && Growth([11, 12, 13], [11, 12, 13]) == 0
    ensures Growth([1, 2, 3], [11, 12, 13]) == 3 && Growth([11, 12, 13], [1, 2, 3]) == 3
    ensures Growth([1, 2, 3], [1, 2, 4]) == 1 && Growth([11, 12, 13], [1, 2, 4]) == 3
    ensures Merge([1, 2, 3], [1]) == [1, 2, 3] && Growth([1, 2, 3], [1]) == 0 && Growth([11, 12, 13], [1]) == 1
  {
    hide Merge, Common;
    Apart([1, 2, 3], [11, 12, 13]);
    Apart([1, 2, 4], [11, 12, 13]);
    Apart([1], [11, 12, 13]);
    FirstAndThird();
    MergeEquals([1, 2, 3], [1], [1, 2, 3]);
    MergeSelf([1, 2, 3]);
    MergeSelf([11, 12, 13]);
  }

  lemma {:induction false} MergeSelf(a: seq<int>)
    requires Increasing(a)
    ensures Merge(a, a) == a
  {
    MergeEquals(a, a, a);
  }

  lemma {:induction false} SplitMeSeeds()
    ensures Seeds(4, Wastes(SPLIT_ME), 0, 1) && SortedByCost(SPLIT_ME, 0, 1, [3, 2, 0, 1])
  {
    hide Waste, Growth;
    SplitMeSizes();
    var w := Wastes(SPLIT_ME);
    assert w(0, 1) == 6.0 && w(0, 2) == 2.0 && w(1, 2) == 6.0;
    forall a, b | 0 <= a < b < 3 && Before(a, b, 3, 0)
      ensures w(a, b) <= w(0, 1) && (Before(a, b, 0, 1) ==> w(a, b) < w(0, 1))
    {
      assert (a == 0 && b == 1) || (a == 0 && b == 2) || (a == 1 && b == 2);
    }
    var order := [3, 2, 0, 1];
    assert SPLIT_ME[0] == [1, 2, 3] && SPLIT_ME[1] == [11, 12, 13] && SPLIT_ME[2] == [1, 2, 4] && SPLIT_ME[3] == [1];
    assert order[0] == 3 && order[1] == 2 && order[2] == 0 && order[3] == 1;
    assert Cost(SPLIT_ME, 0, 1, 3) == 1 && Cost(SPLIT_ME, 0, 1, 2) == 2;
    assert Cost(SPLIT_ME, 0, 1, 0) == 3 && Cost(SPLIT_ME, 0, 1, 1) == 3;
  }

  /** Entries placed in the order of their costs: the left side is 3, 2, 0 and not ascending. */
  lemma {:induction false} SidesNeedNotAscend()
    ensures Seeds(|SPLIT_ME|, Wastes(SPLIT_ME), 0, 1) && SortedByCost(SPLIT_ME, 0, 1, [3, 2, 0, 1])
    ensures Place(SPLIT_ME, 0, 1, [3, 2, 0, 1], 4).left == [3, 2, 0] && !Ascending([3, 2, 0])
  {
    hide Merge, Seeds, SortedByCost;
    SplitMeSeeds();
    SplitMeSizes();
    var order := [3, 2, 0, 1];
    var p1 := Placing([3], [], [1, 2, 3], [11, 12, 13]);
    assert Place(SPLIT_ME, 0, 1, order, 0) == Placing([], [], [1, 2, 3], [11, 12, 13]);
    assert Place(SPLIT_ME, 0, 1, order, 1) == p1;
    assert Place(SPLIT_ME, 0, 1, order, 2).left == [3, 2];
    assert Place(SPLIT_ME, 0, 1, order, 3).left == [3, 2, 0];
    var s: seq<nat> := [3, 2, 0];
    assert s[0] > s[1];
  }
}
