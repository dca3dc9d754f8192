/**
 * What the picksplit functions of cube, hstore and intarray share: the search for two seeds, and the placing of
 * the entries in some order.  Offsets start at zero.
 */
module GistSplit {

  // ----- seeds -----

  /** Pair (a, b) is looked at before pair (i, j). */
  predicate Before(a: nat, b: nat, i: nat, j: nat) { a < i || (a == i && b < j) }

  /** Of the pairs of the first m entries looked at before (i, j), (s, t) is the first one with the largest waste. */
  ghost predicate BestBefore(waste: (nat, nat) -> real, m: nat, i: nat, j: nat, s: nat, t: nat) {
    && s < t < m && Before(s, t, i, j)
    && forall a, b :: 0 <= a < b < m && Before(a, b, i, j) ==>
         waste(a, b) <= waste(s, t) && (Before(a, b, s, t) ==> waste(a, b) < waste(s, t))
  }

  /** The seeds for n entries: the last entry is not looked at, and with fewer than three the first two are taken. */
  ghost predicate Seeds(n: nat, waste: (nat, nat) -> real, s: nat, t: nat) {
    && s < t < n
    && if n < 3 then s == 0 && t == 1 else BestBefore(waste, n - 1, n - 1, 0, s, t)
  }

  /** The search of g_cube_picksplit and g_int_picksplit: the first pair is taken, then any that wastes more. */
  method FindSeeds(n: nat, waste: (nat, nat) -> real) returns (s: nat, t: nat)
    requires n >= 2
    ensures Seeds(n, waste, s, t)
  {
    var m, firstTime, most := n - 1, true, 0.0;
    s, t := 0, 1;
    for i := 0 to m - 1
      invariant firstTime <==> i == 0
      invariant i == 0 ==> s == 0 && t == 1
      invariant i > 0 ==> BestBefore(waste, m, i, 0, s, t) && most == waste(s, t)
    {
      for j := i + 1 to m
        invariant firstTime <==> i == 0 && j == 1
        invariant i == 0 && j == 1 ==> s == 0 && t == 1
        invariant !firstTime ==> BestBefore(waste, m, i, j, s, t) && most == waste(s, t)
      {
        if firstTime || waste(i, j) > most {
          most, s, t, firstTime := waste(i, j), i, j, false;
        }
      }
      assert forall a, b :: 0 <= a < b < m ==> (Before(a, b, i, m) <==> Before(a, b, i + 1, 0));
    }
    assert n >= 3 ==> forall a, b :: 0 <= a < b < m ==> Before(a, b, m - 1, 0) && Before(a, b, m, 0);
  }

  /** The search of ghstore_picksplit and g_intbig_picksplit: the distance starts at -1, and seeds that were not
      found are replaced by the first two entries. */
  method FindFarthest(n: nat, distance: (nat, nat) -> real) returns (s: nat, t: nat)
    requires n >= 2 && forall i, j :: distance(i, j) >= 0.0
    ensures Seeds(n, distance, s, t)
  {
    var m, found, most := n - 1, false, -1.0;
    s, t := 0, 0;
    for i := 0 to m - 1
      invariant found <==> i > 0
      invariant !found ==> most == -1.0
      invariant found ==> BestBefore(distance, m, i, 0, s, t) && most == distance(s, t)
    {
      for j := i + 1 to m
        invariant found <==> i > 0 || j > 1
        invariant !found ==> most == -1.0
        invariant found ==> BestBefore(distance, m, i, j, s, t) && most == distance(s, t)
      {
        if distance(i, j) > most {
          most, s, t, found := distance(i, j), i, j, true;
        }
      }
      assert forall a, b :: 0 <= a < b < m ==> (Before(a, b, i, m) <==> Before(a, b, i + 1, 0));
    }
    if !found {
      s, t := 0, 1;
    }
    assert n >= 3 ==> forall a, b :: 0 <= a < b < m ==> Before(a, b, m - 1, 0) && Before(a, b, m, 0);
  }

  lemma {:induction false} SeedsInRange(n: nat, waste: (nat, nat) -> real, s: nat, t: nat)
    requires Seeds(n, waste, s, t)
    ensures s < t < n
  {
  }

  // ----- placing -----

  /** WISH_F. */
  function Wish(a: nat, b: nat, c: real): real {
    var d := (a - b) as real;
    -(d * d * d) * c
  }

  predicate Distinct(s: seq<nat>) { forall i, j :: 0 <= i < j < |s| ==> s[i] != s[j] }

  function Offsets(n: nat): (s: seq<nat>)
    ensures |s| == n && forall i :: 0 <= i < n ==> s[i] == i
  {
    if n == 0 then [] else Offsets(n - 1) + [n - 1]
  }

  /** The offsets of n entries in some order. */
  predicate Arrangement(order: seq<nat>, n: nat) {
    && |order| == n && Distinct(order)
    && (forall i :: 0 <= i < n ==> order[i] < n)
    && forall x: nat :: x < n ==> x in order
  }

  /** Each seed goes to its own side, any other entry where it is sent. */
  predicate GoesLeft(x: nat, seed1: nat, seed2: nat, sentLeft: set<nat>) {
    x == seed1 || (x != seed2 && x in sentLeft)
  }

  /** The entries of one side, in the order in which they are placed. */
  function SideOf(order: seq<nat>, seed1: nat, seed2: nat, sentLeft: set<nat>, left: bool): seq<nat>
    decreases |order|
  {
    if order == [] then []
    else
      var n := |order| - 1;
      SideOf(order[..n], seed1, seed2, sentLeft, left) +
      if GoesLeft(order[n], seed1, seed2, sentLeft) == left then [order[n]] else []
  }

  lemma {:induction false} SideMembers(order: seq<nat>, seed1: nat, seed2: nat, sentLeft: set<nat>, left: bool)
    ensures forall x :: x in SideOf(order, seed1, seed2, sentLeft, left) <==>
                        x in order && GoesLeft(x, seed1, seed2, sentLeft) == left
    decreases |order|
  {
    hide GoesLeft;
    if order != [] {
      var n := |order| - 1;
      SideMembers(order[..n], seed1, seed2, sentLeft, left);
      assert order == order[..n] + [order[n]];
    }
  }

  lemma {:induction false} SideDistinct(order: seq<nat>, seed1: nat, seed2: nat, sentLeft: set<nat>, left: bool)
    requires Distinct(order)
    ensures Distinct(SideOf(order, seed1, seed2, sentLeft, left))
    decreases |order|
  {
    hide GoesLeft;
    if order != [] {
      var n := |order| - 1;
      SideDistinct(order[..n], seed1, seed2, sentLeft, left);
      SideMembers(order[..n], seed1, seed2, sentLeft, left);
      assert order[n] !in order[..n];
    }
  }

  /** Every offset below n is placed once, on one side, and both sides have an entry. */
  ghost predicate Splits(left: seq<nat>, right: seq<nat>, n: nat) {
    && left != [] && right != [] && Distinct(left) && Distinct(right)
    && (forall x :: x in left ==> x < n) && (forall x :: x in right ==> x < n)
    && forall x: nat :: x < n ==> (x in left <==> x !in right)
  }

  lemma {:induction false} PlacedOnce(order: seq<nat>, n: nat, seed1: nat, seed2: nat, sentLeft: set<nat>)
    requires Arrangement(order, n) && seed1 < n && seed2 < n && seed1 != seed2
    ensures Splits(SideOf(order, seed1, seed2, sentLeft, true), SideOf(order, seed1, seed2, sentLeft, false), n)
    ensures seed1 in SideOf(order, seed1, seed2, sentLeft, true)
    ensures seed2 in SideOf(order, seed1, seed2, sentLeft, false)
  {
    hide SideOf;
    SideMembers(order, seed1, seed2, sentLeft, true);
    SideMembers(order, seed1, seed2, sentLeft, false);
    SideDistinct(order, seed1, seed2, sentLeft, true);
    SideDistinct(order, seed1, seed2, sentLeft, false);
    assert seed1 in order && seed2 in order;
  }

  lemma {:induction false} SidesInRange(left: seq<nat>, right: seq<nat>, n: nat)
    requires Splits(left, right, n)
    ensures (forall k :: 0 <= k < |left| ==> left[k] < n) && forall k :: 0 <= k < |right| ==> right[k] < n
  {
    forall k | 0 <= k < |left| ensures left[k] < n { assert left[k] in left; }
    forall k | 0 <= k < |right| ensures right[k] < n { assert right[k] in right; }
  }

  lemma {:induction false} SideKept(order: seq<nat>, seed1: nat, seed2: nat, sentLeft: set<nat>, x: nat, left: bool)
    requires x !in order
    ensures SideOf(order, seed1, seed2, sentLeft + {x}, left) == SideOf(order, seed1, seed2, sentLeft, left)
    decreases |order|
  {
    if order != [] {
      SideKept(order[..|order| - 1], seed1, seed2, sentLeft, x, left);
    }
  }

  /** One turn of the placing loop: the next entry goes to one side, and the other side stays as it is. */
  lemma {:induction false} PlaceNext(order: seq<nat>, k: nat, seed1: nat, seed2: nat, sentLeft: set<nat>, send: bool)
    requires k < |order| && Distinct(order) && order[k] !in sentLeft
    ensures var x := order[k];
      var sent := if send then sentLeft + {x} else sentLeft;
      forall left :: SideOf(order[..k + 1], seed1, seed2, sent, left) ==
        SideOf(order[..k], seed1, seed2, sentLeft, left) + if GoesLeft(x, seed1, seed2, sent) == left then [x] else []
  {
    var x, done := order[k], order[..k];
    assert order[..k + 1][..k] == done && x !in done;
    SideKept(done, seed1, seed2, sentLeft, x, true);
    SideKept(done, seed1, seed2, sentLeft, x, false);
  }

  lemma {:induction false} NothingPlaced(order: seq<nat>, seed1: nat, seed2: nat)
    ensures forall left :: SideOf(order[..0], seed1, seed2, {}, left) == []
  {
  }

  // ----- the choice of a side -----

  /** Whether an entry is nearer to the left side than to the right one. */
  type Choice = (seq<nat>, seq<nat>, nat) -> bool

  /** The entry at k was sent to the side that it was nearer to when its turn came. */
  ghost predicate SentAt(order: seq<nat>, seed1: nat, seed2: nat, sentLeft: set<nat>, nearer: Choice, k: nat)
    requires k < |order|
  {
    order[k] != seed1 && order[k] != seed2 ==>
      (order[k] in sentLeft <==> nearer(SideOf(order[..k], seed1, seed2, sentLeft, true),
                                        SideOf(order[..k], seed1, seed2, sentLeft, false), order[k]))
  }

  ghost predicate Greedy(order: seq<nat>, seed1: nat, seed2: nat, sentLeft: set<nat>, nearer: Choice) {
    forall k :: 0 <= k < |order| ==> SentAt(order, seed1, seed2, sentLeft, nearer, k)
  }

  lemma {:induction false} SentBefore(order: seq<nat>, k: nat, seed1: nat, seed2: nat, sent: set<nat>, sent': set<nat>,
                                      nearer: Choice, i: nat)
    requires i < k < |order| && Distinct(order) && (sent' == sent || sent' == sent + {order[k]})
    requires SentAt(order[..k], seed1, seed2, sent, nearer, i)
    ensures SentAt(order[..k + 1], seed1, seed2, sent', nearer, i)
  {
    hide SideOf;
    var x := order[k];
    assert order[..k][..i] == order[..i] && order[..k + 1][..i] == order[..i] && x !in order[..i] && x != order[i];
    SideKept(order[..i], seed1, seed2, sent, x, true);
    SideKept(order[..i], seed1, seed2, sent, x, false);
  }

  /** One turn of the placing loop keeps to the choice. */
  lemma {:induction false} GreedyNext(order: seq<nat>, k: nat, seed1: nat, seed2: nat, sentLeft: set<nat>, send: bool,
                                      nearer: Choice)
    requires k < |order| && Distinct(order) && order[k] !in sentLeft
    requires Greedy(order[..k], seed1, seed2, sentLeft, nearer)
    requires order[k] != seed1 && order[k] != seed2 ==>
               send == nearer(SideOf(order[..k], seed1, seed2, sentLeft, true),
                              SideOf(order[..k], seed1, seed2, sentLeft, false), order[k])
    ensures Greedy(order[..k + 1], seed1, seed2, if send then sentLeft + {order[k]} else sentLeft, nearer)
  {
    hide SideOf, SentAt;
    var done, sent := order[..k + 1], if send then sentLeft + {order[k]} else sentLeft;
    forall i | 0 <= i < |done| ensures SentAt(done, seed1, seed2, sent, nearer, i) {
      if i < k {
        SentBefore(order, k, seed1, seed2, sentLeft, sent, nearer, i);
      } else {
        SentNow(order, k, seed1, seed2, sentLeft, send, nearer);
      }
    }
  }

  lemma {:induction false} SentNow(order: seq<nat>, k: nat, seed1: nat, seed2: nat, sentLeft: set<nat>, send: bool,
                                   nearer: Choice)
    requires k < |order| && Distinct(order) && order[k] !in sentLeft
    requires order[k] != seed1 && order[k] != seed2 ==>
               send == nearer(SideOf(order[..k], seed1, seed2, sentLeft, true),
                              SideOf(order[..k], seed1, seed2, sentLeft, false), order[k])
    ensures SentAt(order[..k + 1], seed1, seed2, if send then sentLeft + {order[k]} else sentLeft, nearer, k)
  {
    hide SideOf;
    assert order[..k + 1][..k] == order[..k] && order[k] !in order[..k];
    SideKept(order[..k], seed1, seed2, sentLeft, order[k], true);
    SideKept(order[..k], seed1, seed2, sentLeft, order[k], false);
  }

  lemma {:induction false} NothingSent(order: seq<nat>, seed1: nat, seed2: nat, nearer: Choice)
    ensures Greedy(order[..0], seed1, seed2, {}, nearer)
  {
  }

  /** The order, the seeds and the choice determine the sides. */
  lemma {:induction false} GreedyIsUnique(order: seq<nat>, seed1: nat, seed2: nat, s: set<nat>, t: set<nat>,
                                          nearer: Choice, k: nat)
    requires Greedy(order, seed1, seed2, s, nearer) && Greedy(order, seed1, seed2, t, nearer) && k <= |order|
    ensures SideOf(order[..k], seed1, seed2, s, true) == SideOf(order[..k], seed1, seed2, t, true)
    ensures SideOf(order[..k], seed1, seed2, s, false) == SideOf(order[..k], seed1, seed2, t, false)
    decreases k
  {
    if k > 0 {
      GreedyIsUnique(order, seed1, seed2, s, t, nearer, k - 1);
      assert order[..k][..k - 1] == order[..k - 1];
      assert SentAt(order, seed1, seed2, s, nearer, k - 1) && SentAt(order, seed1, seed2, t, nearer, k - 1);
    }
  }

  // ----- are the sides in ascending order? -----

  predicate Ascending(s: seq<nat>) { forall i, j :: 0 <= i < j < |s| ==> s[i] < s[j] }

  ghost predicate SidesAscend(order: seq<nat>, seed1: nat, seed2: nat, sentLeft: set<nat>) {
    && Ascending(SideOf(order, seed1, seed2, sentLeft, true))
    && Ascending(SideOf(order, seed1, seed2, sentLeft, false))
  }

  /** No two entries stand in descending order, except perhaps the two seeds. */
  predicate OnlySeedsDescend(order: seq<nat>, seed1: nat, seed2: nat) {
    forall i, j :: 0 <= i < j < |order| && order[i] > order[j] ==>
      (order[i] == seed1 && order[j] == seed2) || (order[i] == seed2 && order[j] == seed1)
  }

  lemma {:induction false} AscendingSide(order: seq<nat>, seed1: nat, seed2: nat, sentLeft: set<nat>, left: bool)
    requires Distinct(order) && OnlySeedsDescend(order, seed1, seed2) && seed1 != seed2
    ensures Ascending(SideOf(order, seed1, seed2, sentLeft, left))
    decreases |order|
  {
    if order != [] {
      var n := |order| - 1;
      AscendingSide(order[..n], seed1, seed2, sentLeft, left);
      var side, x := SideOf(order[..n], seed1, seed2, sentLeft, left), order[n];
      if GoesLeft(x, seed1, seed2, sentLeft) == left {
        forall k | 0 <= k < |side| ensures side[k] < x {
          SideMembers(order[..n], seed1, seed2, sentLeft, left);
          assert side[k] in side;
          var i :| 0 <= i < n && order[i] == side[k];
        }
      }
    }
  }

  /** x stands before y. */
  ghost predicate InTurn(s: seq<nat>, x: nat, y: nat) {
    exists a, b :: 0 <= a < b < |s| && s[a] == x && s[b] == y
  }

  /** Two entries sent to the same side keep their places there. */
  lemma {:induction false} KeepPlaces(order: seq<nat>, i: nat, j: nat, seed1: nat, seed2: nat, sentLeft: set<nat>,
                                      left: bool)
    requires i < j < |order|
    requires GoesLeft(order[i], seed1, seed2, sentLeft) == GoesLeft(order[j], seed1, seed2, sentLeft) == left
    ensures InTurn(SideOf(order, seed1, seed2, sentLeft, left), order[i], order[j])
    decreases |order|
  {
    hide GoesLeft;
    var n := |order| - 1;
    var side, all := SideOf(order[..n], seed1, seed2, sentLeft, left), SideOf(order, seed1, seed2, sentLeft, left);
    if j < n {
      KeepPlaces(order[..n], i, j, seed1, seed2, sentLeft, left);
      var a, b :| 0 <= a < b < |side| && side[a] == order[i] && side[b] == order[j];
      assert all[a] == order[i] && all[b] == order[j];
    } else {
      SideMembers(order[..n], seed1, seed2, sentLeft, left);
      assert order[..n][i] == order[i];
      var a :| 0 <= a < |side| && side[a] == order[i];
      assert all[a] == order[i] && all[|side|] == order[j];
    }
  }

  /** The sides are in ascending order wherever the entries are sent if and only if the entries were placed in
      ascending order, the two seeds excepted. */
  lemma {:induction false} SidesAscendIff(order: seq<nat>, seed1: nat, seed2: nat)
    requires Distinct(order) && seed1 != seed2
    ensures (forall sentLeft :: SidesAscend(order, seed1, seed2, sentLeft)) <==> OnlySeedsDescend(order, seed1, seed2)
  {
    hide SideOf;
    if OnlySeedsDescend(order, seed1, seed2) {
      forall sentLeft ensures SidesAscend(order, seed1, seed2, sentLeft) {
        AscendingSide(order, seed1, seed2, sentLeft, true);
        AscendingSide(order, seed1, seed2, sentLeft, false);
      }
    } else {
      var i, j :| 0 <= i < j < |order| && order[i] > order[j] &&
        !((order[i] == seed1 && order[j] == seed2) || (order[i] == seed2 && order[j] == seed1));
      var left := order[i] != seed2 && order[j] != seed2;
      var sentLeft := if left then {order[i], order[j]} else {};
      KeepPlaces(order, i, j, seed1, seed2, sentLeft, left);
      assert !SidesAscend(order, seed1, seed2, sentLeft);
    }
  }
}
