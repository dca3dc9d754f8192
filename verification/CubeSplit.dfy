/** g_cube_picksplit: the entries are placed in ascending order, each where its box wastes less. */
module CubeSplit {
  import opened CubeBoxes
  import opened GistSplit

  // ----- covering -----

  ghost predicate Holds(key: Cube, es: seq<Cube>, side: seq<nat>) {
    forall k :: 0 <= k < |side| ==> side[k] < |es| && Covers(key, es[side[k]])
  }

  // ----- the order of placing -----

  lemma {:induction false} OffsetsAscend(n: nat, seed1: nat, seed2: nat)
    ensures Arrangement(Offsets(n), n) && OnlySeedsDescend(Offsets(n), seed1, seed2)
  {
    forall x: nat | x < n ensures x in Offsets(n) { assert Offsets(n)[x] == x; }
  }

  /** rt_cube_size. */
  function Volume(c: Cube, n: nat): real
    requires n <= c.dim
  {
    if n == 0 then 1.0 else Volume(c, n - 1) * Side(c, n - 1)
  }

  function Side(c: Cube, i: nat): real
    requires i < c.dim
  {
    var d := UR(c, i) - LL(c, i);
    if d < 0.0 then -d else d
  }

  lemma {:induction false} PointHasNone(c: Cube)
    requires c.point && c.dim > 0
    ensures Volume(c, c.dim) == 0.0
  {
    var side := Side(c, c.dim - 1);
    assert side == 0.0;
    calc {
      Volume(c, c.dim);
      Volume(c, c.dim - 1) * side;
      Volume(c, c.dim - 1) * 0.0;
      0.0;
    }
  }

  function CubeSize(c: Cube): real { if c.point || c.dim == 0 then 0.0 else Volume(c, c.dim) }

  // ----- what two entries waste -----

  function Product(side: nat -> real, n: nat): real {
    if n == 0 then 1.0 else Product(side, n - 1) * side(n - 1)
  }

  function SizeOver(side: nat -> real, dim: nat): real { if dim == 0 then 0.0 else Product(side, dim) }

  function UnionSide(a: Cube, b: Cube): nat -> real {
    (i: nat) => Max(Hi(a, i), Hi(b, i)) - Min(Lo(a, i), Lo(b, i))
  }

  /** A side of the box that cube_inter makes, which is turned over where the boxes do not meet. */
  function InterSide(a: Cube, b: Cube): nat -> real {
    (i: nat) =>
      var d := Min(Hi(a, i), Hi(b, i)) - Max(Lo(a, i), Lo(b, i));
      if d < 0.0 then -d else d
  }

  /** The size of the union of two entries less that of their intersection. */
  function Wastes(es: seq<Cube>): (nat, nat) -> real {
    (i: nat, j: nat) =>
      if i < |es| && j < |es| then
        var dim := if es[i].dim < es[j].dim then es[j].dim else es[i].dim;
        SizeOver(UnionSide(es[i], es[j]), dim) - SizeOver(InterSide(es[i], es[j]), dim)
      else 0.0
  }

  /** rt_cube_size of the union that cube_union_v0 returns. */
  lemma {:induction false} UnionSizeIs(u: Cube, a: Cube, b: Cube)
    requires IsUnion(u, a, b)
    ensures CubeSize(u) == SizeOver(UnionSide(a, b), u.dim)
  {
    hide IsUnion;
    if u.dim > 0 {
      VolumeIs(u, a, b, u.dim);
      if u.point { PointHasNone(u); }
    }
  }

  lemma {:induction false} VolumeIs(u: Cube, a: Cube, b: Cube, n: nat)
    requires IsUnion(u, a, b) && n <= u.dim
    ensures Volume(u, n) == Product(UnionSide(a, b), n)
  {
    hide IsUnion, Side, UnionSide;
    if n > 0 {
      VolumeIs(u, a, b, n - 1);
      SideIs(u, a, b, n - 1);
    }
  }

  lemma {:induction false} SideIs(u: Cube, a: Cube, b: Cube, i: nat)
    requires IsUnion(u, a, b) && i < u.dim
    ensures Side(u, i) == UnionSide(a, b)(i)
  {
    assert Lo(u, i) == Min(Lo(a, i), Lo(b, i));
  }

  /** rt_cube_size of the box that cube_inter returns. */
  lemma {:induction false} InterSizeIs(c: Cube, a: Cube, b: Cube)
    requires IsInter(c, a, b)
    ensures CubeSize(c) == SizeOver(InterSide(a, b), c.dim)
  {
    hide IsInter;
    if c.dim > 0 {
      InterVolume(c, a, b, c.dim);
      if c.point { PointHasNone(c); }
    }
  }

  lemma {:induction false} InterVolume(c: Cube, a: Cube, b: Cube, n: nat)
    requires IsInter(c, a, b) && n <= c.dim
    ensures Volume(c, n) == Product(InterSide(a, b), n)
  {
    hide Side, InterSide;
    if n > 0 {
      InterVolume(c, a, b, n - 1);
      InterSideIs(c, a, b, n - 1);
    }
  }

  lemma {:induction false} InterSideIs(c: Cube, a: Cube, b: Cube, i: nat)
    requires IsInter(c, a, b) && i < c.dim
    ensures Side(c, i) == InterSide(a, b)(i)
  {
    assert LL(c, i) == Max(Lo(a, i), Lo(b, i));
  }

  // ----- the box around several entries -----

  /** The box around the entries at the offsets ms: its bounds, and the dimension of the largest. */
  function HullLo(es: seq<Cube>, ms: seq<nat>, i: nat): real
    requires ms != [] && Within(es, ms)
  {
    var n := |ms| - 1;
    if n == 0 then Lo(es[ms[0]], i) else Min(HullLo(es, ms[..n], i), Lo(es[ms[n]], i))
  }

  function HullHi(es: seq<Cube>, ms: seq<nat>, i: nat): real
    requires ms != [] && Within(es, ms)
  {
    var n := |ms| - 1;
    if n == 0 then Hi(es[ms[0]], i) else Max(HullHi(es, ms[..n], i), Hi(es[ms[n]], i))
  }

  function HullDim(es: seq<Cube>, ms: seq<nat>): nat
    requires ms != [] && Within(es, ms)
  {
    var n := |ms| - 1;
    if n == 0 then es[ms[0]].dim
    else
      var d := HullDim(es, ms[..n]);
      if d < es[ms[n]].dim then es[ms[n]].dim else d
  }

  predicate Within(es: seq<Cube>, ms: seq<nat>) { forall k :: 0 <= k < |ms| ==> ms[k] < |es| }

  function HullSide(es: seq<Cube>, ms: seq<nat>): nat -> real
    requires ms != [] && Within(es, ms)
  {
    (i: nat) => HullHi(es, ms, i) - HullLo(es, ms, i)
  }

  /** The content of the box, zero if it has no dimensions. */
  function HullSize(es: seq<Cube>, ms: seq<nat>): real
    requires ms != [] && Within(es, ms)
  {
    SizeOver(HullSide(es, ms), HullDim(es, ms))
  }

  ghost predicate IsHull(c: Cube, es: seq<Cube>, ms: seq<nat>)
    requires ms != [] && Within(es, ms)
  {
    && c.dim == HullDim(es, ms)
    && forall i: nat :: Lo(c, i) == HullLo(es, ms, i) && Hi(c, i) == HullHi(es, ms, i)
  }

  lemma {:induction false} HullOfOne(es: seq<Cube>, m: nat)
    requires m < |es|
    ensures IsHull(es[m], es, [m])
  {
  }

  lemma {:induction false} HullMore(c: Cube, u: Cube, es: seq<Cube>, ms: seq<nat>, x: nat)
    requires ms != [] && Within(es, ms) && x < |es| && IsHull(c, es, ms) && IsUnion(u, c, es[x])
    ensures IsHull(u, es, ms + [x])
  {
    assert (ms + [x])[..|ms|] == ms;
    forall i: nat ensures Lo(u, i) == HullLo(es, ms + [x], i) && Hi(u, i) == HullHi(es, ms + [x], i) {
      assert Lo(c, i) == HullLo(es, ms, i) && Lo(u, i) == Min(Lo(c, i), Lo(es[x], i));
    }
  }

  lemma {:induction false} EachIsInside(es: seq<Cube>, ms: seq<nat>, k: nat, i: nat)
    requires ms != [] && Within(es, ms) && k < |ms|
    ensures HullLo(es, ms, i) <= Lo(es[ms[k]], i) && Hi(es[ms[k]], i) <= HullHi(es, ms, i)
    ensures es[ms[k]].dim <= HullDim(es, ms)
  {
    if 0 < k == |ms| - 1 {
    } else if |ms| > 1 {
      EachIsInside(es, ms[..|ms| - 1], k, i);
    }
  }

  /** The first entry is inside, so it adds nothing. */
  lemma {:induction false} HullAgain(c: Cube, es: seq<Cube>, ms: seq<nat>)
    requires ms != [] && Within(es, ms) && IsHull(c, es, ms)
    ensures IsHull(c, es, ms + [ms[0]])
  {
    assert (ms + [ms[0]])[..|ms|] == ms;
    EachIsInside(es, ms, 0, 0);
    forall i: nat ensures Lo(c, i) == HullLo(es, ms + [ms[0]], i) && Hi(c, i) == HullHi(es, ms + [ms[0]], i) {
      EachIsInside(es, ms, 0, i);
      assert Lo(c, i) == HullLo(es, ms, i);
    }
  }

  lemma {:induction false} HullHolds(c: Cube, es: seq<Cube>, seed: nat, side: seq<nat>)
    requires Within(es, [seed] + side) && IsHull(c, es, [seed] + side)
    ensures Holds(c, es, side)
  {
    hide HullLo, HullHi, HullDim;
    var ms := [seed] + side;
    forall k | 0 <= k < |side| ensures side[k] < |es| && Covers(c, es[side[k]]) {
      assert ms[k + 1] == side[k];
      EachIsInside(es, ms, k + 1, 0);
      forall i: nat ensures ContainsAt(c, es[side[k]], i) {
        EachIsInside(es, ms, k + 1, i);
        assert Lo(c, i) == HullLo(es, ms, i);
      }
    }
  }

  /** rt_cube_size of the box around some entries. */
  lemma {:induction false} HullSizeIs(c: Cube, es: seq<Cube>, ms: seq<nat>)
    requires ms != [] && Within(es, ms) && IsHull(c, es, ms)
    ensures CubeSize(c) == HullSize(es, ms)
  {
    hide IsHull;
    HullVolume(c, es, ms, c.dim);
    if c.dim > 0 && c.point { PointHasNone(c); }
    assert c.dim == HullDim(es, ms) by { HullDims(c, es, ms); }
  }

  lemma {:induction false} HullDims(c: Cube, es: seq<Cube>, ms: seq<nat>)
    requires ms != [] && Within(es, ms) && IsHull(c, es, ms)
    ensures c.dim == HullDim(es, ms)
  {
    hide HullDim;
  }

  lemma {:induction false} HullVolume(c: Cube, es: seq<Cube>, ms: seq<nat>, n: nat)
    requires ms != [] && Within(es, ms) && IsHull(c, es, ms) && n <= c.dim
    ensures Volume(c, n) == Product(HullSide(es, ms), n)
  {
    hide IsHull, Side, HullSide;
    if n > 0 {
      HullVolume(c, es, ms, n - 1);
      HullSideIs(c, es, ms, n - 1);
    }
  }

  lemma {:induction false} HullSideIs(c: Cube, es: seq<Cube>, ms: seq<nat>, i: nat)
    requires ms != [] && Within(es, ms) && IsHull(c, es, ms) && i < c.dim
    ensures Side(c, i) == HullSide(es, ms)(i)
  {
    hide HullLo, HullHi, HullDim;
    assert Lo(c, i) == HullLo(es, ms, i);
  }

  /** Taking the entry in enlarges the box around the left seed and side by less than that around the right ones. */
  function Nearer(es: seq<Cube>, seed1: nat, seed2: nat): Choice {
    (l: seq<nat>, r: seq<nat>, x: nat) =>
      && Within(es, [seed1] + l) && Within(es, [seed2] + r) && x < |es|
      && HullSize(es, [seed1] + l + [x]) - HullSize(es, [seed1] + l) <
         HullSize(es, [seed2] + r + [x]) - HullSize(es, [seed2] + r)
  }

  /** The sizes that the code compares. */
  lemma {:induction false} NearerIff(es: seq<Cube>, seed1: nat, seed2: nat, l: seq<nat>, r: seq<nat>, x: nat,
                                     keyL: Cube, keyR: Cube, unionL: Cube, unionR: Cube)
    requires Within(es, [seed1] + l) && Within(es, [seed2] + r) && x < |es|
    requires IsHull(keyL, es, [seed1] + l) && IsHull(keyR, es, [seed2] + r)
    requires IsUnion(unionL, keyL, es[x]) && IsUnion(unionR, keyR, es[x])
    ensures IsHull(unionL, es, [seed1] + l + [x]) && IsHull(unionR, es, [seed2] + r + [x])
    ensures Nearer(es, seed1, seed2)(l, r, x) <==>
            CubeSize(unionL) - CubeSize(keyL) < CubeSize(unionR) - CubeSize(keyR)
  {
    hide IsHull, IsUnion, HullSize, CubeSize;
    HullMore(keyL, unionL, es, [seed1] + l, x);
    HullMore(keyR, unionR, es, [seed2] + r, x);
    HullSizeIs(keyL, es, [seed1] + l);
    HullSizeIs(keyR, es, [seed2] + r);
    HullSizeIs(unionL, es, [seed1] + l + [x]);
    HullSizeIs(unionR, es, [seed2] + r + [x]);
  }

  /** What the placing loop keeps: i entries are placed, each where it was nearer, and each key is the box around its
      seed and side. */
  ghost predicate Placed(es: seq<Cube>, seed1: nat, seed2: nat, i: nat, sentLeft: set<nat>, left: seq<nat>,
                         right: seq<nat>, keyL: Cube, keyR: Cube)
    requires i <= |es|
  {
    var done := Offsets(|es|)[..i];
    && (forall x :: x in sentLeft ==> x < i)
    && left == SideOf(done, seed1, seed2, sentLeft, true) && right == SideOf(done, seed1, seed2, sentLeft, false)
    && Greedy(done, seed1, seed2, sentLeft, Nearer(es, seed1, seed2))
    && Within(es, [seed1] + left) && IsHull(keyL, es, [seed1] + left)
    && Within(es, [seed2] + right) && IsHull(keyR, es, [seed2] + right)
  }

  lemma {:induction false} NonePlaced(es: seq<Cube>, seed1: nat, seed2: nat)
    requires seed1 < |es| && seed2 < |es|
    ensures Placed(es, seed1, seed2, 0, {}, [], [], es[seed1], es[seed2])
  {
    hide IsHull, Greedy, Nearer, SideOf;
    HullOfOne(es, seed1);
    HullOfOne(es, seed2);
    NothingPlaced(Offsets(|es|), seed1, seed2);
    NothingSent(Offsets(|es|), seed1, seed2, Nearer(es, seed1, seed2));
    assert [seed1] + [] == [seed1] && [seed2] + [] == [seed2];
  }

  lemma {:induction false} PlaceOne(es: seq<Cube>, seed1: nat, seed2: nat, i: nat, sentLeft: set<nat>, left: seq<nat>,
                                    right: seq<nat>, keyL: Cube, keyR: Cube, unionL: Cube, unionR: Cube, toLeft: bool)
    requires i < |es| && seed1 != seed2 && Placed(es, seed1, seed2, i, sentLeft, left, right, keyL, keyR)
    requires IsUnion(unionL, keyL, es[i]) && IsUnion(unionR, keyR, es[i])
    requires toLeft <==>
             i != seed2 && (i == seed1 || CubeSize(unionL) - CubeSize(keyL) < CubeSize(unionR) - CubeSize(keyR))
    ensures if toLeft then
              Placed(es, seed1, seed2, i + 1, sentLeft + {i}, left + [i], right, if i == seed1 then keyL else unionL,
                     keyR)
            else
              Placed(es, seed1, seed2, i + 1, sentLeft, left, right + [i], keyL, if i == seed2 then keyR else unionR)
  {
    hide IsUnion, IsHull, SideOf, Greedy, Nearer, CubeSize;
    var order, nearer := Offsets(|es|), Nearer(es, seed1, seed2);
    OffsetsAscend(|es|, seed1, seed2);
    NearerIff(es, seed1, seed2, left, right, i, keyL, keyR, unionL, unionR);
    PlaceNext(order, i, seed1, seed2, sentLeft, toLeft);
    GreedyNext(order, i, seed1, seed2, sentLeft, toLeft, nearer);
    HullAgain(keyL, es, [seed1] + left);
    HullAgain(keyR, es, [seed2] + right);
    assert [seed1] + (left + [i]) == [seed1] + left + [i] && [seed2] + (right + [i]) == [seed2] + right + [i];
  }

  /** g_cube_picksplit. */
  method PickSplit(es: seq<Cube>)
    returns (left: seq<nat>, right: seq<nat>, keyL: Cube, keyR: Cube, ghost seed1: nat, ghost seed2: nat,
             ghost sentLeft: set<nat>)
    requires |es| >= 2
    ensures Seeds(|es|, Wastes(es), seed1, seed2) && seed1 in left && seed2 in right
    ensures Splits(left, right, |es|) && Ascending(left) && Ascending(right)
    ensures left == SideOf(Offsets(|es|), seed1, seed2, sentLeft, true)
    ensures right == SideOf(Offsets(|es|), seed1, seed2, sentLeft, false)
    ensures Greedy(Offsets(|es|), seed1, seed2, sentLeft, Nearer(es, seed1, seed2))
    ensures Within(es, [seed1] + left) && IsHull(keyL, es, [seed1] + left)
    ensures Within(es, [seed2] + right) && IsHull(keyR, es, [seed2] + right)
    ensures Holds(keyL, es, left) && Holds(keyR, es, right)
  {
    hide IsUnion, IsHull, SideOf, Seeds, Splits, Flat, Ascending, OnlySeedsDescend, Wastes, Greedy, Nearer, CubeSize,
      Arrangement;
    var s1, s2 := FindSeeds(|es|, Wastes(es));
    SeedsInRange(|es|, Wastes(es), s1, s2);
    seed1, seed2, sentLeft := s1, s2, {};
    left, right, keyL, keyR := [], [], es[s1], es[s2];
    NonePlaced(es, s1, s2);
    for i := 0 to |es|
      invariant Placed(es, s1, s2, i, sentLeft, left, right, keyL, keyR)
    {
      hide Placed;
      var unionL := Union(keyL, es[i]);
      var unionR := Union(keyR, es[i]);
      var toLeft := i != s2 && (i == s1 || CubeSize(unionL) - CubeSize(keyL) < CubeSize(unionR) - CubeSize(keyR));
      PlaceOne(es, s1, s2, i, sentLeft, left, right, keyL, keyR, unionL, unionR, toLeft);
      if toLeft {
        left, sentLeft := left + [i], sentLeft + {i};
        keyL := if i == s1 then keyL else unionL;
      } else {
        right := right + [i];
        keyR := if i == s2 then keyR else unionR;
      }
    }
    ghost var order := Offsets(|es|);
    assert order[..|es|] == order;
    OffsetsAscend(|es|, s1, s2);
    PlacedOnce(order, |es|, s1, s2, sentLeft);
    OffsetsDistinct(|es|);
    AscendingSide(order, s1, s2, sentLeft, true);
    AscendingSide(order, s1, s2, sentLeft, false);
    HullHolds(keyL, es, s1, left);
    HullHolds(keyR, es, s2, right);
  }

  lemma {:induction false} OffsetsDistinct(n: nat)
    ensures Distinct(Offsets(n))
  {
  }
}
