/**
 * Boxes of contrib/cube.  Boxes of different dimension are compared as if the missing
 * dimensions were zero, except where the code does otherwise.
 */
module CubeBoxes {

  /** The stored form: all lower left coordinates, then the upper right ones unless it is a point. */
  datatype Box = Box(dim: nat, point: bool, x: seq<real>)

  type Cube = c: Box | |c.x| == (if c.point then c.dim else 2 * c.dim) witness Box(0, true, [])

  function Min(a: real, b: real): real { if a < b then a else b }
  function Max(a: real, b: real): real { if a > b then a else b }

  function LL(c: Cube, i: nat): real
    requires i < c.dim
  {
    c.x[i]
  }

  function UR(c: Cube, i: nat): real
    requires i < c.dim
  {
    if c.point then c.x[i] else c.x[i + c.dim]
  }

  /** The lower bound in dimension i, zero beyond the stored dimensions. */
  function Lo(c: Cube, i: nat): real { if i < c.dim then Min(LL(c, i), UR(c, i)) else 0.0 }

  /** The upper bound in dimension i. */
  function Hi(c: Cube, i: nat): real { if i < c.dim then Max(LL(c, i), UR(c, i)) else 0.0 }

  lemma LoBelowHi(c: Cube, i: nat)
    ensures Lo(c, i) <= Hi(c, i)
  {
  }

  // ----- union -----

  ghost predicate Flat(c: Cube) { forall i :: 0 <= i < c.dim ==> Lo(c, i) == Hi(c, i) }

  /** u is the smallest box around a and b, missing dimensions counted as zero. */
  ghost predicate IsUnion(u: Cube, a: Cube, b: Cube) {
    && u.dim == (if a.dim < b.dim then b.dim else a.dim)
    && forall i: nat :: Lo(u, i) == Min(Lo(a, i), Lo(b, i)) && Hi(u, i) == Max(Hi(a, i), Hi(b, i))
  }

  /** cube_union_v0 for two different boxes: fills the corners and sets the point flag when they meet. */
  method Union(a0: Cube, b0: Cube) returns (u: Cube)
    ensures IsUnion(u, a0, b0) && (u.point <==> Flat(u))
  {
    var a, b := a0, b0;
    if a.dim < b.dim {
      a, b := b, a;
    }
    var dim := a.dim;
    var x := new real[2 * dim];
    for i := 0 to dim
      invariant forall k :: 0 <= k < i ==> x[k] == Min(Lo(a, k), Lo(b, k)) && x[k + dim] == Max(Hi(a, k), Hi(b, k))
    {
      if i < b.dim {
        x[i] := Min(Min(LL(a, i), UR(a, i)), Min(LL(b, i), UR(b, i)));
        x[i + dim] := Max(Max(LL(a, i), UR(a, i)), Max(LL(b, i), UR(b, i)));
      } else {
        x[i] := Min(0.0, Min(LL(a, i), UR(a, i)));
        x[i + dim] := Max(0.0, Max(LL(a, i), UR(a, i)));
      }
    }
    var full: Cube := Box(dim, false, x[..]);
    assert IsUnion(full, a0, b0) by { CornersMakeUnion(full, a, b); }
    var isPoint := IsPoint(full);
    if isPoint {
      u := Box(dim, true, x[..dim]);
      PointKeepsBounds(full, u);
    } else {
      u := full;
    }
  }

  lemma {:induction false} CornersMakeUnion(u: Cube, a: Cube, b: Cube)
    requires b.dim <= a.dim == u.dim && !u.point
    requires forall k :: 0 <= k < u.dim ==>
               u.x[k] == Min(Lo(a, k), Lo(b, k)) && u.x[k + u.dim] == Max(Hi(a, k), Hi(b, k))
    ensures IsUnion(u, a, b) && IsUnion(u, b, a)
  {
    forall i: nat ensures Lo(u, i) == Min(Lo(a, i), Lo(b, i)) && Hi(u, i) == Max(Hi(a, i), Hi(b, i)) {
      LoBelowHi(a, i);
      LoBelowHi(b, i);
      assert i < u.dim ==> u.x[i] == Min(Lo(a, i), Lo(b, i));
    }
  }

  lemma {:induction false} PointKeepsBounds(full: Cube, p: Cube)
    requires !full.point && p.point && p.dim == full.dim && p.x == full.x[..full.dim]
    requires forall i :: 0 <= i < full.dim ==> LL(full, i) == UR(full, i)
    ensures forall i: nat :: Lo(p, i) == Lo(full, i) && Hi(p, i) == Hi(full, i)
  {
    forall i: nat ensures Lo(p, i) == Lo(full, i) && Hi(p, i) == Hi(full, i) {
      assert i < full.dim ==> LL(p, i) == LL(full, i) && LL(full, i) == UR(full, i);
    }
  }

  /** cube_is_point_internal for a box without the point flag. */
  method IsPoint(c: Cube) returns (r: bool)
    requires !c.point
    ensures r <==> forall i :: 0 <= i < c.dim ==> LL(c, i) == UR(c, i)
    ensures r <==> Flat(c)
  {
    for i := 0 to c.dim
      invariant forall k :: 0 <= k < i ==> LL(c, k) == UR(c, k)
    {
      if LL(c, i) != UR(c, i) {
        assert Lo(c, i) != Hi(c, i);
        return false;
      }
    }
    return true;
  }

  // ----- intersection -----

  /** The corners of c are the larger lower and the smaller upper bounds, so a point lies between them exactly when it
      is in both boxes; where the boxes do not meet the corners are turned over. */
  ghost predicate IsInter(c: Cube, a: Cube, b: Cube) {
    && c.dim == (if a.dim < b.dim then b.dim else a.dim)
    && forall i :: 0 <= i < c.dim ==> LL(c, i) == Max(Lo(a, i), Lo(b, i)) && UR(c, i) == Min(Hi(a, i), Hi(b, i))
  }

  /** cube_inter. */
  method Inter(a0: Cube, b0: Cube) returns (c: Cube)
    ensures IsInter(c, a0, b0) && (c.point <==> Flat(c))
  {
    hide Lo, Hi, Min, Max, Flat;
    var a, b := a0, b0;
    if a.dim < b.dim {
      a, b := b, a;
    }
    var dim := a.dim;
    var x := new real[2 * dim];
    for i := 0 to dim
      invariant forall k :: 0 <= k < i ==> x[k] == Max(Lo(a, k), Lo(b, k)) && x[k + dim] == Min(Hi(a, k), Hi(b, k))
    {
      Bounds(a, i);
      Bounds(b, i);
      if i < b.dim {
        x[i] := Max(Min(LL(a, i), UR(a, i)), Min(LL(b, i), UR(b, i)));
        x[i + dim] := Min(Max(LL(a, i), UR(a, i)), Max(LL(b, i), UR(b, i)));
      } else {
        ZeroFirst(Lo(a, i), Hi(a, i));
        x[i] := Max(0.0, Min(LL(a, i), UR(a, i)));
        x[i + dim] := Min(0.0, Max(LL(a, i), UR(a, i)));
      }
    }
    var full: Cube := Box(dim, false, x[..]);
    InterSwaps(full, a, b);
    var isPoint := IsPoint(full);
    c := if isPoint then Box(dim, true, x[..dim]) else full;
    if isPoint { PointIsFlat(c); }
  }

  lemma {:induction false} Bounds(c: Cube, i: nat)
    ensures if i < c.dim then Lo(c, i) == Min(LL(c, i), UR(c, i)) && Hi(c, i) == Max(LL(c, i), UR(c, i))
            else Lo(c, i) == 0.0 == Hi(c, i)
  {
  }

  lemma {:induction false} ZeroFirst(x: real, y: real)
    ensures Max(0.0, x) == Max(x, 0.0) && Min(0.0, y) == Min(y, 0.0)
  {
  }

  lemma {:induction false} InterSwaps(c: Cube, a: Cube, b: Cube)
    requires IsInter(c, a, b)
    ensures IsInter(c, b, a)
  {
  }

  lemma {:induction false} PointIsFlat(c: Cube)
    requires c.point
    ensures Flat(c)
  {
  }

  // ----- predicates -----

  predicate ContainsAt(a: Cube, b: Cube, i: nat) { Lo(a, i) <= Lo(b, i) && Hi(b, i) <= Hi(a, i) }

  /** What cube_contains_v0 tests: it does not look at dimensions that only a has. */
  ghost predicate Contains(a: Cube, b: Cube) { forall i :: 0 <= i < b.dim ==> ContainsAt(a, b, i) }

  /** cube_contains_v0. */
  method ContainsV0(a: Cube, b: Cube) returns (r: bool)
    ensures r <==> Contains(a, b)
  {
    if a.dim < b.dim {
      for i := a.dim to b.dim
        invariant forall k :: a.dim <= k < i ==> ContainsAt(a, b, k)
      {
        if LL(b, i) != 0.0 || UR(b, i) != 0.0 {
          assert !ContainsAt(a, b, i);
          return false;
        }
      }
    }
    var n := if a.dim < b.dim then a.dim else b.dim;
    for i := 0 to n
      invariant forall k :: 0 <= k < i ==> ContainsAt(a, b, k)
    {
      if Min(LL(a, i), UR(a, i)) > Min(LL(b, i), UR(b, i)) || Max(LL(a, i), UR(a, i)) < Max(LL(b, i), UR(b, i)) {
        assert !ContainsAt(a, b, i);
        return false;
      }
    }
    return true;
  }

  predicate MeetsAt(a: Cube, b: Cube, i: nat) { Lo(a, i) <= Hi(b, i) && Lo(b, i) <= Hi(a, i) }

  /** The boxes, extended by zero, have a point in common. */
  ghost predicate Overlap(a: Cube, b: Cube) { forall i: nat :: MeetsAt(a, b, i) }

  /** cube_overlap_v0. */
  method OverlapV0(a0: Cube, b0: Cube) returns (r: bool)
    ensures r <==> Overlap(a0, b0)
  {
    var a, b := a0, b0;
    if a.dim < b.dim {
      a, b := b, a;
    }
    for i := 0 to b.dim
      invariant forall k :: 0 <= k < i ==> MeetsAt(a, b, k)
    {
      if Min(LL(a, i), UR(a, i)) > Max(LL(b, i), UR(b, i)) || Max(LL(a, i), UR(a, i)) < Min(LL(b, i), UR(b, i)) {
        assert !MeetsAt(a, b, i) && !MeetsAt(b, a, i);
        return false;
      }
    }
    for i := b.dim to a.dim
      invariant forall k :: 0 <= k < i ==> MeetsAt(a, b, k)
    {
      if Min(LL(a, i), UR(a, i)) > 0.0 || Max(LL(a, i), UR(a, i)) < 0.0 {
        assert !MeetsAt(a, b, i) && !MeetsAt(b, a, i);
        return false;
      }
    }
    forall i: nat ensures MeetsAt(a0, b0, i) {
      assert i < a.dim ==> MeetsAt(a, b, i);
    }
    return true;
  }

  /** cube_cmp_v0 finds no difference: same dimension and bounds. */
  ghost predicate Same(a: Cube, b: Cube) {
    a.dim == b.dim && forall i: nat :: Lo(a, i) == Lo(b, i) && Hi(a, i) == Hi(b, i)
  }

  // ----- index trees -----

  /** A box of the index, and how its key came about. */
  datatype Tree = Leaf(cube: Cube) | Unite(left: Tree, right: Tree, key: Cube)

  function Key(t: Tree): Cube { if t.Leaf? then t.cube else t.key }

  ghost predicate Built(t: Tree) {
    t.Unite? ==> Built(t.left) && Built(t.right) && IsUnion(t.key, Key(t.left), Key(t.right))
  }

  ghost predicate Holds(t: Tree, c: Cube) {
    match t
    case Leaf(l) => l == c
    case Unite(l, r, _) => Holds(l, c) || Holds(r, c)
  }

  ghost predicate Covers(k: Cube, c: Cube) {
    c.dim <= k.dim && forall i: nat :: ContainsAt(k, c, i)
  }

  /** Every key covers every box below it, in all dimensions. */
  lemma {:induction false} KeysCover(t: Tree, c: Cube)
    requires Built(t) && Holds(t, c)
    ensures Covers(Key(t), c)
    decreases t
  {
    if t.Leaf? {
      forall i: nat ensures ContainsAt(Key(t), c, i) { LoBelowHi(c, i); }
    } else {
      var s := if Holds(t.left, c) then t.left else t.right;
      KeysCover(s, c);
      forall i: nat ensures ContainsAt(t.key, c, i) {
        assert ContainsAt(Key(s), c, i);
        assert Lo(t.key, i) == Min(Lo(Key(t.left), i), Lo(Key(t.right), i));
      }
    }
  }

  datatype Strategy = OverlapWith | SameAs | ContainsThe | ContainedBy

  /** g_cube_leaf_consistent. */
  ghost predicate LeafMatches(c: Cube, q: Cube, s: Strategy) {
    match s
    case OverlapWith => Overlap(c, q)
    case SameAs => Same(c, q)
    case ContainsThe => Contains(c, q)
    case ContainedBy => Contains(q, c)
  }

  /** g_cube_internal_consistent. */
  ghost predicate NodeMatches(k: Cube, q: Cube, s: Strategy) {
    match s
    case OverlapWith => Overlap(k, q)
    case SameAs => Contains(k, q)
    case ContainsThe => Contains(k, q)
    case ContainedBy => Overlap(k, q)
  }

  /** The query box holds zero in every dimension that the stored box lacks. */
  ghost predicate ReachesZero(q: Cube, c: Cube) {
    forall i :: c.dim <= i < q.dim ==> Lo(q, i) <= 0.0 <= Hi(q, i)
  }

  lemma {:induction false} CoveredMeets(k: Cube, c: Cube, q: Cube)
    requires Covers(k, c) && Overlap(c, q)
    ensures Overlap(k, q)
  {
    forall i: nat ensures MeetsAt(k, q, i) {
      assert ContainsAt(k, c, i) && MeetsAt(c, q, i);
    }
  }

  lemma {:induction false} CoveredContains(k: Cube, c: Cube, q: Cube)
    requires Covers(k, c) && Contains(c, q)
    ensures Contains(k, q)
  {
    forall i | 0 <= i < q.dim ensures ContainsAt(k, q, i) {
      assert ContainsAt(k, c, i) && ContainsAt(c, q, i);
    }
  }

  /** A box inside the query overlaps it, as the code sees it, exactly when the query reaches zero in the
      dimensions that the box lacks. */
  lemma {:induction false} ContainedOverlapsIff(c: Cube, q: Cube)
    requires Contains(q, c)
    ensures Overlap(c, q) <==> ReachesZero(q, c)
  {
    if ReachesZero(q, c) {
      forall i: nat ensures MeetsAt(c, q, i) {
        LoBelowHi(c, i);
        assert i < c.dim ==> ContainsAt(q, c, i);
      }
    }
    if Overlap(c, q) {
      forall i | c.dim <= i < q.dim ensures Lo(q, i) <= 0.0 <= Hi(q, i) {
        assert MeetsAt(c, q, i);
      }
    }
  }

  /** No node prunes a matching box below it; for the contained-by strategy the query must reach zero in the
      dimensions that the box lacks. */
  lemma {:induction false} NodesNeverPrune(t: Tree, c: Cube, q: Cube, s: Strategy)
    requires Built(t) && Holds(t, c) && LeafMatches(c, q, s)
    requires s == ContainedBy ==> ReachesZero(q, c)
    ensures NodeMatches(Key(t), q, s)
  {
    hide Overlap, Covers, Contains, IsUnion, ReachesZero;
    KeysCover(t, c);
    match s
    case OverlapWith => CoveredMeets(Key(t), c, q);
    case SameAs =>
      SameContains(c, q);
      CoveredContains(Key(t), c, q);
    case ContainsThe => CoveredContains(Key(t), c, q);
    case ContainedBy =>
      ContainedOverlapsIff(c, q);
      CoveredMeets(Key(t), c, q);
  }

  lemma {:induction false} SameContains(c: Cube, q: Cube)
    requires Same(c, q)
    ensures Contains(c, q)
  {
  }

  /** The condition is exact: a box inside the query is found through every tree of keys if and only if the query
      reaches zero in the dimensions that the box lacks. */
  lemma {:induction false} ContainedByIff(c: Cube, q: Cube)
    requires Contains(q, c)
    ensures (forall t :: Built(t) && Holds(t, c) ==> NodeMatches(Key(t), q, ContainedBy)) <==> ReachesZero(q, c)
  {
    hide Overlap, Covers, Contains, ReachesZero;
    if ReachesZero(q, c) {
      forall t | Built(t) && Holds(t, c) ensures NodeMatches(Key(t), q, ContainedBy) {
        NodesNeverPrune(t, c, q, ContainedBy);
      }
    } else {
      ContainedOverlapsIff(c, q);
      var t := Unite(Leaf(c), Leaf(c), c);
      assert Built(t) && Holds(t, c) && !NodeMatches(Key(t), q, ContainedBy);
    }
  }

  /** The point 1 is contained in the point (1, 5), whose second coordinate is not zero, and a search misses it. */
  lemma {:induction false} ContainedIsMissed()
    ensures var c: Cube, q: Cube := Box(1, true, [1.0]), Box(2, true, [1.0, 5.0]);
            && Contains(q, c) && !ReachesZero(q, c)
            && exists t :: Built(t) && Holds(t, c) && !NodeMatches(Key(t), q, ContainedBy)
  {
    var c: Cube, q: Cube := Box(1, true, [1.0]), Box(2, true, [1.0, 5.0]);
    assert Lo(q, 1) == 5.0;
    ContainedByIff(c, q);
  }
}
