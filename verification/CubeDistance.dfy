/** Distances of contrib/cube: what g_cube_distance returns for a key bounds what it returns for the boxes below. */
module CubeDistance {
  import opened CubeBoxes

  /** distance_1D. */
  function Distance1D(a1: real, a2: real, b1: real, b2: real): real {
    if a1 <= b1 && a2 <= b1 && a1 <= b2 && a2 <= b2 then Min(b1, b2) - Max(a1, a2)
    else if a1 > b1 && a2 > b1 && a1 > b2 && a2 > b2 then Min(a1, a2) - Max(b1, b2)
    else 0.0
  }

  /** The gap between the two boxes in dimension i. */
  function Gap(a: Cube, b: Cube, i: nat): real {
    if Hi(a, i) < Lo(b, i) then Lo(b, i) - Hi(a, i)
    else if Hi(b, i) < Lo(a, i) then Lo(a, i) - Hi(b, i)
    else 0.0
  }

  lemma {:induction false} GapFacts(a: Cube, b: Cube, i: nat)
    ensures Gap(a, b, i) >= 0.0 && Gap(a, b, i) == Gap(b, a, i)
    ensures a.dim <= i && b.dim <= i ==> Gap(a, b, i) == 0.0
    ensures i < a.dim && i < b.dim ==> Distance1D(LL(a, i), UR(a, i), LL(b, i), UR(b, i)) == Gap(a, b, i)
    ensures b.dim <= i < a.dim ==> Distance1D(LL(a, i), UR(a, i), 0.0, 0.0) == Gap(a, b, i)
  {
    LoBelowHi(a, i);
    LoBelowHi(b, i);
  }

  /** A larger box is not farther away in any dimension. */
  lemma {:induction false} GapShrinks(k: Cube, c: Cube, q: Cube, i: nat)
    requires ContainsAt(k, c, i)
    ensures Gap(k, q, i) <= Gap(c, q, i)
  {
  }

  datatype Metric = Taxicab | SquaredEuclid | Chebyshev

  function Combine(m: Metric, d: real, gap: real): real {
    match m
    case Taxicab => d + gap
    case SquaredEuclid => d + gap * gap
    case Chebyshev => if gap > d then gap else d
  }

  /** The distance over the first n dimensions. */
  function DistanceTo(m: Metric, a: Cube, b: Cube, n: nat): real {
    if n == 0 then 0.0 else Combine(m, DistanceTo(m, a, b, n - 1), Gap(a, b, n - 1))
  }

  function Larger(m: nat, n: nat): nat { if m < n then n else m }

  function Distance(m: Metric, a: Cube, b: Cube): real { DistanceTo(m, a, b, Larger(a.dim, b.dim)) }

  lemma {:induction false} SquareGrows(x: real, y: real)
    requires 0.0 <= x <= y
    ensures x * x <= y * y
  {
    assert x * x <= x * y;
    assert x * y <= y * y;
  }

  lemma {:induction false} CombineGrows(m: Metric, d: real, d': real, g: real, g': real)
    requires d <= d' && 0.0 <= g <= g'
    ensures Combine(m, d, g) <= Combine(m, d', g')
    ensures d >= 0.0 ==> Combine(m, d, g) >= 0.0 && Combine(m, d, 0.0) == d
  {
    SquareGrows(g, g');
    SquareGrows(0.0, g);
  }

  lemma {:induction false} DistanceSymmetric(m: Metric, a: Cube, b: Cube, n: nat)
    ensures DistanceTo(m, a, b, n) == DistanceTo(m, b, a, n) >= 0.0
  {
    hide Gap, Combine;
    if n > 0 {
      DistanceSymmetric(m, a, b, n - 1);
      GapFacts(a, b, n - 1);
      CombineGrows(m, DistanceTo(m, a, b, n - 1), DistanceTo(m, a, b, n - 1), Gap(a, b, n - 1), Gap(a, b, n - 1));
    }
  }

  /** Dimensions that both boxes lack add nothing. */
  lemma {:induction false} BeyondBoth(m: Metric, a: Cube, b: Cube, n: nat)
    requires Larger(a.dim, b.dim) <= n
    ensures DistanceTo(m, a, b, n) == Distance(m, a, b)
    decreases n
  {
    hide Gap, Combine;
    if Larger(a.dim, b.dim) < n {
      BeyondBoth(m, a, b, n - 1);
      DistanceSymmetric(m, a, b, n - 1);
      GapFacts(a, b, n - 1);
      CombineGrows(m, DistanceTo(m, a, b, n - 1), DistanceTo(m, a, b, n - 1), 0.0, 0.0);
    }
  }

  lemma {:induction false} CoveredIsNotNearer(m: Metric, k: Cube, c: Cube, q: Cube, n: nat)
    requires Covers(k, c)
    ensures DistanceTo(m, k, q, n) <= DistanceTo(m, c, q, n)
  {
    hide Gap, Combine;
    if n > 0 {
      CoveredIsNotNearer(m, k, c, q, n - 1);
      assert ContainsAt(k, c, n - 1);
      GapShrinks(k, c, q, n - 1);
      GapFacts(k, q, n - 1);
      CombineGrows(m, DistanceTo(m, k, q, n - 1), DistanceTo(m, c, q, n - 1), Gap(k, q, n - 1), Gap(c, q, n - 1));
    }
  }

  /** The distance of a key is a lower bound for every box below it, in each of the three metrics. */
  lemma {:induction false} KeyDistanceIsLowerBound(t: Tree, c: Cube, q: Cube, m: Metric)
    requires Built(t) && Holds(t, c)
    ensures Distance(m, Key(t), q) <= Distance(m, c, q)
  {
    hide DistanceTo, Covers, Built;
    KeysCover(t, c);
    assert c.dim <= Key(t).dim by { CoverDims(Key(t), c); }
    var n := Larger(Key(t).dim, q.dim);
    CoveredIsNotNearer(m, Key(t), c, q, n);
    BeyondBoth(m, c, q, n);
  }

  lemma {:induction false} CoverDims(k: Cube, c: Cube)
    requires Covers(k, c)
    ensures c.dim <= k.dim
  {
  }

  // ----- what the three distances are -----

  /** The gaps in all dimensions of both boxes. */
  function Gaps(a: Cube, b: Cube, n: nat): (s: seq<real>)
    ensures |s| == n && forall i :: 0 <= i < n ==> s[i] == Gap(a, b, i)
  {
    if n == 0 then [] else Gaps(a, b, n - 1) + [Gap(a, b, n - 1)]
  }

  function Sum(s: seq<real>): real { if s == [] then 0.0 else Sum(s[..|s| - 1]) + s[|s| - 1] }

  function Square(x: real): real { x * x }

  function Squares(s: seq<real>): (r: seq<real>)
    ensures |r| == |s| && forall i :: 0 <= i < |s| ==> r[i] == Square(s[i])
  {
    if s == [] then [] else Squares(s[..|s| - 1]) + [Square(s[|s| - 1])]
  }

  lemma {:induction false} SumMore(s: seq<real>, x: real)
    ensures Sum(s + [x]) == Sum(s) + x
  {
    assert (s + [x])[..|s|] == s;
  }

  lemma {:induction false} SquaresMore(s: seq<real>, x: real)
    ensures Squares(s + [x]) == Squares(s) + [Square(x)]
  {
    hide Square;
    assert (s + [x])[..|s|] == s;
  }

  /** The sum of the gaps, the sum of their squares, and the largest of them. */
  predicate Measures(m: Metric, gaps: seq<real>, d: real) {
    match m
    case Taxicab => d == Sum(gaps)
    case SquaredEuclid => d == Sum(Squares(gaps))
    case Chebyshev => (forall i :: 0 <= i < |gaps| ==> gaps[i] <= d) && (d in gaps || (gaps == [] && d == 0.0))
  }

  lemma {:induction false} OneGapMore(m: Metric, gaps: seq<real>, g: real, d: real)
    requires Measures(m, gaps, d) && g >= 0.0
    ensures Measures(m, gaps + [g], Combine(m, d, g))
  {
    hide Sum, Squares;
    match m
    case Taxicab => SumMore(gaps, g);
    case SquaredEuclid =>
      SquaresMore(gaps, g);
      SumMore(Squares(gaps), Square(g));
    case Chebyshev =>
      assert (gaps + [g])[|gaps|] == g;
      assert d in gaps ==> d in gaps + [g];
  }

  lemma {:induction false} NoGaps(m: Metric, a: Cube, b: Cube)
    ensures Measures(m, Gaps(a, b, 0), DistanceTo(m, a, b, 0))
  {
  }

  lemma {:induction false} DistanceMeasures(m: Metric, a: Cube, b: Cube, n: nat)
    ensures Measures(m, Gaps(a, b, n), DistanceTo(m, a, b, n))
  {
    hide Gap, Measures, Combine, Sum, Squares;
    if n == 0 {
      NoGaps(m, a, b);
    } else {
      DistanceMeasures(m, a, b, n - 1);
      GapFacts(a, b, n - 1);
      OneGapMore(m, Gaps(a, b, n - 1), Gap(a, b, n - 1), DistanceTo(m, a, b, n - 1));
    }
  }

  // ----- the loops -----

  /** distance_taxicab, the sum in cube_distance and distance_chebyshev. */
  method Measure(m: Metric, a0: Cube, b0: Cube) returns (distance: real)
    ensures distance == Distance(m, a0, b0)
    ensures Measures(m, Gaps(a0, b0, Larger(a0.dim, b0.dim)), distance)
  {
    hide Gap, Combine, Distance1D, DistanceTo, Measures;
    DistanceMeasures(m, a0, b0, Larger(a0.dim, b0.dim));
    var a, b := a0, b0;
    if a.dim < b.dim {
      a, b := b, a;
    }
    DistanceSymmetric(m, a0, b0, a.dim);
    distance := 0.0;
    NoDimensions(m, a, b);
    for i := 0 to b.dim
      invariant distance == DistanceTo(m, a, b, i)
    {
      GapFacts(a, b, i);
      OneMore(m, a, b, i);
      distance := Combine(m, distance, Abs(Distance1D(LL(a, i), UR(a, i), LL(b, i), UR(b, i))));
    }
    for i := b.dim to a.dim
      invariant distance == DistanceTo(m, a, b, i)
    {
      GapFacts(a, b, i);
      OneMore(m, a, b, i);
      distance := Combine(m, distance, Abs(Distance1D(LL(a, i), UR(a, i), 0.0, 0.0)));
    }
  }

  function Abs(x: real): real { if x < 0.0 then -x else x }

  lemma {:induction false} NoDimensions(m: Metric, a: Cube, b: Cube)
    ensures DistanceTo(m, a, b, 0) == 0.0
  {
  }

  lemma {:induction false} OneMore(m: Metric, a: Cube, b: Cube, i: nat)
    ensures DistanceTo(m, a, b, i + 1) == Combine(m, DistanceTo(m, a, b, i), Gap(a, b, i))
  {
  }

  // ----- ordering by a coordinate -----

  /** g_cube_distance for the ~> operator; a negative number asks for the negated coordinate. */
  function CoordDistance(c: Cube, coord: int, isLeaf: bool): real
    requires coord != 0
  {
    var n := if coord < 0 then -coord else coord;
    var i := (n - 1) / 2;
    var upper := (n - 1) % 2 == 1;
    var value :=
      if n <= 2 * c.dim then
        if c.point then c.x[i]
        else if isLeaf then if upper then Max(c.x[i], c.x[i + c.dim]) else Min(c.x[i], c.x[i + c.dim])
        else if coord > 0 then Min(c.x[i], c.x[i + c.dim]) else Max(c.x[i], c.x[i + c.dim])
      else 0.0;
    if coord < 0 then -value else value
  }

  /** A leaf yields a bound of its box, an inner page the bound that serves all boxes below. */
  lemma {:induction false} CoordMeans(c: Cube, coord: int)
    requires coord != 0
    ensures var n := if coord < 0 then -coord else coord;
      var i, upper := (n - 1) / 2, (n - 1) % 2 == 1;
      && CoordDistance(c, coord, true) == (if upper then Hi(c, i) else Lo(c, i)) * (if coord < 0 then -1.0 else 1.0)
      && CoordDistance(c, coord, false) == (if coord < 0 then -Hi(c, i) else Lo(c, i))
  {
  }

  /** The coordinate distance of a key is a lower bound for every box below it. */
  lemma {:induction false} KeyCoordIsLowerBound(t: Tree, c: Cube, coord: int)
    requires Built(t) && Holds(t, c) && coord != 0
    ensures CoordDistance(Key(t), coord, false) <= CoordDistance(c, coord, true)
    ensures CoordDistance(Key(t), coord, false) <= CoordDistance(c, coord, false)
  {
    hide CoordDistance, Built;
    KeysCover(t, c);
    var i := ((if coord < 0 then -coord else coord) - 1) / 2;
    CoordMeans(Key(t), coord);
    CoordMeans(c, coord);
    assert ContainsAt(Key(t), c, i);
    LoBelowHi(c, i);
  }
}
