/**
 * The lossy key of intarray's GiST operator class: a sorted array of integers is stored
 * as `num_ranges` ranges, flattened as lo, hi, lo, hi, ...
 */
module IntRanges {
  import opened Sets

  predicate Increasing(s: seq<int>) {
    forall i, j :: 0 <= i < j < |s| ==> s[i] < s[j]
  }

  function Gap(key: seq<int>, g: nat): int
    requires g + 1 < |key|
  {
    key[g + 1] - key[g]
  }

  function Count(marks: seq<bool>): (c: nat)
    ensures c <= |marks|
  {
    if marks == [] then 0 else (if marks[0] then 1 else 0) + Count(marks[1..])
  }

  /** The ranges left when exactly the gaps marked in `keep` still separate two ranges. */
  function Flat(key: seq<int>, keep: seq<bool>): (f: seq<int>)
    requires |key| == |keep| + 1
    ensures |f| == 2 * (Count(keep) + 1) && f[0] == key[0]
  {
    if keep == [] then [key[0], key[0]]
    else
      var rest := Flat(key[1..], keep[1..]);
      if keep[0] then [key[0], key[0]] + rest else [key[0]] + rest[1..]
  }

  /** Ranges are non-empty and each starts beyond the end of the one before it. */
  predicate Disjoint(f: seq<int>) {
    f == [] || (|f| >= 2 && f[0] <= f[1] && (|f| > 2 ==> f[1] < f[2]) && Disjoint(f[2..]))
  }

  predicate InRanges(f: seq<int>, x: int) {
    |f| >= 2 && (f[0] <= x <= f[1] || InRanges(f[2..], x))
  }

  /** How many integers disjoint ranges cover. */
  function Size(f: seq<int>): (n: int)
    ensures Disjoint(f) ==> n >= 0
  {
    if |f| < 2 then 0 else f[1] - f[0] + 1 + Size(f[2..])
  }

  function MarkedExcess(key: seq<int>, marks: seq<bool>): int
    requires |key| == |marks| + 1
  {
    if marks == [] then 0 else (if marks[0] then Gap(key, 0) - 1 else 0) + MarkedExcess(key[1..], marks[1..])
  }

  lemma {:induction false} FlatIsDisjoint(key: seq<int>, keep: seq<bool>)
    requires |key| == |keep| + 1 && Increasing(key)
    ensures Disjoint(Flat(key, keep))
  {
    if keep != [] {
      FlatIsDisjoint(key[1..], keep[1..]);
      var f, rest := Flat(key, keep), Flat(key[1..], keep[1..]);
      assert f[2..] == if keep[0] then rest else rest[2..];
    }
  }

  lemma {:induction false} FlatCovers(key: seq<int>, keep: seq<bool>, k: nat)
    requires |key| == |keep| + 1 && Increasing(key) && k < |key|
    ensures InRanges(Flat(key, keep), key[k])
  {
    if keep != [] {
      FlatCovers(key[1..], keep[1..], if k == 0 then 0 else k - 1);
      FlatIsDisjoint(key[1..], keep[1..]);
      var f, rest := Flat(key, keep), Flat(key[1..], keep[1..]);
      assert f[2..] == if keep[0] then rest else rest[2..];
    }
  }

  lemma {:induction false} FlatSize(key: seq<int>, keep: seq<bool>)
    requires |key| == |keep| + 1
    ensures Size(Flat(key, keep)) == key[|key| - 1] - key[0] + 1 - MarkedExcess(key, keep)
  {
    if keep != [] {
      FlatSize(key[1..], keep[1..]);
      var f, rest := Flat(key, keep), Flat(key[1..], keep[1..]);
      if keep[0] {
        assert f[2..] == rest;
      } else {
        assert f[2..] == rest[2..];
      }
    }
  }

  // ----- covers in general -----

  datatype Interval = Interval(lo: int, hi: int)

  predicate Hits(c: Interval, x: int) { c.lo <= x <= c.hi }

  function IntervalPoints(lo: int, hi: int): (s: set<int>)
    ensures forall x :: x in s <==> lo <= x <= hi
    decreases hi - lo
  {
    if lo > hi then {} else {lo} + IntervalPoints(lo + 1, hi)
  }

  /** The integers in some interval of the cover. */
  function Points(cover: seq<Interval>): set<int> {
    if cover == [] then {} else IntervalPoints(cover[0].lo, cover[0].hi) + Points(cover[1..])
  }

  predicate CoversAll(cover: seq<Interval>, key: seq<int>) {
    forall k :: 0 <= k < |key| ==> exists j :: 0 <= j < |cover| && Hits(cover[j], key[k])
  }

  lemma {:induction false} PointsMember(cover: seq<Interval>, x: int)
    ensures x in Points(cover) <==> exists j :: 0 <= j < |cover| && Hits(cover[j], x)
  {
    if cover != [] {
      PointsMember(cover[1..], x);
      if x in Points(cover[1..]) {
        var j :| 0 <= j < |cover[1..]| && Hits(cover[1..][j], x);
        assert Hits(cover[j + 1], x);
      }
      if exists j :: 1 <= j < |cover| && Hits(cover[j], x) {
        var j :| 1 <= j < |cover| && Hits(cover[j], x);
        assert Hits(cover[1..][j - 1], x);
      }
    }
  }

  lemma {:induction false} IntervalSize(lo: int, hi: int)
    requires lo <= hi + 1
    ensures |IntervalPoints(lo, hi)| == hi - lo + 1
    decreases hi - lo
  {
    if lo <= hi {
      IntervalSize(lo + 1, hi);
    }
  }

  ghost predicate Bridged(cover: seq<Interval>, key: seq<int>, g: nat)
    requires g + 1 < |key|
  {
    exists j :: 0 <= j < |cover| && Hits(cover[j], key[g]) && Hits(cover[j], key[g + 1])
  }

  /** The gaps of the key that no single interval of the cover spans. */
  ghost function Open(cover: seq<Interval>, key: seq<int>): (m: seq<bool>)
    requires key != []
    ensures |m| == |key| - 1
    ensures forall g :: 0 <= g < |m| ==> (m[g] <==> !Bridged(cover, key, g))
  {
    seq(|key| - 1, g requires 0 <= g < |key| - 1 => !Bridged(cover, key, g))
  }

  ghost function Beyond(cover: seq<Interval>, x: int): set<int> {
    set j | 0 <= j < |cover| && cover[j].lo > x
  }

  /** Each open gap needs an interval that starts after it: a pigeonhole argument. */
  lemma {:induction false} OpenGapsNeedIntervals(cover: seq<Interval>, key: seq<int>, g: nat)
    requires g < |key| && Increasing(key) && CoversAll(cover, key)
    ensures Count(Open(cover, key)[g..]) <= |Beyond(cover, key[g])|
    decreases |key| - g
  {
    if g + 1 < |key| {
      OpenGapsNeedIntervals(cover, key, g + 1);
      var m := Open(cover, key);
      assert m[g..][1..] == m[g + 1..];
      var a, b := Beyond(cover, key[g]), Beyond(cover, key[g + 1]);
      SubsetSize(b, a);
      if m[g] {
        var j :| 0 <= j < |cover| && Hits(cover[j], key[g + 1]);
        assert !Hits(cover[j], key[g]);
        SubsetSize(b + {j}, a);
      }
    }
  }

  lemma FewOpenGaps(cover: seq<Interval>, key: seq<int>)
    requires key != [] && Increasing(key) && CoversAll(cover, key)
    ensures Count(Open(cover, key)) < |cover|
  {
    OpenGapsNeedIntervals(cover, key, 0);
    assert Open(cover, key)[0..] == Open(cover, key);
    var j :| 0 <= j < |cover| && Hits(cover[j], key[0]);
    var all := IntervalPoints(0, |cover| - 1);
    IntervalSize(0, |cover| - 1);
    SubsetSize(Beyond(cover, key[0]), all - {j});
  }

  ghost function PointsFrom(cover: seq<Interval>, x: int): set<int> {
    set y | y in Points(cover) && y >= x
  }

  /** Going one key element to the left adds that element, and a whole bridged gap. */
  lemma PointsGrow(cover: seq<Interval>, key: seq<int>, g: nat)
    requires g + 1 < |key| && Increasing(key) && CoversAll(cover, key)
    ensures |PointsFrom(cover, key[g])| >=
            |PointsFrom(cover, key[g + 1])| + if Bridged(cover, key, g) then Gap(key, g) else 1
  {
    var p, q := PointsFrom(cover, key[g]), PointsFrom(cover, key[g + 1]);
    var inside := if Bridged(cover, key, g) then IntervalPoints(key[g], key[g + 1] - 1) else {key[g]};
    IntervalSize(key[g], key[g + 1] - 1);
    forall x | x in inside ensures x in p {
      if x == key[g] {
        var j :| 0 <= j < |cover| && Hits(cover[j], key[g]);
      } else {
        var j :| 0 <= j < |cover| && Hits(cover[j], key[g]) && Hits(cover[j], key[g + 1]);
        assert Hits(cover[j], x);
      }
      PointsMember(cover, x);
    }
    assert q !! inside;
    SubsetSize(q + inside, p);
  }

  /** A cover contains the key and everything inside each bridged gap. */
  lemma {:induction false} CoverIsLarge(cover: seq<Interval>, key: seq<int>, g: nat)
    requires g < |key| && Increasing(key) && CoversAll(cover, key)
    ensures |PointsFrom(cover, key[g])| >=
            key[|key| - 1] - key[g] + 1 - MarkedExcess(key[g..], Open(cover, key)[g..])
    decreases |key| - g
  {
    if g + 1 == |key| {
      PointsMember(cover, key[g]);
      SubsetSize({key[g]}, PointsFrom(cover, key[g]));
    } else {
      PointsGrow(cover, key, g);
      CoverIsLarge(cover, key, g + 1);
      assert Open(cover, key)[g..][1..] == Open(cover, key)[g + 1..] && key[g..][1..] == key[g + 1..];
    }
  }

  // ----- keeping the widest gaps is best -----

  /** No gap was closed while a smaller one stayed open. */
  predicate WidestKept(key: seq<int>, keep: seq<bool>)
    requires |key| == |keep| + 1
  {
    forall g, h :: 0 <= g < |keep| && 0 <= h < |keep| && !keep[g] && keep[h] ==> Gap(key, g) <= Gap(key, h)
  }

  function Above(key: seq<int>, t: int): int
    requires key != []
  {
    if |key| == 1 then 0 else (if Gap(key, 0) > t then Gap(key, 0) - t else 0) + Above(key[1..], t)
  }

  lemma {:induction false} ExcessBound(key: seq<int>, marks: seq<bool>, t: int)
    requires |key| == |marks| + 1
    ensures MarkedExcess(key, marks) <= Above(key, t) + Count(marks) * (t - 1)
  {
    if marks != [] {
      ExcessBound(key[1..], marks[1..], t);
      var c := Count(marks[1..]);
      assert (c + 1) * (t - 1) == c * (t - 1) + (t - 1);
    }
  }

  /** The bound is met when the gaps of at least t, and no narrower ones, are marked. */
  lemma {:induction false} ExcessIsBound(key: seq<int>, marks: seq<bool>, t: int)
    requires |key| == |marks| + 1
    requires forall g :: 0 <= g < |marks| ==> if marks[g] then Gap(key, g) >= t else Gap(key, g) <= t
    ensures MarkedExcess(key, marks) == Above(key, t) + Count(marks) * (t - 1)
  {
    if marks != [] {
      assert forall g :: 0 <= g < |marks| - 1 ==> Gap(key[1..], g) == Gap(key, g + 1) && marks[1..][g] == marks[g + 1];
      ExcessIsBound(key[1..], marks[1..], t);
      var c := Count(marks[1..]);
      assert (c + 1) * (t - 1) == c * (t - 1) + (t - 1);
    }
  }

  lemma Threshold(key: seq<int>, keep: seq<bool>) returns (t: int)
    requires |key| == |keep| + 1 && Increasing(key) && WidestKept(key, keep)
    ensures t >= 1
    ensures forall g :: 0 <= g < |keep| ==> if keep[g] then Gap(key, g) >= t else Gap(key, g) <= t
  {
    t := 1;
    for n := 0 to |keep|
      invariant t == 1 || exists g :: 0 <= g < |keep| && !keep[g] && Gap(key, g) == t
      invariant t >= 1
      invariant forall g :: 0 <= g < n && !keep[g] ==> Gap(key, g) <= t
    {
      if !keep[n] && Gap(key, n) > t { t := Gap(key, n); }
    }
  }

  lemma WidestIsMost(key: seq<int>, keep: seq<bool>, marks: seq<bool>)
    requires |key| == |keep| + 1 == |marks| + 1 && Increasing(key)
    requires WidestKept(key, keep) && Count(marks) <= Count(keep)
    ensures MarkedExcess(key, marks) <= MarkedExcess(key, keep)
  {
    var t := Threshold(key, keep);
    ExcessBound(key, marks, t);
    ExcessIsBound(key, keep, t);
    MulMonotone(Count(marks), Count(keep), t - 1);
  }

  lemma MulMonotone(a: int, b: int, c: int)
    requires a <= b && 0 <= c
    ensures a * c <= b * c
  {
    assert 0 <= (b - a) * c;
  }

  /** A cover by at most `Count(keep) + 1` intervals never has fewer points than the
      ranges left by closing the narrowest gaps. */
  lemma WidestIsOptimal(key: seq<int>, keep: seq<bool>, cover: seq<Interval>)
    requires |key| == |keep| + 1 && Increasing(key) && WidestKept(key, keep)
    requires |cover| <= Count(keep) + 1 && CoversAll(cover, key)
    ensures Size(Flat(key, keep)) <= |Points(cover)|
  {
    var m := Open(cover, key);
    FewOpenGaps(cover, key);
    WidestIsMost(key, keep, m);
    FlatSize(key, keep);
    CoverIsLarge(cover, key, 0);
    assert key[0..] == key && m[0..] == m;
    SubsetSize(PointsFrom(cover, key[0]), Points(cover));
  }
}
