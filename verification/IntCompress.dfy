/**
 * g_int_compress and g_int_decompress: an array rewritten in place as ranges, and back.
 */
module IntCompress {
  import opened CLimits
  import opened Options
  import opened IntRanges

  const INT64_MAX: int := 0x7fff_ffff_ffff_ffff
  const INT_MAX: int := 0x7fff_ffff
  const INT_MIN: int := -0x8000_0000

  /** MAXNUMELTS with 8-byte datums and a 24-byte array header. */
  const MAX_NUM_ELTS := (MAX_ALLOC_SIZE / 8) / 2

  /** `OverRead` stands for an array of odd length taken for ranges: the element after the last one is read. */
  datatype Result<T> = Ok(value: T) | TooSparse | TooBig | OverRead

  predicate Int32s(s: seq<int>) {
    forall i :: 0 <= i < |s| ==> INT_MIN <= s[i] <= INT_MAX
  }

  /** memmove to a lower address */
  method MoveDown(dr: array<int>, dst: nat, src: nat, n: nat)
    requires dst <= src && src + n <= dr.Length
    modifies dr
    ensures dr[dst..dst + n] == old(dr[src..src + n])
    ensures dr[..dst] == old(dr[..dst])
  {
    for k := dst to dst + n
      invariant forall p :: dst <= p < k ==> dr[p] == old(dr[p + src - dst])
      invariant forall p :: 0 <= p < dst || k <= p < dr.Length ==> dr[p] == old(dr[p])
    {
      dr[k] := dr[k + src - dst];
    }
  }

  /** The sum of internal_size from position i on; None if it reads behind the array.  A range that starts where the
      one before it ends is not counted. */
  function SizeFrom(a: seq<int>, i: nat): Option<int>
    decreases |a| - i
  {
    if i >= |a| then Some(0)
    else
      var rest := SizeFrom(a, i + 2);
      if i > 0 && a[i] == a[i - 1] then rest
      else if i + 1 == |a| || rest.None? then None
      else Some(a[i + 1] - a[i] + 1 + rest.value)
  }

  /** internal_size: -1 stands for a sum that is no int. */
  method InternalSize(a: seq<int>) returns (r: Option<int>)
    ensures r.None? <==> SizeFrom(a, 0).None?
    ensures r.Some? ==> var n := SizeFrom(a, 0).value; r.value == if INT_MIN <= n <= INT_MAX then n else -1
  {
    var size := 0;
    var i := 0;
    while i < |a|
      invariant 0 <= i
      invariant SizeFrom(a, 0) == if SizeFrom(a, i).None? then None else Some(size + SizeFrom(a, i).value)
    {
      if i == 0 || a[i] != a[i - 1] {
        if i + 1 == |a| {
          return None;
        }
        size := size + a[i + 1] - a[i] + 1;
      }
      i := i + 2;
    }
    return Some(if size > INT_MAX || size < INT_MIN then -1 else size);
  }

  /** On disjoint ranges it is the number of integers they hold. */
  lemma {:induction false} SizeOfRanges(a: seq<int>, i: nat)
    requires i <= |a| && Disjoint(a[i..]) && (0 < i < |a| ==> a[i - 1] < a[i])
    ensures SizeFrom(a, i) == Some(Size(a[i..])) && Size(a[i..]) >= 0
    decreases |a| - i
  {
    if i < |a| {
      assert a[i..][2..] == a[i + 2..];
      SizeOfRanges(a, i + 2);
    }
  }

  /** On increasing integers of odd number it reads behind the array. */
  lemma {:induction false} OddIsOverRead(a: seq<int>, i: nat)
    requires i < |a| && (|a| - i) % 2 == 1 && Increasing(a)
    ensures SizeFrom(a, i) == None
    decreases |a| - i
  {
    if i + 2 < |a| {
      OddIsOverRead(a, i + 2);
    }
  }

  /** The ranges with the boundary at position `c` removed. */
  function CloseAt(f: seq<int>, c: nat): seq<int>
    requires 1 <= c < |f|
  {
    f[..c - 1] + f[c + 1..]
  }

  lemma CloseLater(a: int, rest: seq<int>, c: nat)
    requires 1 <= c < |rest|
    ensures CloseAt([a, a] + rest, c + 2) == [a, a] + CloseAt(rest, c)
    ensures 2 <= c ==> CloseAt([a] + rest[1..], c) == [a] + CloseAt(rest, c)[1..]
  {
  }

  /** Which gap the flattened position separates, and what closing it leaves. */
  lemma {:induction false} MergeAt(key: seq<int>, keep: seq<bool>, c: nat) returns (g: nat)
    requires |key| == |keep| + 1
    requires 2 <= c < |Flat(key, keep)| && c % 2 == 0
    ensures g < |keep| && keep[g]
    ensures Flat(key, keep)[c] - Flat(key, keep)[c - 1] == Gap(key, g)
    ensures CloseAt(Flat(key, keep), c) == Flat(key, keep[g := false])
    ensures Count(keep[g := false]) == Count(keep) - 1
  {
    if keep[0] && c == 2 {
      g := 0;
      CloseFirst(key, keep);
    } else {
      var d := if keep[0] then c - 2 else c;
      var g' := MergeAt(key[1..], keep[1..], d);
      g := g' + 1;
      CloseRest(key, keep, d, g');
    }
  }

  lemma CloseRest(key: seq<int>, keep: seq<bool>, d: nat, g: nat)
    requires |key| == |keep| + 1 && keep != [] && g < |keep| - 1
    requires 2 <= d < |Flat(key[1..], keep[1..])|
    requires CloseAt(Flat(key[1..], keep[1..]), d) == Flat(key[1..], keep[1..][g := false])
    ensures CloseAt(Flat(key, keep), if keep[0] then d + 2 else d) == Flat(key, keep[g + 1 := false])
  {
    assert keep[g + 1 := false][1..] == keep[1..][g := false];
    CloseLater(key[0], Flat(key[1..], keep[1..]), d);
  }

  lemma CloseFirst(key: seq<int>, keep: seq<bool>)
    requires |key| == |keep| + 1 && keep != [] && keep[0]
    ensures |Flat(key, keep)| > 2 && Flat(key, keep)[2] - Flat(key, keep)[1] == Gap(key, 0)
    ensures CloseAt(Flat(key, keep), 2) == Flat(key, keep[0 := false])
    ensures Count(keep[0 := false]) == Count(keep) - 1
  {
    var rest := Flat(key[1..], keep[1..]);
    assert keep[0 := false][1..] == keep[1..];
    assert CloseAt([key[0], key[0]] + rest, 2) == [key[0]] + rest[1..];
  }

  /** Every kept gap shows up between two neighbouring ranges. */
  lemma {:induction false} PositionOf(key: seq<int>, keep: seq<bool>, g: nat) returns (c: nat)
    requires |key| == |keep| + 1 && g < |keep| && keep[g]
    ensures 2 <= c < |Flat(key, keep)| && c % 2 == 0
    ensures Flat(key, keep)[c] - Flat(key, keep)[c - 1] == Gap(key, g)
  {
    if g == 0 {
      c := 2;
    } else {
      c := PositionOf(key[1..], keep[1..], g - 1);
      if keep[0] { c := c + 2; }
    }
  }

  /** Closing the narrowest open gap keeps the widest ones open. */
  lemma ClosingNarrowest(key: seq<int>, keep: seq<bool>, c: nat) returns (g: nat)
    requires |key| == |keep| + 1 && WidestKept(key, keep)
    requires 2 <= c < |Flat(key, keep)| && c % 2 == 0
    requires forall d :: 2 <= d < |Flat(key, keep)| && d % 2 == 0 ==>
               Flat(key, keep)[c] - Flat(key, keep)[c - 1] <= Flat(key, keep)[d] - Flat(key, keep)[d - 1]
    ensures g < |keep| && keep[g] && WidestKept(key, keep[g := false])
    ensures CloseAt(Flat(key, keep), c) == Flat(key, keep[g := false])
    ensures Count(keep[g := false]) == Count(keep) - 1
  {
    g := MergeAt(key, keep, c);
    forall h | 0 <= h < |keep| && keep[h] ensures Gap(key, g) <= Gap(key, h) {
      var d := PositionOf(key, keep, h);
    }
  }

  /** The inner loop: how far left the run of consecutive integers ending at `i` may be taken. */
  method RunStart(dr: array<int>, last: nat, budget: nat) returns (i: nat, lenr: nat, rStart: int)
    requires last < dr.Length
    ensures i <= last && lenr == budget - (last - i)
    ensures forall t :: i < t <= last ==> dr[t - 1] == dr[t] - 1
    ensures rStart == dr[i]
  {
    i, lenr, rStart := last, budget, dr[last];
    while i > 0 && lenr > 0 && dr[i - 1] == rStart - 1
      invariant 0 <= i <= last && lenr == budget - (last - i)
      invariant forall t :: i < t <= last ==> dr[t - 1] == dr[t] - 1
      invariant rStart == dr[i]
    {
      rStart, i, lenr := rStart - 1, i - 1, lenr - 1;
    }
  }

  /** dr[2 * j] = lo, dr[2 * j + 1] = hi */
  method WriteRange(dr: array<int>, j: nat, lo: int, hi: int)
    requires 2 * j + 1 < dr.Length
    modifies dr
    ensures dr[2 * j..] == [lo, hi] + old(dr[2 * j + 2..])
    ensures forall t :: 0 <= t < 2 * j ==> dr[t] == old(dr[t])
  {
    dr[2 * j] := lo;
    dr[2 * j + 1] := hi;
    assert dr[2 * j + 2..] == old(dr[2 * j + 2..]);
  }

  /** One round of the first loop: one run becomes one range. */
  method MergeRun(dr: array<int>, last: nat, j: nat, budget: nat, ghost key: seq<int>, ghost keep: seq<bool>)
    returns (i: int, lenr: nat, ghost kept: seq<bool>)
    requires last <= j < |key| && dr.Length == 2 * |key|
    requires forall t :: 0 <= t <= last ==> dr[t] == key[t]
    requires Written(key, keep, last, dr[2 * j + 2..])
    modifies dr
    ensures -1 <= i < last && lenr == budget - (last - 1 - i)
    ensures forall t :: 0 <= t <= i ==> dr[t] == key[t]
    ensures Written(key, kept, i, dr[2 * j..])
  {
    var rEnd := dr[last];
    var first: int, left, rStart := RunStart(dr, last, budget);
    kept := RunRange(key, keep, first, last, dr[2 * j + 2..]);
    WriteRange(dr, j, rStart, rEnd);
    i, lenr := first - 1, left;
  }

  /** The first loop: merge runs of consecutive integers, from the right, while ranges may
      still be removed.  The unread elements `dr[..i + 1]` are never overwritten. */
  method MergeRuns(dr: array<int>, n: nat, budget: nat)
    returns (i: int, j: int, ghost keep: seq<bool>)
    requires 1 <= n && dr.Length == 2 * n
    modifies dr
    ensures -1 <= i <= j <= n - 1 && j - i <= budget
    ensures forall t :: 0 <= t <= i ==> dr[t] == old(dr[t])
    ensures Written(old(dr[..n]), keep, i, dr[2 * j + 2..])
  {
    hide Flat, Gap;
    ghost var key := dr[..n];
    var lenr := budget;
    i, j := n - 1, n - 1;
    keep := [];
    while i > 0 && lenr > 0
      invariant -1 <= i <= j <= n - 1 && 0 <= lenr == budget - (j - i)
      invariant forall t :: 0 <= t <= i ==> dr[t] == key[t]
      invariant Written(key, keep, i, dr[2 * j + 2..])
      decreases i
    {
      i, lenr, keep := MergeRun(dr, i, j, lenr, key, keep);
      j := j - 1;
    }
  }

  method CopyOne(dr: array<int>, i: nat, j: nat, ghost key: seq<int>, ghost keep: seq<bool>)
    returns (ghost kept: seq<bool>)
    requires i <= j < |key| && dr.Length == 2 * |key|
    requires forall t :: 0 <= t <= i ==> dr[t] == key[t]
    requires Written(key, keep, i, dr[2 * j + 2..])
    modifies dr
    ensures forall t :: 0 <= t < i ==> dr[t] == key[t]
    ensures Written(key, kept, i - 1, dr[2 * j..])
  {
    kept := RunRange(key, keep, i, i, dr[2 * j + 2..]);
    WriteRange(dr, j, dr[i], dr[i]);
  }

  /** The second loop: copy what is left as one-element ranges. */
  method CopyTrivial(dr: array<int>, n: nat, i0: int, j0: int, ghost key: seq<int>, ghost keep0: seq<bool>)
    returns (ghost keep: seq<bool>)
    requires |key| == n && dr.Length == 2 * n && -1 <= i0 <= j0 <= n - 1
    requires forall t :: 0 <= t <= i0 ==> dr[t] == key[t]
    requires Written(key, keep0, i0, dr[2 * j0 + 2..])
    modifies dr
    ensures Written(key, keep, -1, dr[2 * (j0 - i0)..])
  {
    hide Written;
    var i, j := i0, j0;
    keep := keep0;
    while i >= 0
      invariant -1 <= i <= j <= n - 1 && j - i == j0 - i0
      invariant forall t :: 0 <= t <= i ==> dr[t] == key[t]
      invariant Written(key, keep, i, dr[2 * j + 2..])
      decreases i
    {
      keep := CopyOne(dr, i, j, key, keep);
      i, j := i - 1, j - 1;
    }
    assert 2 * j + 2 == 2 * (j0 - i0);
  }

  /** The key as at least `numRanges` ranges, shifted down to the start of the array. */
  method BuildRanges(dr: array<int>, n: nat, numRanges: nat) returns (len: nat, ghost keep: seq<bool>)
    requires 1 <= numRanges && 2 * numRanges <= n && dr.Length == 2 * n
    requires Increasing(dr[..n])
    modifies dr
    ensures 2 * numRanges <= len <= dr.Length
    ensures |keep| == n - 1 && WidestKept(old(dr[..n]), keep)
    ensures dr[..len] == Flat(old(dr[..n]), keep)
  {
    hide Written, WidestKept, Flat;
    ghost var key := dr[..n];
    var i, j;
    i, j, keep := MergeRuns(dr, n, n - numRanges);
    keep := CopyTrivial(dr, n, i, j, key, keep);
    j := j - i;
    len := 2 * (n - j);
    ghost var tail := dr[2 * j..];
    WrittenAll(key, keep, tail);
    assert tail == dr[2 * j..2 * j + len];
    if j != 0 {
      MoveDown(dr, 0, 2 * j, len);
      assert dr[..len] == dr[0..0 + len];
    }
  }

  lemma WrittenAll(key: seq<int>, keep: seq<bool>, tail: seq<int>)
    requires key != [] && Increasing(key) && Written(key, keep, -1, tail)
    ensures |keep| == |key| - 1 && tail == Flat(key, keep) && WidestKept(key, keep)
  {
    assert key[0..] == key;
  }

  /** The tail of the array holds the ranges of the elements beyond `i`, and only unit gaps
      have been closed. */
  ghost predicate Written(key: seq<int>, keep: seq<bool>, i: int, tail: seq<int>)
    requires -1 <= i < |key|
  {
    if i == |key| - 1 then tail == [] && keep == []
    else
      && |keep| == |key| - i - 2
      && tail == Flat(key[i + 1..], keep)
      && forall g :: 0 <= g < |keep| && !keep[g] ==> Gap(key[i + 1..], g) == 1
  }

  /** Prepending the range of a run of consecutive elements `key[first..last + 1]`. */
  lemma {:induction false} RunRange(key: seq<int>, keep: seq<bool>, first: nat, last: nat, tail: seq<int>)
    returns (kept: seq<bool>)
    requires first <= last < |key| && Written(key, keep, last, tail)
    requires forall t :: first < t <= last ==> key[t - 1] == key[t] - 1
    ensures Written(key, kept, first - 1, [key[first], key[last]] + tail)
    decreases last - first
  {
    var xs := key[first..];
    assert forall g :: 0 < g < |xs| ==> xs[g] == key[first + g];
    if first == last {
      kept := if last == |key| - 1 then [] else [true] + keep;
      if last < |key| - 1 {
        assert xs[1..] == key[last + 1..];
        assert kept[1..] == keep;
      }
    } else {
      var later := RunRange(key, keep, first + 1, last, tail);
      kept := [false] + later;
      assert xs[1..] == key[first + 1..];
      assert kept[1..] == later;
      assert ([key[first + 1], key[last]] + tail)[1..] == [key[last]] + tail;
      assert [key[first]] + ([key[last]] + tail) == [key[first], key[last]] + tail;
    }
  }

  /** The position after the narrowest gap. */
  method NarrowestGap(dr: array<int>, len: nat) returns (cand: nat)
    requires 4 <= len <= dr.Length && len % 2 == 0
    requires forall i :: 2 <= i < len && i % 2 == 0 ==> dr[i] - dr[i - 1] < INT64_MAX
    ensures 2 <= cand < len && cand % 2 == 0
    ensures forall i :: 2 <= i < len && i % 2 == 0 ==> dr[cand] - dr[cand - 1] <= dr[i] - dr[i - 1]
  {
    cand := 1;
    var min := INT64_MAX;
    var i := 2;
    while i < len
      invariant 2 <= i <= len && i % 2 == 0
      invariant i == 2 ==> min == INT64_MAX
      invariant i > 2 ==> 2 <= cand < i && cand % 2 == 0 && min == dr[cand] - dr[cand - 1]
      invariant forall d :: 2 <= d < i && d % 2 == 0 ==> min <= dr[d] - dr[d - 1]
    {
      if min > dr[i] - dr[i - 1] {
        min := dr[i] - dr[i - 1];
        cand := i;
      }
      i := i + 2;
    }
  }

  method RemoveBoundary(dr: array<int>, len: nat, cand: nat)
    requires 2 <= cand < len <= dr.Length
    modifies dr
    ensures dr[..len - 2] == CloseAt(old(dr[..len]), cand)
  {
    ghost var f := dr[..len];
    MoveDown(dr, cand - 1, cand + 1, len - cand - 1);
    assert dr[..len - 2] == dr[..cand - 1] + dr[cand - 1..len - 2];
    assert dr[cand - 1..len - 2] == f[cand + 1..];
  }

  /** One round of the second phase: merge the two ranges that are closest. */
  method CloseNarrowest(dr: array<int>, len: nat, ghost key: seq<int>, ghost keep: seq<bool>)
    returns (ghost kept: seq<bool>)
    requires |key| == |keep| + 1 && WidestKept(key, keep) && Int32s(key)
    requires 4 <= len <= dr.Length && dr[..len] == Flat(key, keep)
    modifies dr
    ensures |kept| == |keep| && WidestKept(key, kept)
    ensures dr[..len - 2] == Flat(key, kept)
  {
    forall i | 2 <= i < len && i % 2 == 0 ensures dr[i] - dr[i - 1] < INT64_MAX {
      var g := MergeAt(key, keep, i);
      assert dr[i] == dr[..len][i] && dr[i - 1] == dr[..len][i - 1];
    }
    var cand := NarrowestGap(dr, len);
    ghost var f := dr[..len];
    assert forall i :: 0 <= i < len ==> f[i] == dr[i];
    ghost var g := ClosingNarrowest(key, keep, cand);
    RemoveBoundary(dr, len, cand);
    kept := keep[g := false];
  }

  /** Both phases of the compression, on an array of twice the key's length. */
  method CompressInPlace(dr: array<int>, n: nat, numRanges: nat) returns (len: nat, ghost keep: seq<bool>)
    requires 1 <= numRanges && 2 * numRanges <= n && dr.Length == 2 * n
    requires Increasing(dr[..n]) && Int32s(dr[..n])
    modifies dr
    ensures len == 2 * numRanges <= dr.Length
    ensures |keep| == n - 1 && WidestKept(old(dr[..n]), keep) && Count(keep) == numRanges - 1
    ensures dr[..len] == Flat(old(dr[..n]), keep)
  {
    hide Increasing, Int32s, WidestKept, Count, Flat;
    ghost var key := dr[..n];
    len, keep := BuildRanges(dr, n, numRanges);
    while len > numRanges * 2
      invariant 2 * numRanges <= len <= dr.Length
      invariant |keep| == n - 1 && WidestKept(key, keep)
      invariant dr[..len] == Flat(key, keep)
    {
      keep := CloseNarrowest(dr, len, key, keep);
      len := len - 2;
    }
  }

  // ----- the two support functions -----

  /** `f` covers `key` with `numRanges` disjoint ranges, and no cover by that many intervals
      has fewer points. */
  ghost predicate BestCover(key: seq<int>, f: seq<int>, numRanges: nat) {
    && |f| == 2 * numRanges && Disjoint(f)
    && (forall k :: 0 <= k < |key| ==> InRanges(f, key[k]))
    && (forall cover :: |cover| <= numRanges && CoversAll(cover, key) ==> Size(f) <= |Points(cover)|)
  }

  lemma WidestIsBestCover(key: seq<int>, keep: seq<bool>)
    requires |key| == |keep| + 1 && Increasing(key) && WidestKept(key, keep)
    ensures BestCover(key, Flat(key, keep), Count(keep) + 1)
  {
    FlatIsDisjoint(key, keep);
    forall k | 0 <= k < |key| ensures InRanges(Flat(key, keep), key[k]) {
      FlatCovers(key, keep, k);
    }
    forall cover | |cover| <= Count(keep) + 1 && CoversAll(cover, key)
      ensures Size(Flat(key, keep)) <= |Points(cover)|
    {
      WidestIsOptimal(key, keep, cover);
    }
  }

  /** g_int_compress on an array without duplicates, in order.  It gives up on an inner key
      only if no choice of ranges would have been small enough. */
  method Compress(key: seq<int>, leaf: bool, numRanges: nat) returns (r: Result<seq<int>>)
    requires 1 <= numRanges && Increasing(key) && Int32s(key)
    ensures leaf || |key| < 2 * numRanges ==> r == Ok(key)
    ensures !leaf && |key| >= 2 * numRanges ==>
              match r
              case Ok(f) => BestCover(key, f, numRanges) && Size(f) <= MAX_NUM_ELTS
              case TooSparse =>
                forall cover :: |cover| <= numRanges && CoversAll(cover, key) ==> |Points(cover)| > MAX_NUM_ELTS
              case TooBig => false
              case OverRead => false
  {
    if leaf || |key| == 0 || |key| < 2 * numRanges {
      return Ok(key);
    }
    var dr := new int[2 * |key|](i => if 0 <= i < |key| then key[i] else 0);
    assert dr[..|key|] == key;
    var len, keep := CompressInPlace(dr, |key|, numRanges);
    WidestIsBestCover(key, keep);
    var f := dr[..len];
    SizeOfRanges(f, 0);
    assert f[0..] == f;
    var size := InternalSize(f);
    r := if size.value < 0 || size.value > MAX_NUM_ELTS then TooSparse else Ok(f);
  }

  function Range(lo: int, hi: int): (s: seq<int>)
    requires lo <= hi + 1
    ensures |s| == hi - lo + 1
    ensures forall i :: 0 <= i < |s| ==> s[i] == lo + i
  {
    seq(hi - lo + 1, i => lo + i)
  }

  /** The integers of the ranges, in order. */
  function Expand(f: seq<int>): (s: seq<int>)
    requires Disjoint(f)
    ensures |s| == Size(f)
  {
    if f == [] then [] else Range(f[0], f[1]) + Expand(f[2..])
  }

  lemma {:induction false} ExpandMembers(f: seq<int>, x: int)
    requires Disjoint(f)
    ensures x in Expand(f) <==> InRanges(f, x)
  {
    if f != [] {
      ExpandMembers(f[2..], x);
      if f[0] <= x <= f[1] { assert Range(f[0], f[1])[x - f[0]] == x; }
    }
  }

  lemma {:induction false} ExpandIncreasing(f: seq<int>)
    requires Disjoint(f)
    ensures Increasing(Expand(f))
    ensures forall i :: 0 <= i < Size(f) ==> f != [] && f[0] <= Expand(f)[i]
  {
    if f != [] {
      ExpandIncreasing(f[2..]);
    }
  }

  /** What g_int_compress stores: a leaf as it is, or disjoint ranges. */
  predicate Storable(s: seq<int>) { Increasing(s) || Disjoint(s) }

  /** What is read for a stored array. */
  function Decompressed(stored: seq<int>, numRanges: nat): Result<seq<int>> {
    if stored == [] || |stored| < 2 * numRanges then Ok(stored)
    else if !Disjoint(stored) then OverRead
    else if Size(stored) > MAX_NUM_ELTS then TooBig
    else Ok(Expand(stored))
  }

  /** g_int_decompress.  The output array has room for exactly what is written. */
  method Decompress(stored: seq<int>, numRanges: nat) returns (r: Result<seq<int>>)
    requires Storable(stored)
    ensures r == Decompressed(stored, numRanges)
  {
    hide Increasing, Expand, SizeFrom;
    if stored == [] || |stored| < 2 * numRanges {
      return Ok(stored);
    }
    var lenr := InternalSize(stored);
    SizeOfStored(stored);
    if lenr.None? {
      return OverRead;
    }
    if lenr.value < 0 || lenr.value > MAX_NUM_ELTS {
      return TooBig;
    }
    var dr := new int[lenr.value];
    WriteRanges(stored, dr);
    r := Ok(dr[..]);
  }

  lemma {:induction false} SizeOfStored(stored: seq<int>)
    requires Storable(stored)
    ensures Disjoint(stored) ==> SizeFrom(stored, 0) == Some(Size(stored)) && Size(stored) >= 0
    ensures Disjoint(stored) <==> |stored| % 2 == 0
    ensures !Disjoint(stored) ==> SizeFrom(stored, 0).None?
  {
    assert stored[0..] == stored;
    if Disjoint(stored) {
      RangesAreEven(stored);
      SizeOfRanges(stored, 0);
    } else if |stored| % 2 == 0 {
      EvenLeafIsRanges(stored);
    } else {
      OddIsOverRead(stored, 0);
    }
  }

  lemma {:induction false} RangesAreEven(f: seq<int>)
    requires Disjoint(f)
    ensures |f| % 2 == 0
  {
    if f != [] { RangesAreEven(f[2..]); }
  }

  lemma {:induction false} EvenLeafIsRanges(leaf: seq<int>)
    requires Increasing(leaf) && |leaf| % 2 == 0
    ensures Disjoint(leaf)
  {
    if leaf != [] { EvenLeafIsRanges(leaf[2..]); }
  }

  method WriteRanges(stored: seq<int>, dr: array<int>)
    requires Disjoint(stored) && dr.Length == Size(stored)
    modifies dr
    ensures dr[..] == Expand(stored)
  {
    var w, i := 0, 0;
    assert stored[0..] == stored;
    while i < |stored|
      invariant 0 <= i <= |stored| && 0 <= w <= dr.Length
      invariant Disjoint(stored[i..]) && w + Size(stored[i..]) == dr.Length
      invariant dr[..w] + Expand(stored[i..]) == Expand(stored)
      invariant i == 0 ==> w == 0
      invariant 0 < i < |stored| ==> 0 < w && dr[w - 1] < stored[i]
    {
      NextRange(stored, i);
      w := AppendNext(stored, i, dr, w);
      i := i + 2;
    }
    assert dr[..] == dr[..w] + Expand(stored[i..]);
  }

  method AppendNext(stored: seq<int>, i: nat, dr: array<int>, start: nat) returns (w: nat)
    requires i + 1 < |stored| && Disjoint(stored[i..]) && start + Size(stored[i..]) == dr.Length
    requires if i == 0 then start == 0 else 0 < start && dr[start - 1] < stored[i]
    modifies dr
    ensures Disjoint(stored[i + 2..]) && w + Size(stored[i + 2..]) == dr.Length && 0 < w
    ensures i + 2 < |stored| ==> dr[w - 1] < stored[i + 2]
    ensures dr[..w] + Expand(stored[i + 2..]) == old(dr[..start]) + Expand(stored[i..])
  {
    NextRange(stored, i);
    ghost var before, range, rest := dr[..start], Range(stored[i], stored[i + 1]), Expand(stored[i + 2..]);
    w := AppendRange(dr, start, stored[i], stored[i + 1], i == 0);
    assert dr[w - 1] == dr[..w][w - 1] == stored[i + 1];
    assert before + (range + rest) == (before + range) + rest;
  }

  lemma NextRange(f: seq<int>, i: nat)
    requires i < |f| && Disjoint(f[i..])
    ensures i + 1 < |f| && f[i] <= f[i + 1]
    ensures Size(f[i + 2..]) >= 0 && Disjoint(f[i + 2..]) && (i + 2 < |f| ==> f[i + 1] < f[i + 2])
    ensures Size(f[i..]) == f[i + 1] - f[i] + 1 + Size(f[i + 2..])
    ensures Expand(f[i..]) == Range(f[i], f[i + 1]) + Expand(f[i + 2..])
  {
    assert f[i..][2..] == f[i + 2..];
  }

  /** The inner loop: append the integers of one range, skipping one just written. */
  method AppendRange(dr: array<int>, start: nat, lo: int, hi: int, first: bool) returns (w: nat)
    requires lo <= hi && start + (hi - lo + 1) <= dr.Length
    requires first ==> start == 0
    requires !first ==> 0 < start && dr[start - 1] < lo
    modifies dr
    ensures w == start + (hi - lo + 1)
    ensures dr[..w] == old(dr[..start]) + Range(lo, hi)
  {
    w := start;
    var j := lo;
    while j <= hi
      invariant lo <= j <= hi + 1 && w == start + (j - lo)
      invariant dr[..w] == old(dr[..start]) + Range(lo, j - 1)
      invariant 0 < w ==> dr[w - 1] < j
    {
      if first || dr[w - 1] != j {
        dr[w] := j;
        w := w + 1;
      }
      j := j + 1;
    }
  }

  /** What is stored for an inner key comes back as a sorted superset of the key. */
  lemma DecompressedIsSuperset(key: seq<int>, f: seq<int>, numRanges: nat)
    requires BestCover(key, f, numRanges)
    ensures Increasing(Expand(f))
    ensures forall x :: x in key ==> x in Expand(f)
  {
    ExpandIncreasing(f);
    forall x | x in key ensures x in Expand(f) {
      ExpandMembers(f, x);
    }
  }

  /** The elements pair up as neighbours: 4, 5, 9, 10, ... */
  predicate Paired(s: seq<int>) {
    s == [] || (|s| >= 2 && s[1] == s[0] + 1 && Paired(s[2..]))
  }

  lemma {:induction false} PairsExpandToThemselves(leaf: seq<int>)
    requires Increasing(leaf) && Disjoint(leaf)
    ensures Expand(leaf) == leaf <==> Paired(leaf)
  {
    if leaf != [] {
      var rest := leaf[2..];
      PairsExpandToThemselves(rest);
      assert leaf == leaf[..2] + rest;
      if leaf[1] == leaf[0] + 1 {
        assert Range(leaf[0], leaf[1]) == leaf[..2];
        assert Expand(rest) == Expand(leaf)[2..];
      } else {
        assert Expand(leaf)[1] == leaf[0] + 1;
      }
    }
  }

  lemma {:induction false} PairedIsEven(leaf: seq<int>)
    requires Paired(leaf)
    ensures |leaf| % 2 == 0
  {
    if leaf != [] { PairedIsEven(leaf[2..]); }
  }

  /** A leaf is stored as it is, but read back as ranges once it has `2 * num_ranges` elements.  It comes back as it
      was if and only if it is shorter, or its elements pair up as neighbours and are not too many. */
  lemma {:induction false} LongLeafSurvivesIff(leaf: seq<int>, numRanges: nat)
    requires Increasing(leaf)
    ensures Decompressed(leaf, numRanges) == Ok(leaf) <==>
            |leaf| < 2 * numRanges || (Paired(leaf) && |leaf| <= MAX_NUM_ELTS)
  {
    if leaf != [] && |leaf| >= 2 * numRanges {
      SizeOfStored(leaf);
      if Disjoint(leaf) {
        PairsExpandToThemselves(leaf);
      } else if Paired(leaf) {
        PairedIsEven(leaf);
      }
    }
  }

  /** A long leaf of odd length is read behind its end, one of even length may gain elements. */
  lemma {:induction false} LongLeavesThatChange()
    ensures Decompressed([1, 2, 3], 1) == OverRead && Decompressed([1, 3], 1) == Ok([1, 2, 3])
  {
    SizeOfStored([1, 2, 3]);
    assert [1, 3][2..] == [] && Expand([]) == [];
    assert Range(1, 3) + [] == [1, 2, 3];
  }
}
