/**
 * Searching a GiST tree of integer-array keys: the tests on sorted arrays and the claim
 * that compressed inner keys never hide a matching array.
 */
module IntGist {
  import opened IntRanges
  import opened IntCompress

  datatype Strategy = Overlap | Same | Contains | ContainedBy

  predicate Subset(a: seq<int>, b: seq<int>) {
    forall i :: 0 <= i < |a| ==> a[i] in b
  }

  predicate Meets(a: seq<int>, b: seq<int>) {
    exists i :: 0 <= i < |a| && a[i] in b
  }

  /** inner_int_contains: one pass over two sorted arrays decides inclusion. */
  method InnerContains(a: seq<int>, b: seq<int>) returns (r: bool)
    requires Increasing(a) && Increasing(b)
    ensures r <==> Subset(b, a)
  {
    var i, j, n := 0, 0, 0;
    while i < |a| && j < |b|
      invariant 0 <= i <= |a| && 0 <= n == j <= |b|
      invariant forall k :: 0 <= k < j ==> b[k] in a
      invariant j < |b| ==> forall k :: 0 <= k < i ==> a[k] < b[j]
      decreases |a| - i + |b| - j
    {
      if a[i] < b[j] {
        i := i + 1;
      } else if a[i] == b[j] {
        n, i, j := n + 1, i + 1, j + 1;
      } else {
        assert forall k :: i <= k < |a| ==> a[i] <= a[k];
        assert b[j] !in a;
        break;
      }
    }
    return n == |b|;
  }

  /** inner_int_overlap */
  method InnerOverlap(a: seq<int>, b: seq<int>) returns (r: bool)
    requires Increasing(a) && Increasing(b)
    ensures r <==> Meets(a, b)
  {
    var i, j := 0, 0;
    while i < |a| && j < |b|
      invariant 0 <= i <= |a| && 0 <= j <= |b|
      invariant forall k, l :: 0 <= k < |a| && 0 <= l < |b| && (k < i || l < j) ==> a[k] != b[l]
      decreases |a| - i + |b| - j
    {
      if a[i] < b[j] {
        assert forall l :: j <= l < |b| ==> b[j] <= b[l];
        i := i + 1;
      } else if a[i] == b[j] {
        return true;
      } else {
        assert forall k :: i <= k < |a| ==> a[i] <= a[k];
        j := j + 1;
      }
    }
    return false;
  }

  /** The operator on a heap array, both sides sorted and without duplicates. */
  predicate Matches(arr: seq<int>, query: seq<int>, s: Strategy) {
    match s
    case Overlap => Meets(arr, query)
    case Same => arr == query
    case Contains => Subset(query, arr)
    case ContainedBy => Subset(arr, query)
  }

  /** g_int_consistent, except for boolean queries; `key` is the decompressed key. */
  method Consistent(key: seq<int>, query: seq<int>, s: Strategy, isLeaf: bool) returns (r: bool)
    requires Increasing(key) && Increasing(query)
    ensures isLeaf ==> (r <==> Matches(key, query, s))
    ensures !isLeaf ==> (r <==> InnerTest(key, query, s))
  {
    match s
    case Overlap => r := InnerOverlap(key, query);
    case Same =>
      if isLeaf { r := key == query; } else { r := InnerContains(key, query); }
    case Contains => r := InnerContains(key, query);
    case ContainedBy =>
      if isLeaf { r := InnerContains(query, key); } else { r := true; }
  }

  predicate InnerTest(key: seq<int>, query: seq<int>, s: Strategy) {
    match s
    case Overlap => Meets(key, query)
    case Same => Subset(query, key)
    case Contains => Subset(query, key)
    case ContainedBy => true
  }

  /** Keys as they stand in memory after decompression.  A leaf also has the array of its heap row, which its key is
      read from; `all` is the g_int_union of the children's keys before it is compressed. */
  datatype Tree = Leaf(heap: seq<int>, key: seq<int>) | Node(children: seq<Tree>, all: seq<int>, key: seq<int>)

  ghost predicate Built(t: Tree, numRanges: nat) {
    match t
    case Leaf(heap, key) => Increasing(heap) && Decompressed(heap, numRanges) == Ok(key)
    case Node(children, all, key) =>
      && (forall c :: c in children ==> Built(c, numRanges))
      && Increasing(all)
      && (forall c, x :: c in children && x in c.key ==> x in all)
      && if |all| < 2 * numRanges then key == all
         else exists f :: BestCover(all, f, numRanges) && Disjoint(f) && key == Expand(f)
  }

  predicate HasLeaf(t: Tree, arr: seq<int>) {
    match t
    case Leaf(heap, _) => heap == arr
    case Node(children, _, _) => exists c :: c in children && HasLeaf(c, arr)
  }

  /** A leaf key, however long its array, holds the array. */
  lemma {:induction false} LeafKeyHolds(heap: seq<int>, key: seq<int>, numRanges: nat)
    requires Increasing(heap) && Decompressed(heap, numRanges) == Ok(key)
    ensures Increasing(key) && Subset(heap, key)
  {
    if heap != [] && |heap| >= 2 * numRanges {
      ExpandIncreasing(heap);
      forall i | 0 <= i < |heap| ensures heap[i] in key {
        BoundsAreInRanges(heap, i);
        ExpandMembers(heap, heap[i]);
      }
    }
  }

  lemma {:induction false} BoundsAreInRanges(f: seq<int>, i: nat)
    requires Disjoint(f) && i < |f|
    ensures InRanges(f, f[i])
  {
    if i >= 2 { BoundsAreInRanges(f[2..], i - 2); }
  }

  /** Every key holds the array of every row below it. */
  lemma {:induction false} KeysAreSupersets(t: Tree, arr: seq<int>, numRanges: nat)
    requires Built(t, numRanges) && HasLeaf(t, arr)
    ensures Increasing(t.key) && Subset(arr, t.key)
  {
    match t
    case Leaf(_, _) => LeafKeyHolds(t.heap, t.key, numRanges);
    case Node(children, all, key) =>
      var c :| c in children && HasLeaf(c, arr);
      KeysAreSupersets(c, arr, numRanges);
      if |all| >= 2 * numRanges {
        var f :| BestCover(all, f, numRanges) && Disjoint(f) && key == Expand(f);
        DecompressedIsSuperset(all, f, numRanges);
      }
  }

  /** Lossy keys at every level of a tree of any height never hide the row of a matching array. */
  lemma InnerKeysNeverPrune(t: Tree, arr: seq<int>, query: seq<int>, s: Strategy, numRanges: nat)
    requires Built(t, numRanges) && HasLeaf(t, arr) && Matches(arr, query, s)
    ensures InnerTest(t.key, query, s)
  {
    KeysAreSupersets(t, arr, numRanges);
    assert forall x :: x in arr ==> x in t.key;
    if s.Overlap? {
      var i :| 0 <= i < |arr| && arr[i] in query;
      var k :| 0 <= k < |t.key| && t.key[k] == arr[i];
    }
  }

  /** The test at a leaf is the operator on the row's array, for every query and strategy, exactly when the array
      survives storage. */
  lemma {:induction false} LeafTestIsExactIff(heap: seq<int>, key: seq<int>, numRanges: nat)
    requires Increasing(heap) && Decompressed(heap, numRanges) == Ok(key)
    ensures (forall query, s :: Matches(key, query, s) <==> Matches(heap, query, s)) <==>
            |heap| < 2 * numRanges || (Paired(heap) && |heap| <= MAX_NUM_ELTS)
  {
    LongLeafSurvivesIff(heap, numRanges);
    assert Matches(heap, heap, Same);
    if key != heap {
      assert !Matches(key, heap, Same);
    }
  }
}
