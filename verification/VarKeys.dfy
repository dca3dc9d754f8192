/**
 * Variable-length GiST keys of btree_gist, for `bytea` (no multibyte handling, no
 * leaf-to-node transform).  An inner key is a pair of byte strings that is cut to a
 * few bytes past the common prefix of the pair, so its upper half is not an upper bound.
 */
module VarKeys {
  import opened ByteStrings

  /** GBT_VARKEY_R: the readable form of a key; a leaf key has both halves equal. */
  datatype Key = Key(lower: Bytes, upper: Bytes)

  datatype Strategy = LessThan | LessEqual | Equal | GreaterEqual | GreaterThan | NotEqual

  /** The indexed operator: does heap value `v` stand in the given relation to the query? */
  predicate Matches(v: Bytes, q: Bytes, s: Strategy) {
    match s
    case LessThan => Less(v, q)
    case LessEqual => Leq(v, q)
    case Equal => v == q
    case GreaterEqual => Leq(q, v)
    case GreaterThan => Less(q, v)
    case NotEqual => v != q
  }

  /** gbt_var_node_pf_match */
  predicate PrefixMatch(k: Key, q: Bytes) {
    Prefix(k.lower, q) || Prefix(k.upper, q)
  }

  /** gbt_var_consistent */
  predicate Consistent(k: Key, q: Bytes, s: Strategy, isLeaf: bool) {
    match s
    case LessEqual => if isLeaf then Compare(q, k.lower) >= 0 else Compare(q, k.lower) >= 0 || PrefixMatch(k, q)
    case LessThan => if isLeaf then Compare(q, k.lower) > 0 else Compare(q, k.lower) >= 0 || PrefixMatch(k, q)
    case Equal =>
      if isLeaf then Compare(q, k.lower) == 0
      else (Compare(k.lower, q) <= 0 && Compare(q, k.upper) <= 0) || PrefixMatch(k, q)
    case GreaterThan => if isLeaf then Compare(q, k.upper) < 0 else Compare(q, k.upper) <= 0 || PrefixMatch(k, q)
    case GreaterEqual => if isLeaf then Compare(q, k.upper) <= 0 else Compare(q, k.upper) <= 0 || PrefixMatch(k, q)
    case NotEqual => !(Compare(q, k.lower) == 0 && Compare(q, k.upper) == 0)
  }

  /** gbt_var_node_cp_len for a single-byte encoding */
  method CommonPrefixLength(k: Key) returns (r: nat)
    ensures r == Cp(k.lower, k.upper)
  {
    var ml := if |k.lower| <= |k.upper| then |k.lower| else |k.upper|;
    var i := 0;
    while i < ml
      invariant 0 <= i <= ml
      invariant forall j :: 0 <= j < i ==> k.lower[j] == k.upper[j]
    {
      if k.lower[i] != k.upper[i] {
        CpUnique(k.lower, k.upper, i);
        return i;
      }
      i := i + 1;
    }
    CpUnique(k.lower, k.upper, ml);
    return ml;
  }

  /** gbt_var_node_truncate, called with `prefixLength == m + 1` */
  function TruncateKey(k: Key, m: nat): Key {
    Key(Cut(k.lower, m + 2), Cut(k.upper, m + 2))
  }

  /** gbt_var_bin_union on a non-null accumulator */
  function BinUnion(u: Key, e: Key): Key {
    Key(if Compare(u.lower, e.lower) > 0 then e.lower else u.lower,
        if Compare(u.upper, e.upper) < 0 then e.upper else u.upper)
  }

  function Join(keys: seq<Key>): Key
    requires keys != []
  {
    if |keys| == 1 then keys[0] else BinUnion(Join(keys[..|keys| - 1]), keys[|keys| - 1])
  }

  function UnionKey(keys: seq<Key>): Key
    requires keys != []
  {
    var u := Join(keys);
    TruncateKey(u, Cp(u.lower, u.upper))
  }

  /** gbt_var_union: the key stored in the parent for a page holding `entries`. */
  method Union(entries: seq<Key>) returns (k: Key)
    requires entries != []
    ensures k == UnionKey(entries)
  {
    var out := entries[0];
    assert entries[..1] == [entries[0]];
    for i := 1 to |entries|
      invariant out == Join(entries[..i])
    {
      assert entries[..i + 1][..i] == entries[..i];
      out := BinUnion(out, entries[i]);
    }
    assert entries[..|entries|] == entries;
    var plen := CommonPrefixLength(out);
    k := TruncateKey(out, plen);
  }

  /** gbt_var_picksplit after sorting: both halves are cut at the larger prefix length. */
  method SplitKeys(left: seq<Key>, right: seq<Key>) returns (l: Key, r: Key)
    requires left != [] && right != []
    ensures l == SplitKey(left, PrefixOf(right)) && r == SplitKey(right, PrefixOf(left))
  {
    var ll := CommonPrefixLength(Join(left));
    var lr := CommonPrefixLength(Join(right));
    var m := if ll >= lr then ll else lr;
    l, r := TruncateKey(Join(left), m), TruncateKey(Join(right), m);
  }

  function PrefixOf(keys: seq<Key>): nat
    requires keys != []
  {
    Cp(Join(keys).lower, Join(keys).upper)
  }

  /** One half of a split whose other half has common prefix length `other`. */
  function SplitKey(keys: seq<Key>, other: nat): Key
    requires keys != []
  {
    TruncateKey(Join(keys), if PrefixOf(keys) >= other then PrefixOf(keys) else other)
  }

  // ----- what a key says about the values below it -----

  /** The bound that every key keeps: a value may exceed the upper half only by agreeing
      with it on two bytes more than the two halves agree. */
  predicate Covers(k: Key, v: Bytes) {
    && Leq(k.lower, k.upper)
    && Leq(k.lower, v)
    && (Leq(v, k.upper) || Cp(v, k.upper) >= Cp(k.lower, k.upper) + 2)
  }

  /** The key does not lose `v` for any query that `v` satisfies. */
  ghost predicate Admits(k: Key, v: Bytes) {
    forall q, s :: Matches(v, q, s) ==> Consistent(k, q, s, false)
  }

  /** `u` is at least as wide as `e`. */
  predicate Wider(u: Key, e: Key) {
    Leq(u.lower, e.lower) && Leq(e.upper, u.upper)
  }

  lemma WiderTransitive(a: Key, b: Key, c: Key)
    requires Wider(a, b) && Wider(b, c)
    ensures Wider(a, c)
  {
    LeqTransitive(a.lower, b.lower, c.lower);
    LeqTransitive(c.upper, b.upper, a.upper);
  }

  lemma BinUnionBounds(u: Key, e: Key)
    ensures Wider(BinUnion(u, e), u) && Wider(BinUnion(u, e), e)
  {
    CompareAntisymmetric(u.lower, e.lower);
    CompareAntisymmetric(u.upper, e.upper);
    CompareAntisymmetric(u.lower, u.lower);
    CompareAntisymmetric(u.upper, u.upper);
    CompareAntisymmetric(e.lower, e.lower);
    CompareAntisymmetric(e.upper, e.upper);
  }

  lemma {:induction false} JoinBounds(keys: seq<Key>, i: nat)
    requires i < |keys|
    ensures Wider(Join(keys), keys[i])
  {
    hide Compare, Cp, BinUnion;
    var n := |keys| - 1;
    if n == 0 {
      CompareAntisymmetric(keys[i].lower, keys[i].lower);
      CompareAntisymmetric(keys[i].upper, keys[i].upper);
    } else {
      BinUnionBounds(Join(keys[..n]), keys[n]);
      if i < n {
        JoinBounds(keys[..n], i);
        WiderTransitive(Join(keys), Join(keys[..n]), keys[..n][i]);
      }
    }
  }

  /** Widening a key never lengthens its common prefix, and keeps it covering. */
  lemma WiderCovers(u: Key, e: Key, v: Bytes)
    requires Wider(u, e) && Covers(e, v)
    ensures Cp(u.lower, u.upper) <= Cp(e.lower, e.upper)
    ensures Covers(u, v)
    ensures !Leq(v, u.upper) ==> !Leq(v, e.upper) && Cp(v, u.upper) >= Cp(v, e.upper)
  {
    LeqTransitive(u.lower, e.lower, v);
    WiderPrefix(u, e);
    if !Leq(v, u.upper) { WiderUpper(u, e, v); }
  }

  lemma WiderPrefix(u: Key, e: Key)
    requires Wider(u, e) && Leq(e.lower, e.upper)
    ensures Leq(u.lower, u.upper)
    ensures Cp(u.lower, u.upper) <= Cp(e.lower, e.upper)
  {
    LeqTransitive(u.lower, e.lower, e.upper);
    LeqTransitive(u.lower, e.upper, u.upper);
    Between(u.lower, e.upper, u.upper);
    Between(u.lower, e.lower, e.upper);
  }

  lemma WiderUpper(u: Key, e: Key, v: Bytes)
    requires Wider(u, e) && !Leq(v, u.upper)
    ensures !Leq(v, e.upper) && Cp(v, u.upper) >= Cp(v, e.upper)
  {
    if Leq(v, e.upper) { LeqTransitive(v, e.upper, u.upper); }
    CompareAntisymmetric(u.upper, v);
    CompareAntisymmetric(e.upper, v);
    Between(e.upper, u.upper, v);
  }

  /** Cutting at or beyond the common prefix keeps a key covering. */
  lemma CutCovers(u: Key, m: nat, v: Bytes)
    requires Covers(u, v) && m >= Cp(u.lower, u.upper)
    ensures Covers(TruncateKey(u, m), v)
    ensures Cp(TruncateKey(u, m).lower, TruncateKey(u, m).upper) == Cp(u.lower, u.upper)
  {
    var k := TruncateKey(u, m);
    PrefixLeq(k.lower, u.lower);
    LeqTransitive(k.lower, u.lower, v);
    CpCut(u.lower, u.upper, m + 2);
    CutLeq(u.lower, u.upper, m + 2);
    if Leq(v, u.upper) {
      AboveCut(v, u.upper, m + 2);
    } else {
      CutKeepsCp(v, u.upper, m + 2);
    }
  }

  /** A joined and cut key still covers: the cut must be at or beyond the common prefix. */
  lemma CutJoinCovers(keys: seq<Key>, m: nat, i: nat, v: Bytes)
    requires i < |keys| && Covers(keys[i], v)
    requires m >= PrefixOf(keys)
    ensures Covers(TruncateKey(Join(keys), m), v)
  {
    JoinBounds(keys, i);
    WiderCovers(Join(keys), keys[i], v);
    CutCovers(Join(keys), m, v);
  }

  lemma CutLeq(a: Bytes, b: Bytes, n: nat)
    requires Leq(a, b)
    ensures Leq(Cut(a, n), Cut(b, n))
  {
    CpCut(a, b, n);
  }

  /** What lies at or below a string lies at or below its cut, or starts with it. */
  lemma AboveCut(v: Bytes, u: Bytes, n: nat)
    requires Leq(v, u)
    ensures Leq(v, Cut(u, n)) || (|Cut(u, n)| == n && Cp(v, Cut(u, n)) == n)
  {
    if |u| > n && Cp(v, u) < n {
      CpUnique(v, Cut(u, n), Cp(v, u));
    } else if |u| > n {
      CpUnique(v, Cut(u, n), n);
    }
  }

  lemma CutKeepsCp(v: Bytes, u: Bytes, n: nat)
    ensures Cp(v, Cut(u, n)) == if Cp(v, u) <= n then Cp(v, u) else n
  {
    CpUnique(v, Cut(u, n), if Cp(v, u) <= n then Cp(v, u) else n);
  }

  // ----- when a covering key admits -----

  predicate InReach(k: Key, v: Bytes) {
    Leq(v, k.upper) || PrefixMatch(k, v)
  }

  /** A covering key admits a value exactly when the value is not above the upper half, or
      one half is a prefix of it. */
  lemma AdmitsIff(k: Key, v: Bytes)
    requires Covers(k, v)
    ensures Admits(k, v) <==> InReach(k, v)
  {
    CompareAntisymmetric(v, k.upper);
    CompareAntisymmetric(k.lower, v);
    if Admits(k, v) {
      assert Matches(v, v, Equal);
    }
    if InReach(k, v) {
      forall q, s | Matches(v, q, s)
        ensures Consistent(k, q, s, false)
      {
        ReachIsConsistent(k, v, q, s);
      }
    }
  }

  lemma ReachIsConsistent(k: Key, v: Bytes, q: Bytes, s: Strategy)
    requires Covers(k, v) && InReach(k, v) && Matches(v, q, s)
    ensures Consistent(k, q, s, false)
  {
    CompareAntisymmetric(k.lower, q);
    CompareAntisymmetric(k.upper, q);
    CompareAntisymmetric(v, q);
    CompareAntisymmetric(v, k.upper);
    CompareAntisymmetric(k.lower, v);
    match s {
      case LessThan => LeqTransitive(k.lower, v, q);
      case LessEqual => LeqTransitive(k.lower, v, q);
      case Equal =>
      case GreaterEqual => UpperSide(k, v, q);
      case GreaterThan => UpperSide(k, v, q);
      case NotEqual =>
        CompareAntisymmetric(q, k.lower);
        CompareAntisymmetric(q, k.upper);
        CompareAntisymmetric(v, k.lower);
    }
  }

  lemma UpperSide(k: Key, v: Bytes, q: Bytes)
    requires Covers(k, v) && InReach(k, v) && Leq(q, v)
    ensures Compare(q, k.upper) <= 0 || PrefixMatch(k, q)
  {
    CompareAntisymmetric(k.upper, q);
    if Leq(v, k.upper) {
      LeqTransitive(q, v, k.upper);
    } else if Leq(k.upper, q) {
      LeqTransitive(k.lower, k.upper, q);
      Between(k.lower, q, v);
      Between(k.upper, q, v);
    }
  }

  lemma LeafConsistentIsExact(v: Bytes, q: Bytes, s: Strategy)
    ensures Consistent(Key(v, v), q, s, true) <==> Matches(v, q, s)
  {
    CompareAntisymmetric(v, q);
    CompareAntisymmetric(q, v);
  }

  /** The bytes of the upper half on which every value above it must agree. */
  function Anchor(k: Key): (p: Bytes)
    requires |k.upper| >= Cp(k.lower, k.upper) + 2
  {
    k.upper[..Cp(k.lower, k.upper) + 2]
  }

  predicate AllMax(s: Bytes) { forall i :: 0 <= i < |s| ==> s[i] == 255 }

  /** Checked on the entries' keys alone: cutting the joined key at `m` loses nothing. */
  predicate SafeCut(keys: seq<Key>, m: nat)
    requires keys != []
  {
    var k := TruncateKey(Join(keys), m);
    forall i :: 0 <= i < |keys| && |keys[i].upper| >= Cp(keys[i].lower, keys[i].upper) + 2 ==>
                  var p := Anchor(keys[i]);
                  Prefix(p, k.upper) && !Prefix(k.lower, p) ==> AllMax(k.upper[|p|..])
  }

  /** Exactly when a cut at `m` bytes past the prefix (a union or either half of a split)
      admits every value that the entries' keys cover. */
  lemma SafeCutIff(keys: seq<Key>, m: nat)
    requires keys != [] && m >= PrefixOf(keys)
    requires forall i :: 0 <= i < |keys| ==> Leq(keys[i].lower, keys[i].upper)
    ensures SafeCut(keys, m) <==>
            forall i, v :: 0 <= i < |keys| && Covers(keys[i], v) ==> Admits(TruncateKey(Join(keys), m), v)
  {
    var k := TruncateKey(Join(keys), m);
    if SafeCut(keys, m) {
      forall i, v | 0 <= i < |keys| && Covers(keys[i], v)
        ensures Admits(k, v)
      {
        SafeCutAdmits(keys, m, i, v);
      }
    }
    if !SafeCut(keys, m) {
      var i :| 0 <= i < |keys| && |keys[i].upper| >= Cp(keys[i].lower, keys[i].upper) + 2 &&
               Prefix(Anchor(keys[i]), k.upper) && !Prefix(k.lower, Anchor(keys[i])) &&
               !AllMax(k.upper[|Anchor(keys[i])|..]);
      var v := LostValue(keys, m, i);
    }
  }

  lemma SafeCutAdmits(keys: seq<Key>, m: nat, i: nat, v: Bytes)
    requires i < |keys| && m >= PrefixOf(keys)
    requires SafeCut(keys, m) && Covers(keys[i], v)
    ensures Admits(TruncateKey(Join(keys), m), v)
  {
    var u, e, k := Join(keys), keys[i], TruncateKey(Join(keys), m);
    CutJoinCovers(keys, m, i, v);
    AdmitsIff(k, v);
    if !InReach(k, v) {
      JoinBounds(keys, i);
      WiderCovers(u, e, v);
      OutOfReach(u, e, m, v);
      assert false;
    }
  }

  /** A value out of reach of a cut key breaks the condition of `SafeCut` for its entry. */
  lemma OutOfReach(u: Key, e: Key, m: nat, v: Bytes)
    requires Covers(e, v) && Wider(u, e) && !InReach(TruncateKey(u, m), v)
    ensures |e.upper| >= Cp(e.lower, e.upper) + 2
    ensures Prefix(Anchor(e), TruncateKey(u, m).upper)
    ensures !Prefix(TruncateKey(u, m).lower, Anchor(e))
    ensures !AllMax(TruncateKey(u, m).upper[|Anchor(e)|..])
  {
    var k := TruncateKey(u, m);
    StaysAbove(u, m, v);
    WiderUpper(u, e, v);
    AnchorOfOvershoot(e, v);
    CutKeepsCp(v, u.upper, m + 2);
    assert Cp(v, k.upper) < |k.upper| by { CompareAntisymmetric(v, k.upper); }
    OutOfReachDiffers(k, v, Anchor(e));
    if Prefix(k.lower, Anchor(e)) { PrefixTransitive(k.lower, Anchor(e), v); }
  }

  lemma PrefixTransitive(a: Bytes, b: Bytes, c: Bytes)
    requires Prefix(a, b) && Prefix(b, c)
    ensures Prefix(a, c)
  {
    CpUnique(a, c, |a|);
  }

  lemma StaysAbove(u: Key, m: nat, v: Bytes)
    requires !InReach(TruncateKey(u, m), v)
    ensures !Leq(v, u.upper)
  {
    if Leq(v, u.upper) {
      AboveCut(v, u.upper, m + 2);
      CompareAntisymmetric(v, TruncateKey(u, m).upper);
    }
  }

  lemma AnchorOfOvershoot(e: Key, v: Bytes)
    requires Covers(e, v) && !Leq(v, e.upper)
    ensures |e.upper| >= Cp(e.lower, e.upper) + 2
    ensures Prefix(Anchor(e), v) && |Anchor(e)| <= Cp(v, e.upper)
  {
    CpUnique(Anchor(e), v, |Anchor(e)|);
  }

  /** A value above the upper half that does not start with it leaves it at a byte that is
      not the largest one. */
  lemma OutOfReachDiffers(k: Key, v: Bytes, p: Bytes)
    requires !Leq(v, k.upper) && !Prefix(k.upper, v)
    requires Prefix(p, v) && |p| <= Cp(v, k.upper)
    ensures Prefix(p, k.upper) && !AllMax(k.upper[|p|..])
  {
    var d := Cp(v, k.upper);
    CompareAntisymmetric(v, k.upper);
    CpUnique(p, k.upper, |p|);
    assert k.upper[d] == k.upper[|p|..][d - |p|];
  }

  /** When the cut is not safe, some covered value is lost to the query for itself. */
  lemma LostValue(keys: seq<Key>, m: nat, i: nat) returns (v: Bytes)
    requires i < |keys| && m >= PrefixOf(keys)
    requires forall j :: 0 <= j < |keys| ==> Leq(keys[j].lower, keys[j].upper)
    requires |keys[i].upper| >= Cp(keys[i].lower, keys[i].upper) + 2
    requires Prefix(Anchor(keys[i]), TruncateKey(Join(keys), m).upper)
    requires !Prefix(TruncateKey(Join(keys), m).lower, Anchor(keys[i]))
    requires !AllMax(TruncateKey(Join(keys), m).upper[|Anchor(keys[i])|..])
    ensures Covers(keys[i], v)
    ensures !Consistent(TruncateKey(Join(keys), m), v, Equal, false)
    ensures !Admits(TruncateKey(Join(keys), m), v)
  {
    var e, k, p := keys[i], TruncateKey(Join(keys), m), Anchor(keys[i]);
    v := NextAbove(k.upper, p);
    AnchorAboveLower(e, v);
    JoinBounds(keys, i);
    LowerIsShort(Join(keys), e, m, v);
    assert Matches(v, v, Equal);
  }

  lemma NextAbove(u: Bytes, p: Bytes) returns (v: Bytes)
    requires Prefix(p, u) && !AllMax(u[|p|..])
    ensures Prefix(p, v) && !Leq(v, u) && !Prefix(u, v)
  {
    var d :| 0 <= d < |u[|p|..]| && u[|p|..][d] != 255;
    var n := |p| + d;
    assert u[n] == u[|p|..][d];
    v := u[..n] + [u[n] + 1];
    CpUnique(v, u, n);
    CompareAntisymmetric(v, u);
    CpUnique(p, v, |p|);
  }

  lemma AnchorAboveLower(e: Key, v: Bytes)
    requires Leq(e.lower, e.upper) && |e.upper| >= Cp(e.lower, e.upper) + 2
    requires Prefix(Anchor(e), v)
    ensures Covers(e, v)
  {
    var c := Cp(e.lower, e.upper);
    assert forall i :: 0 <= i < c + 2 ==> v[i] == Anchor(e)[i] == e.upper[i];
    CpUnique(e.lower, v, c);
    CpAtLeast(v, e.upper, c + 2);
  }

  lemma LowerIsShort(u: Key, e: Key, m: nat, v: Bytes)
    requires Wider(u, e) && Leq(e.lower, e.upper)
    requires |e.upper| >= Cp(e.lower, e.upper) + 2
    requires Prefix(Anchor(e), v)
    ensures Prefix(TruncateKey(u, m).lower, v) ==> Prefix(TruncateKey(u, m).lower, Anchor(e))
  {
    var l, p := TruncateKey(u, m).lower, Anchor(e);
    PrefixLeq(l, u.lower);
    LeqTransitive(l, u.lower, e.lower);
    CpUnique(e.lower, p, Cp(e.lower, e.upper));
    LeqTransitive(l, e.lower, p);
    CpUltrametric(l, v, p);
    CompareAntisymmetric(p, v);
  }

  /** A union's own cut is always safe, and so is any cut of a page of leaf entries. */
  lemma UnionAndLeafCutsAreSafe(keys: seq<Key>, m: nat)
    requires keys != [] && m >= PrefixOf(keys)
    requires forall i :: 0 <= i < |keys| ==> Leq(keys[i].lower, keys[i].upper)
    ensures m == PrefixOf(keys) ==> SafeCut(keys, m)
    ensures (forall i :: 0 <= i < |keys| ==> keys[i].lower == keys[i].upper) ==> SafeCut(keys, m)
  {
    forall i | 0 <= i < |keys|
      ensures keys[i].lower == keys[i].upper ==> Cp(keys[i].lower, keys[i].upper) == |keys[i].upper|
      ensures PrefixOf(keys) <= Cp(keys[i].lower, keys[i].upper)
    {
      CompareAntisymmetric(keys[i].lower, keys[i].upper);
      JoinBounds(keys, i);
      WiderPrefix(Join(keys), keys[i]);
    }
  }
}
