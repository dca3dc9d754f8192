/** Byte strings in the order of `byteacmp`: unsigned bytes first, then length. */
module ByteStrings {

  type byte = b: int | 0 <= b < 256
  type Bytes = seq<byte>

  /** Length of the longest common prefix. */
  function Cp(a: Bytes, b: Bytes): (c: nat)
    ensures c <= |a| && c <= |b|
    ensures a[..c] == b[..c]
    ensures forall i :: 0 <= i < c ==> a[i] == b[i]
    ensures c < |a| && c < |b| ==> a[c] != b[c]
  {
    if a == [] || b == [] || a[0] != b[0] then 0
    else
      var rest := Cp(a[1..], b[1..]);
      assert a == [a[0]] + a[1..] && b == [b[0]] + b[1..];
      assert forall i :: 0 < i < rest + 1 ==> a[i] == a[1..][i - 1] && b[i] == b[1..][i - 1];
      1 + rest
  }

  /** The sign of `byteacmp`: memcmp over the shorter length, ties broken by length. */
  function Compare(a: Bytes, b: Bytes): (r: int)
  {
    var c := Cp(a, b);
    if c == |a| && c == |b| then 0
    else if c == |a| then -1
    else if c == |b| then 1
    else if a[c] < b[c] then -1 else 1
  }

  predicate Leq(a: Bytes, b: Bytes) { Compare(a, b) <= 0 }

  predicate Less(a: Bytes, b: Bytes) { Compare(a, b) < 0 }

  lemma CompareAntisymmetric(a: Bytes, b: Bytes)
    ensures Cp(a, b) == Cp(b, a)
    ensures Compare(a, b) <= 0 <==> Compare(b, a) >= 0
    ensures Compare(a, b) == 0 <==> a == b
  {
    CpUnique(a, b, Cp(b, a));
    if Compare(a, b) == 0 { assert a == a[..Cp(a, b)] == b[..Cp(a, b)] == b; }
    if a == b { CpUnique(a, b, |a|); }
  }

  /** The defining property pins the common prefix length down. */
  lemma CpUnique(a: Bytes, b: Bytes, c: nat)
    requires c <= |a| && c <= |b|
    requires forall i :: 0 <= i < c ==> a[i] == b[i]
    requires c < |a| && c < |b| ==> a[c] != b[c]
    ensures Cp(a, b) == c
  {
    assert Cp(a, b) <= c;
  }

  lemma CpAtLeast(a: Bytes, b: Bytes, n: nat)
    requires n <= |a| && n <= |b|
    requires a[..n] == b[..n]
    ensures Cp(a, b) >= n
  {
    assert forall i :: 0 <= i < n ==> a[i] == a[..n][i] == b[..n][i] == b[i];
  }

  /** Common prefix length is an ultrametric. */
  lemma CpUltrametric(a: Bytes, b: Bytes, c: Bytes)
    ensures Cp(a, c) >= if Cp(a, b) <= Cp(b, c) then Cp(a, b) else Cp(b, c)
  {
    var m := if Cp(a, b) <= Cp(b, c) then Cp(a, b) else Cp(b, c);
    assert forall i :: 0 <= i < m ==> a[i] == b[i] == c[i];
    CpAtLeast(a, c, m);
  }

  lemma LeqTransitive(a: Bytes, b: Bytes, c: Bytes)
    requires Leq(a, b) && Leq(b, c)
    ensures Leq(a, c)
    ensures Less(a, b) || Less(b, c) ==> Less(a, c)
  {
    CpUltrametric(a, b, c);
    var m, n, k := Cp(a, b), Cp(b, c), Cp(a, c);
    if m < n {
      CpUnique(a, c, m);
    } else if n < m {
      CpUnique(a, c, n);
    } else if m < |a| && m < |c| {
      CpUnique(a, c, m);
    }
  }

  /** A string lying between two others shares with each at least what they share. */
  lemma Between(a: Bytes, b: Bytes, c: Bytes)
    requires Leq(a, b) && Leq(b, c)
    ensures Cp(a, b) >= Cp(a, c) && Cp(b, c) >= Cp(a, c)
  {
    var m, n, k := Cp(a, b), Cp(b, c), Cp(a, c);
    assert m >= k || n < m;
    CpUltrametric(b, a, c);
    CompareAntisymmetric(a, b);
  }

  predicate Prefix(p: Bytes, s: Bytes)
    ensures Prefix(p, s) <==> Cp(p, s) == |p|
  {
    assert |p| <= |s| && p == s[..|p|] ==> Cp(p, s) == |p| by {
      if |p| <= |s| && p == s[..|p|] { CpUnique(p, s, |p|); }
    }
    |p| <= |s| && p == s[..|p|]
  }

  function Cut(s: Bytes, n: nat): (r: Bytes)
    ensures |r| <= n && Prefix(r, s)
  {
    if |s| <= n then s else s[..n]
  }

  /** Cutting two strings at one length cuts their common prefix at that length. */
  lemma CpCut(a: Bytes, b: Bytes, n: nat)
    ensures Cp(Cut(a, n), Cut(b, n)) == if Cp(a, b) <= n then Cp(a, b) else n
  {
    CpUnique(Cut(a, n), Cut(b, n), if Cp(a, b) <= n then Cp(a, b) else n);
  }

  lemma PrefixLeq(p: Bytes, s: Bytes)
    requires Prefix(p, s)
    ensures Leq(p, s)
  {
  }
}
