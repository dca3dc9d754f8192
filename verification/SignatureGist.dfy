/**
 * Signature keys of the GiST classes of hstore and of intarray's intbig: byte arrays that are or-ed together, and a
 * flag for the key with all bits set, which has no bytes.
 */
module SignatureGist {
  import opened GistSplit

  datatype Sign = Sign(allTrue: bool, bytes: seq<bv8>)

  predicate Sized(s: Sign, siglen: nat) { !s.allTrue ==> |s.bytes| == siglen }

  function OrByte(x: bv8, y: bv8): bv8 { x | y }

  predicate ByteIn(x: bv8, y: bv8) { OrByte(x, y) == y }

  /** Every bit of e is set in k. */
  ghost predicate Covers(k: Sign, e: Sign) {
    k.allTrue ||
    if e.allTrue then forall i :: 0 <= i < |k.bytes| ==> k.bytes[i] == 0xff
    else |e.bytes| == |k.bytes| && forall i :: 0 <= i < |k.bytes| ==> ByteIn(e.bytes[i], k.bytes[i])
  }

  // ----- covering, bit by bit -----

  predicate BitOf(x: bv8, s: nat)
    requires s < 8
  {
    (x >> s) & 1 == 1
  }

  /** GETBIT, with all bits of an all-true key set. */
  predicate HasBit(k: Sign, i: nat) {
    k.allTrue || (i < 8 * |k.bytes| && BitOf(k.bytes[i / 8], i % 8))
  }

  lemma {:induction false} ByteInIff(x: bv8, y: bv8)
    ensures ByteIn(x, y) <==> forall s: nat :: s < 8 ==> BitOf(x, s) ==> BitOf(y, s)
    ensures y == 0xff <==> forall s: nat :: s < 8 ==> BitOf(y, s)
  {
    if forall s: nat :: s < 8 ==> BitOf(x, s) ==> BitOf(y, s) {
      assert BitOf(x, 0) ==> BitOf(y, 0);
      assert BitOf(x, 1) ==> BitOf(y, 1);
      assert BitOf(x, 2) ==> BitOf(y, 2);
      assert BitOf(x, 3) ==> BitOf(y, 3);
      assert BitOf(x, 4) ==> BitOf(y, 4);
      assert BitOf(x, 5) ==> BitOf(y, 5);
      assert BitOf(x, 6) ==> BitOf(y, 6);
      assert BitOf(x, 7) ==> BitOf(y, 7);
    }
    if forall s: nat :: s < 8 ==> BitOf(y, s) {
      assert BitOf(y, 0) && BitOf(y, 1) && BitOf(y, 2) && BitOf(y, 3);
      assert BitOf(y, 4) && BitOf(y, 5) && BitOf(y, 6) && BitOf(y, 7);
    }
  }

  lemma {:induction false} CoversIffBits(k: Sign, e: Sign, siglen: nat)
    requires Sized(k, siglen) && Sized(e, siglen)
    ensures Covers(k, e) <==> forall i: nat :: i < 8 * siglen ==> HasBit(e, i) ==> HasBit(k, i)
  {
    hide BitOf, ByteIn;
    if Covers(k, e) && !k.allTrue {
      forall i: nat | i < 8 * siglen && HasBit(e, i) ensures HasBit(k, i) {
        ByteInIff(if e.allTrue then 0 else e.bytes[i / 8], k.bytes[i / 8]);
      }
    }
    if (forall i: nat :: i < 8 * siglen ==> HasBit(e, i) ==> HasBit(k, i)) && !k.allTrue {
      forall b | 0 <= b < siglen
        ensures if e.allTrue then k.bytes[b] == 0xff else ByteIn(e.bytes[b], k.bytes[b])
      {
        forall s: nat | s < 8 && (e.allTrue || BitOf(e.bytes[b], s)) ensures BitOf(k.bytes[b], s) {
          var i := 8 * b + s;
          assert i / 8 == b && i % 8 == s && i < 8 * siglen;
          assert HasBit(e, i) && HasBit(k, i);
        }
        ByteInIff(if e.allTrue then 0 else e.bytes[b], k.bytes[b]);
      }
    }
  }

  // ----- keys under construction -----

  function OrBytes(a: seq<bv8>, b: seq<bv8>): (r: seq<bv8>)
    requires |a| == |b|
    ensures |r| == |a| && forall i :: 0 <= i < |a| ==> r[i] == OrByte(a[i], b[i])
  {
    if a == [] then [] else [OrByte(a[0], b[0])] + OrBytes(a[1..], b[1..])
  }

  function Full(n: nat): (r: seq<bv8>)
    ensures |r| == n && forall i :: 0 <= i < n ==> r[i] == 0xff
  {
    if n == 0 then [] else Full(n - 1) + [0xff]
  }

  /** The key that holds e as well: an all-true entry fills the bytes of a key and leaves its flag clear. */
  function Absorbed(k: Sign, e: Sign): Sign
    requires !k.allTrue && !e.allTrue ==> |k.bytes| == |e.bytes|
  {
    if k.allTrue then k
    else if e.allTrue then Sign(false, Full(|k.bytes|))
    else Sign(false, OrBytes(k.bytes, e.bytes))
  }

  lemma {:induction false} AllOnes(s: nat)
    requires s < 8
    ensures BitOf(0xff, s)
  {
    ByteInIff(0xff, 0xff);
  }

  lemma {:induction false} BitOfOr(x: bv8, y: bv8, s: nat)
    requires s < 8
    ensures BitOf(OrByte(x, y), s) <==> BitOf(x, s) || BitOf(y, s)
  {
    if s < 4 {
      assert s == 0 || s == 1 || s == 2 || s == 3;
    } else {
      assert s == 4 || s == 5 || s == 6 || s == 7;
    }
  }

  /** The key afterwards has exactly the bits of both. */
  lemma {:induction false} AbsorbedBits(k: Sign, e: Sign, siglen: nat)
    requires Sized(k, siglen) && Sized(e, siglen)
    ensures Sized(Absorbed(k, e), siglen)
    ensures forall i: nat :: i < 8 * siglen ==> (HasBit(Absorbed(k, e), i) <==> HasBit(k, i) || HasBit(e, i))
  {
    hide BitOf, OrByte;
    forall i: nat | i < 8 * siglen ensures HasBit(Absorbed(k, e), i) <==> HasBit(k, i) || HasBit(e, i) {
      var x, y := if k.allTrue then 0xff else k.bytes[i / 8], if e.allTrue then 0xff else e.bytes[i / 8];
      BitOfOr(x, y, i % 8);
      AllOnes(i % 8);
    }
  }

  lemma {:induction false} AbsorbedCovers(k: Sign, e: Sign, c: Sign, siglen: nat)
    requires Sized(k, siglen) && Sized(e, siglen) && Sized(c, siglen)
    ensures Sized(Absorbed(k, e), siglen) && Covers(Absorbed(k, e), e)
    ensures Covers(k, c) ==> Covers(Absorbed(k, e), c)
  {
    hide HasBit, Covers, Absorbed;
    AbsorbedBits(k, e, siglen);
    CoversIffBits(k, c, siglen);
    CoversIffBits(Absorbed(k, e), c, siglen);
    CoversIffBits(Absorbed(k, e), e, siglen);
  }

  // ----- the bits of several entries -----

  /** Some entry at the offsets ms has the bit. */
  ghost predicate Any(es: seq<Sign>, ms: seq<nat>, i: nat) {
    exists k :: 0 <= k < |ms| && ms[k] < |es| && HasBit(es[ms[k]], i)
  }

  /** The key has exactly the bits of the entries at the offsets ms. */
  ghost predicate Exact(key: Sign, es: seq<Sign>, ms: seq<nat>, siglen: nat) {
    Sized(key, siglen) && forall i: nat :: i < 8 * siglen ==> (HasBit(key, i) <==> Any(es, ms, i))
  }

  lemma {:induction false} AnyMore(es: seq<Sign>, ms: seq<nat>, x: nat, i: nat)
    requires x < |es|
    ensures Any(es, ms + [x], i) <==> Any(es, ms, i) || HasBit(es[x], i)
  {
    hide HasBit;
    var more := ms + [x];
    if Any(es, ms, i) {
      var k :| 0 <= k < |ms| && ms[k] < |es| && HasBit(es[ms[k]], i);
      assert more[k] == ms[k];
    }
    assert more[|ms|] == x;
  }

  lemma {:induction false} ExactMore(key: Sign, es: seq<Sign>, ms: seq<nat>, x: nat, siglen: nat)
    requires Exact(key, es, ms, siglen) && x < |es| && Sized(es[x], siglen)
    ensures Exact(Absorbed(key, es[x]), es, ms + [x], siglen)
    ensures x in ms ==> Exact(key, es, ms + [x], siglen)
  {
    hide HasBit, Any, Absorbed;
    AbsorbedBits(key, es[x], siglen);
    forall i: nat | i < 8 * siglen
      ensures HasBit(Absorbed(key, es[x]), i) <==> Any(es, ms + [x], i)
      ensures x in ms ==> (HasBit(key, i) <==> Any(es, ms + [x], i))
    {
      AnyMore(es, ms, x, i);
      if x in ms && HasBit(es[x], i) { AnyOf(es, ms, x, i); }
    }
  }

  lemma {:induction false} AnyOf(es: seq<Sign>, ms: seq<nat>, x: nat, i: nat)
    requires x in ms && x < |es| && HasBit(es[x], i)
    ensures Any(es, ms, i)
  {
    var k :| 0 <= k < |ms| && ms[k] == x;
  }

  lemma {:induction false} ExactCovers(key: Sign, es: seq<Sign>, ms: seq<nat>, x: nat, siglen: nat)
    requires Exact(key, es, ms, siglen) && x in ms && x < |es| && Sized(es[x], siglen)
    ensures Covers(key, es[x])
  {
    hide HasBit, Any;
    forall i: nat | i < 8 * siglen && HasBit(es[x], i) ensures HasBit(key, i) { AnyOf(es, ms, x, i); }
    CoversIffBits(key, es[x], siglen);
  }

  class SignKey {
    const allTrue: bool
    const bytes: array<bv8>

    /** ghstore_alloc and _intbig_alloc from an entry. */
    constructor (e: Sign)
      ensures View() == (if e.allTrue then Sign(true, []) else e) && fresh(bytes)
    {
      allTrue := e.allTrue;
      var src := if e.allTrue then [] else e.bytes;
      bytes := new bv8[|src|](i => if 0 <= i < |src| then src[i] else 0);
      new;
      assert bytes[..] == src;
    }

    function View(): Sign
      reads this, bytes
    {
      Sign(allTrue, bytes[..])
    }

    /** Takes an entry in: nothing to do for an all-true key, MemSet for an all-true entry, or-ing otherwise. */
    method Absorb(e: Sign)
      requires !allTrue && !e.allTrue ==> bytes.Length == |e.bytes|
      modifies bytes
      ensures View() == Absorbed(old(View()), e)
    {
      hide OrByte;
      if allTrue || e.allTrue {
        if !allTrue {
          for i := 0 to bytes.Length
            invariant forall j :: 0 <= j < i ==> bytes[j] == 0xff
          {
            bytes[i] := 0xff;
          }
        }
      } else {
        for i := 0 to bytes.Length
          invariant forall j :: 0 <= j < i ==> bytes[j] == OrByte(old(bytes[j]), e.bytes[j])
          invariant forall j :: i <= j < bytes.Length ==> bytes[j] == old(bytes[j])
        {
          bytes[i] := OrByte(bytes[i], e.bytes[i]);
        }
      }
    }
  }

  function Zero(n: nat): (r: seq<bv8>)
    ensures |r| == n && forall i :: 0 <= i < n ==> r[i] == 0
  {
    if n == 0 then [] else Zero(n - 1) + [0]
  }

  lemma {:induction false} ZeroHasNone(es: seq<Sign>, siglen: nat)
    ensures Exact(Sign(false, Zero(siglen)), es, [], siglen)
  {
  }

  lemma {:induction false} AllTrueIsExact(es: seq<Sign>, ms: seq<nat>, x: nat, siglen: nat)
    requires x in ms && x < |es| && es[x].allTrue
    ensures Exact(Sign(true, []), es, ms, siglen)
  {
    forall i: nat | i < 8 * siglen ensures Any(es, ms, i) { AnyOf(es, ms, x, i); }
  }

  /** ghstore_union and g_intbig_union: or-ing until an all-true entry comes. */
  method UnionOf(es: seq<Sign>, siglen: nat) returns (u: Sign)
    requires forall i :: 0 <= i < |es| ==> Sized(es[i], siglen)
    ensures Exact(u, es, Offsets(|es|), siglen) && forall i :: 0 <= i < |es| ==> Covers(u, es[i])
    ensures u.allTrue <==> exists i :: 0 <= i < |es| && es[i].allTrue
  {
    hide Covers, OrByte, HasBit, Exact;
    var key := new SignKey(Sign(false, Zero(siglen)));
    ZeroHasNone(es, siglen);
    ghost var ms := Offsets(|es|);
    for i := 0 to |es|
      invariant fresh(key) && fresh(key.bytes) && !key.allTrue && Exact(key.View(), es, ms[..i], siglen)
      invariant Sized(key.View(), siglen)
      invariant forall j :: 0 <= j < i ==> !es[j].allTrue
    {
      if es[i].allTrue {
        assert ms[i] == i;
        AllTrueIsExact(es, ms, i, siglen);
        AllCovered(Sign(true, []), es, siglen);
        return Sign(true, []);
      }
      ExactMore(key.View(), es, ms[..i], i, siglen);
      AbsorbedBits(key.View(), es[i], siglen);
      assert ms[..i + 1] == ms[..i] + [i];
      key.Absorb(es[i]);
    }
    u := key.View();
    assert ms[..|es|] == ms;
    AllCovered(u, es, siglen);
  }

  lemma {:induction false} AllCovered(u: Sign, es: seq<Sign>, siglen: nat)
    requires Exact(u, es, Offsets(|es|), siglen) && forall i :: 0 <= i < |es| ==> Sized(es[i], siglen)
    ensures forall i :: 0 <= i < |es| ==> Covers(u, es[i])
  {
    hide Covers, Exact;
    forall i | 0 <= i < |es| ensures Covers(u, es[i]) {
      assert Offsets(|es|)[i] == i;
      ExactCovers(u, es, Offsets(|es|), i, siglen);
    }
  }

  // ----- distances -----

  function Ones(x: bv8): (n: nat)
    ensures n <= 8
  {
    (if x & 1 == 0 then 0 else 1) + (if x & 2 == 0 then 0 else 1) +
    (if x & 4 == 0 then 0 else 1) + (if x & 8 == 0 then 0 else 1) +
    (if x & 16 == 0 then 0 else 1) + (if x & 32 == 0 then 0 else 1) +
    (if x & 64 == 0 then 0 else 1) + (if x & 128 == 0 then 0 else 1)
  }

  /** sizebitvec. */
  function BitCount(a: seq<bv8>): (n: nat)
    ensures n <= 8 * |a|
  {
    if a == [] then 0 else Ones(a[0]) + BitCount(a[1..])
  }

  /** hemdistsign. */
  function BitsApart(a: seq<bv8>, b: seq<bv8>): nat {
    if a == [] || b == [] then 0 else Ones(a[0] ^ b[0]) + BitsApart(a[1..], b[1..])
  }

  /** hemdist. */
  function HemDist(a: Sign, b: Sign): nat {
    if a.allTrue && b.allTrue then 0
    else if a.allTrue then 8 * |b.bytes| - BitCount(b.bytes)
    else if b.allTrue then 8 * |a.bytes| - BitCount(a.bytes)
    else BitsApart(a.bytes, b.bytes)
  }

  /** How many of the numbers below n satisfy p. */
  function Count(p: nat -> bool, n: nat): (c: nat)
    ensures c <= n
  {
    if n == 0 then 0 else Count(p, n - 1) + if p(n - 1) then 1 else 0
  }

  lemma {:induction false} CountSame(p: nat -> bool, q: nat -> bool, n: nat)
    requires forall i: nat :: i < n ==> p(i) == q(i)
    ensures Count(p, n) == Count(q, n)
  {
    if n > 0 { CountSame(p, q, n - 1); }
  }

  function Unlike(a: Sign, b: Sign): nat -> bool { (i: nat) => HasBit(a, i) != HasBit(b, i) }

  function One(b: bool): nat { if b then 1 else 0 }

  /** The bits of a byte, one by one. */
  lemma {:induction false} OnesAre(x: bv8)
    ensures Ones(x) == One(BitOf(x, 0)) + One(BitOf(x, 1)) + One(BitOf(x, 2)) + One(BitOf(x, 3)) +
                       One(BitOf(x, 4)) + One(BitOf(x, 5)) + One(BitOf(x, 6)) + One(BitOf(x, 7))
  {
    assert (x & 1 == 0) != BitOf(x, 0);
    assert (x & 2 == 0) != BitOf(x, 1);
    assert (x & 4 == 0) != BitOf(x, 2);
    assert (x & 8 == 0) != BitOf(x, 3);
    assert (x & 16 == 0) != BitOf(x, 4);
    assert (x & 32 == 0) != BitOf(x, 5);
    assert (x & 64 == 0) != BitOf(x, 6);
    assert (x & 128 == 0) != BitOf(x, 7);
  }

  lemma {:induction false} BitOfXor(x: bv8, y: bv8, s: nat)
    requires s < 8
    ensures BitOf(x ^ y, s) <==> BitOf(x, s) != BitOf(y, s)
    ensures BitOf(!x, s) <==> !BitOf(x, s)
  {
    assert s == 0 || s == 1 || s == 2 || s == 3 || s == 4 || s == 5 || s == 6 || s == 7;
  }

  lemma {:induction false} CountByte(p: nat -> bool, k: nat, x: bv8)
    requires forall s: nat :: s < 8 ==> p(8 * k + s) == BitOf(x, s)
    ensures Count(p, 8 * k + 8) == Count(p, 8 * k) + Ones(x)
  {
    hide BitOf, Ones;
    OnesAre(x);
    assert p(8 * k + 0) == BitOf(x, 0) && p(8 * k + 1) == BitOf(x, 1) && p(8 * k + 2) == BitOf(x, 2);
    assert p(8 * k + 3) == BitOf(x, 3) && p(8 * k + 4) == BitOf(x, 4) && p(8 * k + 5) == BitOf(x, 5);
    assert p(8 * k + 6) == BitOf(x, 6) && p(8 * k + 7) == BitOf(x, 7);
    assert Count(p, 8 * k + 2) == Count(p, 8 * k) + One(p(8 * k)) + One(p(8 * k + 1));
    assert Count(p, 8 * k + 4) == Count(p, 8 * k + 2) + One(p(8 * k + 2)) + One(p(8 * k + 3));
    assert Count(p, 8 * k + 6) == Count(p, 8 * k + 4) + One(p(8 * k + 4)) + One(p(8 * k + 5));
    assert Count(p, 8 * k + 8) == Count(p, 8 * k + 6) + One(p(8 * k + 6)) + One(p(8 * k + 7));
  }

  lemma {:induction false} ApartLast(a: seq<bv8>, b: seq<bv8>, x: bv8, y: bv8)
    requires |a| == |b|
    ensures BitsApart(a + [x], b + [y]) == BitsApart(a, b) + Ones(x ^ y)
    ensures BitCount(a + [x]) == BitCount(a) + Ones(x)
  {
    hide Ones;
    if a != [] {
      ApartLast(a[1..], b[1..], x, y);
      assert (a + [x])[1..] == a[1..] + [x] && (b + [y])[1..] == b[1..] + [y];
    } else {
      assert (a + [x])[1..] == [] && (b + [y])[1..] == [];
    }
  }

  lemma {:induction false} OnesOfNot(x: bv8)
    ensures Ones(!x) + Ones(x) == 8
  {
    hide BitOf, Ones;
    OnesAre(x);
    OnesAre(!x);
    forall s: nat | s < 8 ensures BitOf(!x, s) <==> !BitOf(x, s) { BitOfXor(x, x, s); }
    assert BitOf(!x, 0) == !BitOf(x, 0) && BitOf(!x, 1) == !BitOf(x, 1) && BitOf(!x, 2) == !BitOf(x, 2);
    assert BitOf(!x, 3) == !BitOf(x, 3) && BitOf(!x, 4) == !BitOf(x, 4) && BitOf(!x, 5) == !BitOf(x, 5);
    assert BitOf(!x, 6) == !BitOf(x, 6) && BitOf(!x, 7) == !BitOf(x, 7);
  }

  lemma {:induction false} BitAt(a: Sign, k: nat, s: nat)
    requires !a.allTrue && k < |a.bytes| && s < 8
    ensures HasBit(a, 8 * k + s) <==> BitOf(a.bytes[k], s)
  {
    hide BitOf;
    var i := 8 * k + s;
    assert i / 8 == k && i % 8 == s;
  }

  /** The k-th byte in which two keys differ, bit by bit; an all-true key has 0xff there. */
  lemma {:induction false} ByteApart(a: Sign, b: Sign, k: nat, z: bv8)
    requires (a.allTrue || k < |a.bytes|) && (b.allTrue || k < |b.bytes|)
    requires z == (if a.allTrue then 0xff else a.bytes[k]) ^ (if b.allTrue then 0xff else b.bytes[k])
    ensures Count(Unlike(a, b), 8 * k + 8) == Count(Unlike(a, b), 8 * k) + Ones(z)
  {
    hide Ones, BitOf, HasBit, Count;
    forall s: nat | s < 8 ensures Unlike(a, b)(8 * k + s) == BitOf(z, s) {
      BitOfXor(if a.allTrue then 0xff else a.bytes[k], if b.allTrue then 0xff else b.bytes[k], s);
      AllOnes(s);
      HasBitAt(a, k, s);
      HasBitAt(b, k, s);
    }
    CountByte(Unlike(a, b), k, z);
  }

  lemma {:induction false} HasBitAt(a: Sign, k: nat, s: nat)
    requires (a.allTrue || k < |a.bytes|) && s < 8
    ensures HasBit(a, 8 * k + s) <==> BitOf(if a.allTrue then 0xff else a.bytes[k], s)
  {
    hide BitOf;
    AllOnes(s);
    if !a.allTrue { BitAt(a, k, s); }
  }

  lemma {:induction false} XorOnes(x: bv8)
    ensures Ones(x ^ 0xff) + Ones(x) == 8 && x ^ 0xff == 0xff ^ x
  {
    assert x ^ 0xff == !x && 0xff ^ x == !x;
    OnesOfNot(x);
  }

  /** Two keys with bytes differ in as many of the first 8 * k bits as their first k bytes are apart. */
  lemma {:induction false} ApartIsCount(a: Sign, b: Sign, k: nat)
    requires !a.allTrue && !b.allTrue && k <= |a.bytes| == |b.bytes|
    ensures BitsApart(a.bytes[..k], b.bytes[..k]) == Count(Unlike(a, b), 8 * k)
  {
    hide Ones, Unlike;
    if k > 0 {
      var x, y := a.bytes[k - 1], b.bytes[k - 1];
      ApartIsCount(a, b, k - 1);
      ApartLast(a.bytes[..k - 1], b.bytes[..k - 1], x, y);
      assert a.bytes[..k] == a.bytes[..k - 1] + [x] && b.bytes[..k] == b.bytes[..k - 1] + [y];
      ByteApart(a, b, k - 1, x ^ y);
    }
  }

  /** From an all-true key a key differs in the bits that it does not have. */
  lemma {:induction false} MissingIsCount(a: Sign, b: Sign, k: nat)
    requires !a.allTrue && b.allTrue && k <= |a.bytes|
    ensures 8 * k - BitCount(a.bytes[..k]) == Count(Unlike(a, b), 8 * k) == Count(Unlike(b, a), 8 * k)
  {
    hide Ones, BitCount, Unlike;
    if k > 0 {
      var x := a.bytes[k - 1];
      MissingIsCount(a, b, k - 1);
      ApartLast(a.bytes[..k - 1], a.bytes[..k - 1], x, x);
      assert a.bytes[..k] == a.bytes[..k - 1] + [x];
      XorOnes(x);
      ByteApart(a, b, k - 1, x ^ 0xff);
      ByteApart(b, a, k - 1, x ^ 0xff);
    } else {
      NoBits();
    }
  }

  lemma {:induction false} NoBits()
    ensures BitCount([]) == 0
  {
  }

  lemma {:induction false} AllTrueAlike(a: Sign, b: Sign, n: nat)
    requires a.allTrue && b.allTrue
    ensures Count(Unlike(a, b), n) == 0
  {
    if n > 0 { AllTrueAlike(a, b, n - 1); }
  }

  /** The distance of two keys is the number of bits in which they differ. */
  lemma {:induction false} HemDistIsCount(a: Sign, b: Sign, siglen: nat)
    requires Sized(a, siglen) && Sized(b, siglen)
    ensures HemDist(a, b) == Count(Unlike(a, b), 8 * siglen)
  {
    hide BitsApart, BitCount, Count, Unlike;
    assert !a.allTrue ==> a.bytes[..siglen] == a.bytes;
    assert !b.allTrue ==> b.bytes[..siglen] == b.bytes;
    if a.allTrue && b.allTrue {
      AllTrueAlike(a, b, 8 * siglen);
    } else if a.allTrue {
      MissingIsCount(b, a, siglen);
    } else if b.allTrue {
      MissingIsCount(a, b, siglen);
    } else {
      ApartIsCount(a, b, siglen);
    }
  }

  /** The distance of two entries, as the seed search asks for it. */
  function Distances(es: seq<Sign>): (nat, nat) -> real {
    (i: nat, j: nat) => if i < |es| && j < |es| then HemDist(es[i], es[j]) as real else 0.0
  }

  // ----- picksplit -----

  ghost predicate Holds(key: Sign, es: seq<Sign>, side: seq<nat>) {
    forall k :: 0 <= k < |side| ==> side[k] < |es| && Covers(key, es[side[k]])
  }

  lemma {:induction false} ExactHolds(key: Sign, es: seq<Sign>, seed: nat, side: seq<nat>, siglen: nat)
    requires Exact(key, es, [seed] + side, siglen) && forall i :: 0 <= i < |es| ==> Sized(es[i], siglen)
    requires forall k :: 0 <= k < |side| ==> side[k] < |es|
    ensures Holds(key, es, side)
  {
    hide Covers, Exact;
    forall k | 0 <= k < |side| ensures Covers(key, es[side[k]]) {
      assert ([seed] + side)[k + 1] == side[k];
      ExactCovers(key, es, [seed] + side, side[k], siglen);
    }
  }

  ghost function UnlikeAny(es: seq<Sign>, ms: seq<nat>, x: nat): nat -> bool {
    (i: nat) => x < |es| && Any(es, ms, i) != HasBit(es[x], i)
  }

  /** The entry differs in fewer bits from the left seed and side together than from the right ones, but for a bonus
      for the smaller side. */
  ghost function Nearer(es: seq<Sign>, siglen: nat, c: real, seed1: nat, seed2: nat): Choice {
    (l: seq<nat>, r: seq<nat>, x: nat) =>
      Count(UnlikeAny(es, [seed1] + l, x), 8 * siglen) as real <
      Count(UnlikeAny(es, [seed2] + r, x), 8 * siglen) as real + Wish(|l|, |r|, c)
  }

  /** The distance that the code measures. */
  lemma {:induction false} DistanceIs(key: Sign, es: seq<Sign>, ms: seq<nat>, x: nat, siglen: nat)
    requires Exact(key, es, ms, siglen) && x < |es| && Sized(es[x], siglen)
    ensures HemDist(key, es[x]) == Count(UnlikeAny(es, ms, x), 8 * siglen)
  {
    hide HemDist, HasBit, Any;
    HemDistIsCount(key, es[x], siglen);
    CountSame(Unlike(key, es[x]), UnlikeAny(es, ms, x), 8 * siglen);
  }

  lemma {:induction false} SeedIsExact(es: seq<Sign>, seed: nat, siglen: nat)
    requires seed < |es| && Sized(es[seed], siglen)
    ensures Exact(if es[seed].allTrue then Sign(true, []) else es[seed], es, [seed], siglen)
  {
    hide BitOf;
    forall i: nat | i < 8 * siglen && HasBit(es[seed], i) ensures Any(es, [seed], i) { AnyOf(es, [seed], seed, i); }
  }

  /** ghstore_picksplit and g_intbig_picksplit, which differ in the factor c.  The entries are placed in any order,
      whatever the costs are that they were sorted by. */
  method PickSplit(es: seq<Sign>, siglen: nat, order: seq<nat>, c: real)
    returns (left: seq<nat>, right: seq<nat>, keyL: Sign, keyR: Sign, ghost seed1: nat, ghost seed2: nat,
             ghost sentLeft: set<nat>)
    requires |es| >= 2 && Arrangement(order, |es|)
    requires forall i :: 0 <= i < |es| ==> Sized(es[i], siglen)
    ensures Seeds(|es|, Distances(es), seed1, seed2)
    ensures left == SideOf(order, seed1, seed2, sentLeft, true)
    ensures right == SideOf(order, seed1, seed2, sentLeft, false)
    ensures Greedy(order, seed1, seed2, sentLeft, Nearer(es, siglen, c, seed1, seed2))
    ensures Splits(left, right, |es|) && Holds(keyL, es, left) && Holds(keyR, es, right)
    ensures Exact(keyL, es, [seed1] + left, siglen) && Exact(keyR, es, [seed2] + right, siglen)
  {
    hide Exact, Absorbed, HemDist, SideOf, Seeds, BestBefore, Splits, Wish, Greedy, Count, Holds;
    var s1, s2 := FindFarthest(|es|, Distances(es));
    SeedsInRange(|es|, Distances(es), s1, s2);
    seed1, seed2, sentLeft := s1, s2, {};
    ghost var nearer := Nearer(es, siglen, c, s1, s2);
    var datumL := new SignKey(es[s1]);
    var datumR := new SignKey(es[s2]);
    SeedIsExact(es, s1, siglen);
    SeedIsExact(es, s2, siglen);
    left, right := [], [];
    assert [s1] + left == [s1] && [s2] + right == [s2];
    NothingPlaced(order, s1, s2);
    NothingSent(order, s1, s2, nearer);
    for k := 0 to |order|
      invariant fresh(datumL) && fresh(datumL.bytes) && fresh(datumR) && fresh(datumR.bytes)
      invariant datumL.bytes != datumR.bytes
      invariant Sized(datumL.View(), siglen) && Sized(datumR.View(), siglen)
      invariant forall x :: x in sentLeft ==> x in order[..k]
      invariant left == SideOf(order[..k], s1, s2, sentLeft, true)
      invariant right == SideOf(order[..k], s1, s2, sentLeft, false)
      invariant Greedy(order[..k], s1, s2, sentLeft, nearer)
      invariant Exact(datumL.View(), es, [s1] + left, siglen) && Exact(datumR.View(), es, [s2] + right, siglen)
    {
      var j := order[k];
      assert j !in order[..k];
      ExactMore(datumL.View(), es, [s1] + left, j, siglen);
      ExactMore(datumR.View(), es, [s2] + right, j, siglen);
      assert [s1] + (left + [j]) == [s1] + left + [j] && [s2] + (right + [j]) == [s2] + right + [j];
      if j == s1 {
        PlaceNext(order, k, s1, s2, sentLeft, false);
        GreedyNext(order, k, s1, s2, sentLeft, false, nearer);
        left := left + [j];
      } else if j == s2 {
        PlaceNext(order, k, s1, s2, sentLeft, false);
        GreedyNext(order, k, s1, s2, sentLeft, false, nearer);
        right := right + [j];
      } else {
        var e := es[j];
        AbsorbedBits(datumL.View(), e, siglen);
        AbsorbedBits(datumR.View(), e, siglen);
        DistanceIs(datumL.View(), es, [s1] + left, j, siglen);
        DistanceIs(datumR.View(), es, [s2] + right, j, siglen);
        var alpha := HemDist(datumL.View(), e) as real;
        var beta := HemDist(datumR.View(), e) as real;
        if alpha < beta + Wish(|left|, |right|, c) {
          PlaceNext(order, k, s1, s2, sentLeft, true);
          GreedyNext(order, k, s1, s2, sentLeft, true, nearer);
          datumL.Absorb(e);
          left, sentLeft := left + [j], sentLeft + {j};
        } else {
          PlaceNext(order, k, s1, s2, sentLeft, false);
          GreedyNext(order, k, s1, s2, sentLeft, false, nearer);
          datumR.Absorb(e);
          right := right + [j];
        }
      }
    }
    assert order[..|order|] == order;
    PlacedOnce(order, |es|, s1, s2, sentLeft);
    keyL, keyR := datumL.View(), datumR.View();
    SidesInRange(left, right, |es|);
    ExactHolds(keyL, es, s1, left, siglen);
    ExactHolds(keyR, es, s2, right, siglen);
  }
}
