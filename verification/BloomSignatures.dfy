/**
 * Signatures of the bloom access method: the 31-bit generator, the bits it sets for a
 * column value, and the test that a scan makes.
 */
module BloomSignatures {
  import opened CLimits
  import opened Options

  const MODULUS: int := 0x7fff_ffff

  /** The range in which the generator's state is documented to stay. */
  predicate InRange(x: int) { 1 <= x <= 0x7fff_fffe }

  // ----- C arithmetic -----

  /** Division that truncates toward zero. */
  function Quotient(a: int, b: int): int
    requires b > 0
  {
    if a >= 0 then a / b else -((-a) / b)
  }

  function Remainder(a: int, b: int): int
    requires b > 0
  {
    a - b * Quotient(a, b)
  }

  function ToInt32(u: int): int
    requires 0 <= u < 0x1_0000_0000
  {
    if u < 0x8000_0000 then u else u - 0x1_0000_0000
  }

  // ----- the generator -----

  /** The state after one call of myRand. */
  function Step(x: int): int {
    var hi, lo := Quotient(x, 127773), Remainder(x, 127773);
    var y := 16807 * lo - 2836 * hi;
    if y < 0 then y + MODULUS else y
  }

  /** The state after mySrand. */
  function Seeded(seed: int): int
    requires 0 <= seed < 0x1_0000_0000
  {
    Remainder(ToInt32(seed), 0x7fff_fffe) + 1
  }

  /** The state after n calls. */
  function After(x: int, n: nat): int {
    if n == 0 then x else Step(After(x, n - 1))
  }

  class Generator {
    var next: int

    constructor (seed: int)
      requires 0 <= seed < 0x1_0000_0000
      ensures next == Seeded(seed)
    {
      next := Seeded(seed);
    }

    /** mySrand */
    method Srand(seed: int)
      requires 0 <= seed < 0x1_0000_0000
      modifies this
      ensures next == Seeded(seed) && -0x7fff_fffd <= next <= 0x7fff_fffe
      ensures seed < 0x8000_0000 ==> next == seed % 0x7fff_fffe + 1
      ensures next == 0 <==> StuckSeed(seed)
      ensures InRange(next) <==> seed < 0x8000_0000 || seed == 0x8000_0002
    {
      next := ToInt32(seed);
      next := Remainder(next, 0x7fff_fffe) + 1;
      SeededRange(seed);
    }

    /** myRand: every intermediate value fits in 32 bits. */
    method Rand() returns (r: int)
      requires -0x7fff_fffd <= next <= 0x7fff_fffe
      modifies this
      ensures next == Step(old(next)) && r == next - 1
      ensures InRange(old(next)) ==> next == 16807 * old(next) % MODULUS && InRange(next)
      ensures old(next) < 0 ==> InRange(next)
      ensures old(next) == 0 ==> next == 0
    {
      if next > 0 {
        StepIsLehmer(next);
      } else if next < 0 {
        NegativeRecovers(next);
      }
      var hi := Quotient(next, 127773);
      var lo := Remainder(next, 127773);
      NoOverflow(next);
      assert IsInt32(16807 * lo) && IsInt32(2836 * hi);
      var x := 16807 * lo - 2836 * hi;
      assert IsInt32(x);
      if x < 0 {
        x := x + MODULUS;
        assert IsInt32(x);
      }
      next := x;
      r := x - 1;
    }
  }

  lemma {:induction false} NoOverflow(x: int)
    requires -0x7fff_fffd <= x <= 0x7fff_fffe
    ensures -16807 <= Quotient(x, 127773) <= 16807 && -127773 < Remainder(x, 127773) < 127773
    ensures x == 127773 * Quotient(x, 127773) + Remainder(x, 127773)
    ensures x >= 0 ==> Quotient(x, 127773) >= 0 && Remainder(x, 127773) >= 0
    ensures x <= 0 ==> Quotient(x, 127773) <= 0 && Remainder(x, 127773) <= 0
  {
  }

  /** Schrage's method computes the Lehmer step 16807 * x mod 2^31 - 1. */
  lemma {:induction false} StepIsLehmer(x: int)
    requires InRange(x)
    ensures Step(x) == 16807 * x % MODULUS
    ensures InRange(Step(x))
  {
    hide Quotient, Remainder;
    NoOverflow(x);
    var hi, lo := Quotient(x, 127773), Remainder(x, 127773);
    assert 16807 * x == MODULUS * hi + (16807 * lo - 2836 * hi);
    var t := if 16807 * lo - 2836 * hi < 0 then hi - 1 else hi;
    assert 16807 * x == MODULUS * t + Step(x);
    NotMultiple(x, t);
    RemainderIs(16807 * x, t, Step(x));
  }

  lemma {:induction false} RemainderIs(a: int, t: int, r: int)
    requires a == MODULUS * t + r && 0 <= r < MODULUS
    ensures a % MODULUS == r
  {
  }

  /** 16807 has the inverse 1407677000, so no state in range steps to zero. */
  lemma {:induction false} NotMultiple(x: int, t: int)
    requires 0 < x < MODULUS
    ensures 16807 * x != MODULUS * t
  {
    var y := 1407677000 * t - 11017 * x;
    assert 1407677000 * (16807 * x - MODULUS * t) == x - MODULUS * y;
  }

  /** A negative state, which a seed of 2^31 or more can leave, recovers in one call. */
  lemma {:induction false} NegativeRecovers(x: int)
    requires -0x7fff_fffd <= x <= -1
    ensures InRange(Step(x))
  {
    NoOverflow(x);
    var hi, lo := Quotient(x, 127773), Remainder(x, 127773);
    assert 16807 * x == MODULUS * hi + (16807 * lo - 2836 * hi);
    NotMultiple(-x, -hi);
  }

  predicate Usable(x: int) { -0x7fff_fffd <= x <= 0x7fff_fffe && x != 0 }

  lemma {:induction false} StaysInRange(x: int, n: nat)
    requires Usable(x)
    ensures InRange(After(x, n + 1))
  {
    if n > 0 {
      StaysInRange(x, n - 1);
      StepIsLehmer(After(x, n));
    } else if x > 0 {
      StepIsLehmer(x);
    } else {
      NegativeRecovers(x);
    }
  }

  lemma {:induction false} ZeroIsStuck(n: nat)
    ensures After(0, n) == 0
  {
    if n > 0 { ZeroIsStuck(n - 1); }
  }

  /** The two seeds from which the generator never leaves zero. */
  predicate StuckSeed(seed: int) { seed == 0x8000_0001 || seed == 0xffff_ffff }

  lemma {:induction false} SeededRange(seed: int)
    requires 0 <= seed < 0x1_0000_0000
    ensures -0x7fff_fffd <= Seeded(seed) <= 0x7fff_fffe
    ensures Seeded(seed) == 0 <==> StuckSeed(seed)
    ensures InRange(Seeded(seed)) <==> seed < 0x8000_0000 || seed == 0x8000_0002
  {
    var s := ToInt32(seed);
    if s < 0 {
      assert (-s) / 0x7fff_fffe == if s <= -0x7fff_fffe then 1 else 0;
    } else {
      assert s / 0x7fff_fffe == if s >= 0x7fff_fffe then 1 else 0;
    }
  }

  /** Exactly when every number drawn after seeding is a usable bit number: for all 32-bit
      seeds but two.  The comment in mySrand claims it for all. */
  lemma {:induction false} DrawsInRangeIff(seed: int)
    requires 0 <= seed < 0x1_0000_0000
    ensures (forall n: nat :: n > 0 ==> InRange(After(Seeded(seed), n))) <==> !StuckSeed(seed)
  {
    SeededRange(seed);
    var x := Seeded(seed);
    if StuckSeed(seed) {
      ZeroIsStuck(1);
      assert !InRange(After(x, 1));
    } else {
      forall n: nat | n > 0 ensures InRange(After(x, n)) {
        StaysInRange(x, n - 1);
      }
    }
  }

  // ----- bits -----

  type Signature = seq<bv16>

  function Mask(k: nat): bv16
    requires k < 16
  {
    (1 as bv16) << k
  }

  /** SETBIT */
  function SetBit(sign: Signature, bit: nat): (r: Signature)
    requires bit < 16 * |sign|
    ensures |r| == |sign|
  {
    sign[bit / 16 := OrWord(sign[bit / 16], Mask(bit % 16))]
  }

  function OrWord(x: bv16, y: bv16): bv16 { x | y }

  /** Every bit of y is in x. */
  predicate Contains(x: bv16, y: bv16) { x & y == y }

  function Or(a: Signature, b: Signature): (r: Signature)
    requires |a| == |b|
    ensures |r| == |a|
    ensures forall i :: 0 <= i < |a| ==> r[i] == OrWord(a[i], b[i])
  {
    seq(|a|, i requires 0 <= i < |a| => OrWord(a[i], b[i]))
  }

  function Empty(words: nat): (r: Signature)
    ensures |r| == words
    ensures forall i :: 0 <= i < words ==> r[i] == 0
  {
    seq(words, i => 0)
  }

  /** The test of blgetbitmap: each word of the scan signature is inside the tuple's. */
  predicate Inside(b: Signature, a: Signature) {
    |a| == |b| && forall i :: 0 <= i < |a| ==> Contains(a[i], b[i])
  }

  /** The bits drawn for one value, from the state x on. */
  function Drawn(x: int, bits: nat, words: nat): (r: Signature)
    requires words > 0 && Usable(x)
    ensures |r| == words
  {
    if bits == 0 then Empty(words)
    else
      StaysInRange(x, bits - 1);
      SetBit(Drawn(x, bits - 1, words), (After(x, bits) - 1) % (16 * words))
  }

  lemma {:induction false} OrWordAssociative(x: bv16, y: bv16, z: bv16)
    ensures OrWord(OrWord(x, y), z) == OrWord(x, OrWord(y, z))
  {
  }

  lemma {:induction false} OrSetBit(a: Signature, b: Signature, bit: nat)
    requires |a| == |b| && bit < 16 * |a|
    ensures SetBit(Or(a, b), bit) == Or(a, SetBit(b, bit))
  {
    hide OrWord, Mask;
    OrWordAssociative(a[bit / 16], b[bit / 16], Mask(bit % 16));
  }

  lemma {:induction false} WordInOr(x: bv16, y: bv16)
    ensures Contains(OrWord(x, y), x) && Contains(OrWord(x, y), y)
  {
  }

  lemma {:induction false} WordInWider(x: bv16, y: bv16, z: bv16)
    requires Contains(x, z)
    ensures Contains(OrWord(x, y), z)
  {
    assert (x | y) & z == (x & z) | (y & z);
  }

  lemma {:induction false} WordsInOne(x: bv16, y: bv16, z: bv16)
    requires Contains(z, x) && Contains(z, y)
    ensures Contains(z, OrWord(x, y))
  {
    assert z & (x | y) == (z & x) | (z & y);
  }

  lemma {:induction false} InsideOr(a: Signature, b: Signature)
    requires |a| == |b|
    ensures Inside(a, Or(a, b)) && Inside(b, Or(a, b))
  {
    hide OrWord, Contains;
    forall i | 0 <= i < |a| ensures Contains(Or(a, b)[i], a[i]) && Contains(Or(a, b)[i], b[i]) {
      WordInOr(a[i], b[i]);
    }
  }

  lemma {:induction false} InsideWider(a: Signature, b: Signature, c: Signature)
    requires |a| == |b| && Inside(c, a)
    ensures Inside(c, Or(a, b))
  {
    hide OrWord, Contains;
    forall i | 0 <= i < |a| ensures Contains(Or(a, b)[i], c[i]) {
      WordInWider(a[i], b[i], c[i]);
    }
  }

  lemma {:induction false} BothInside(a: Signature, b: Signature, c: Signature)
    requires Inside(a, c) && Inside(b, c)
    ensures Inside(Or(a, b), c)
  {
    hide OrWord, Contains;
    forall i | 0 <= i < |a| ensures Contains(c[i], Or(a, b)[i]) {
      WordsInOne(a[i], b[i], c[i]);
    }
  }

  lemma {:induction false} InsideEmpty(a: Signature)
    ensures Inside(Empty(|a|), a) && Or(a, Empty(|a|)) == a
  {
    forall i | 0 <= i < |a| ensures Contains(a[i], 0) && OrWord(a[i], 0) == a[i] {
    }
  }

  // ----- rows and scan keys -----

  /** The index options and the hash functions of the columns. */
  datatype Opts = Opts(words: nat, bits: seq<nat>, hash: (nat, int) -> bv32) {
    predicate Valid() { words > 0 && |bits| <= 32 }
  }

  /** The seed from which the bits of a value are drawn: its hash, mixed with the column. */
  function ColumnSeed(o: Opts, att: nat, v: int): (seed: int)
    requires att < 32
    ensures 0 <= seed < 0x1_0000_0000
  {
    ColumnDraw(att);
    Mix(o.hash(att, v), Step(Seeded(att)) - 1)
  }

  function Mix(h: bv32, r: int): (seed: int)
    requires 0 <= r < 0x1_0000_0000
    ensures 0 <= seed < 0x1_0000_0000
  {
    (h ^ (r as bv32)) as int
  }

  lemma {:induction false} ColumnDraw(att: nat)
    requires att < 32
    ensures Seeded(att) == att + 1 && Step(att + 1) == 16807 * (att + 1)
  {
  }

  /** The seed, written out: the first draw after seeding with the column number, mixed into the hash. */
  lemma {:induction false} ColumnSeedIs(o: Opts, att: nat, v: int)
    requires att < 32
    ensures ColumnSeed(o, att, v) == Mix(o.hash(att, v), 16807 * (att + 1) - 1)
  {
    hide Mix;
    ColumnDraw(att);
  }

  /** The bits of one value in one column. */
  function ValueBits(o: Opts, att: nat, v: int): (r: Signature)
    requires o.Valid() && att < |o.bits| && !StuckSeed(ColumnSeed(o, att, v))
    ensures |r| == o.words
  {
    SeededRange(ColumnSeed(o, att, v));
    Drawn(Seeded(ColumnSeed(o, att, v)), o.bits[att], o.words)
  }

  /** signValue: adds the bits of a value to a signature.  It fails, by a shift with a
      negative count, exactly from a stuck seed. */
  method SignValue(g: Generator, o: Opts, sign: array<bv16>, att: nat, v: int) returns (ok: bool)
    requires o.Valid() && att < |o.bits| && sign.Length == o.words
    modifies g, sign
    ensures ok <==> o.bits[att] == 0 || !StuckSeed(ColumnSeed(o, att, v))
    ensures !StuckSeed(ColumnSeed(o, att, v)) ==> sign[..] == Or(old(sign[..]), ValueBits(o, att, v))
  {
    hide Step, Seeded, Or, Mix, Drawn;
    g.Srand(att);
    ColumnDraw(att);
    var r := g.Rand();
    g.Srand(Mix(o.hash(att, v), r));
    SeededRange(ColumnSeed(o, att, v));
    ok := DrawBits(g, sign, o.bits[att]);
  }

  /** The loop of signValue. */
  method DrawBits(g: Generator, sign: array<bv16>, bits: nat) returns (ok: bool)
    requires -0x7fff_fffd <= g.next <= 0x7fff_fffe && sign.Length > 0
    modifies g, sign
    ensures ok <==> bits == 0 || old(g.next) != 0
    ensures old(g.next) != 0 ==> sign[..] == Or(old(sign[..]), Drawn(old(g.next), bits, sign.Length))
  {
    hide Step, Or, SetBit, OrWord, Drawn;
    ghost var x, before := g.next, sign[..];
    InsideEmpty(before);
    if x != 0 { DrawnStep(x, 0, sign.Length); }
    for j := 0 to bits
      invariant g.next == After(x, j)
      invariant j > 0 ==> x != 0
      invariant x != 0 ==> sign[..] == Or(before, Drawn(x, j, sign.Length))
    {
      AfterRange(x, j);
      var draw := g.Rand();
      var nBit := Remainder(draw, 16 * sign.Length);
      BitNumber(draw, sign.Length);
      if nBit < 0 { return false; }
      DrawnStep(x, j, sign.Length);
      OrSetBit(before, Drawn(x, j, sign.Length), nBit);
      SetBitInPlace(sign, nBit);
    }
    return true;
  }

  lemma {:induction false} BitNumber(draw: int, words: nat)
    requires words > 0
    ensures draw >= 0 ==> Remainder(draw, 16 * words) == draw % (16 * words)
    ensures draw == -1 ==> Remainder(draw, 16 * words) == -1
  {
    if draw >= 0 {
      assert draw == 16 * words * (draw / (16 * words)) + draw % (16 * words);
    } else if draw == -1 {
      assert 1 / (16 * words) == 0;
    }
  }

  lemma {:induction false} DrawnStep(x: int, n: nat, words: nat)
    requires words > 0 && Usable(x)
    ensures Drawn(x, 0, words) == Empty(words)
    ensures InRange(After(x, n + 1))
    ensures Drawn(x, n + 1, words) == SetBit(Drawn(x, n, words), (After(x, n + 1) - 1) % (16 * words))
  {
    StaysInRange(x, n);
  }

  lemma {:induction false} AfterRange(x: int, n: nat)
    requires -0x7fff_fffd <= x <= 0x7fff_fffe && (x == 0 ==> n == 0)
    ensures -0x7fff_fffd <= After(x, n) <= 0x7fff_fffe
    ensures x == 0 ==> After(x, n + 1) == 0
    ensures x != 0 ==> InRange(After(x, n + 1))
  {
    if x != 0 {
      StaysInRange(x, n);
      if n > 0 { StaysInRange(x, n - 1); }
    }
  }

  method SetBitInPlace(sign: array<bv16>, bit: nat)
    requires bit < 16 * sign.Length
    modifies sign
    ensures sign[..] == SetBit(old(sign[..]), bit)
  {
    sign[bit / 16] := OrWord(sign[bit / 16], Mask(bit % 16));
  }

  // ----- no false negatives -----

  /** A row's bits can all be drawn. */
  predicate Signable(o: Opts, row: seq<Option<int>>) {
    |row| == |o.bits| &&
    forall i :: 0 <= i < |row| && row[i].Some? ==> i < 32 && !StuckSeed(ColumnSeed(o, i, row[i].value))
  }

  /** The signature of the first n columns; nulls contribute nothing. */
  function RowSign(o: Opts, row: seq<Option<int>>, n: nat): (r: Signature)
    requires o.Valid() && Signable(o, row) && n <= |row|
    ensures |r| == o.words
  {
    if n == 0 then Empty(o.words)
    else if row[n - 1].None? then RowSign(o, row, n - 1)
    else Or(RowSign(o, row, n - 1), ValueBits(o, n - 1, row[n - 1].value))
  }

  /** The loop of BloomFormTuple. */
  method FormTuple(g: Generator, o: Opts, row: seq<Option<int>>) returns (sign: array<bv16>)
    requires o.Valid() && Signable(o, row)
    modifies g
    ensures fresh(sign) && sign[..] == RowSign(o, row, |row|)
  {
    sign := new bv16[o.words](i => 0);
    assert sign[..] == Empty(o.words);
    for i := 0 to |row|
      invariant sign[..] == RowSign(o, row, i)
    {
      if row[i].Some? {
        var ok := SignValue(g, o, sign, i, row[i].value);
      }
    }
  }

  /** A scan key: column and value; a null value matches nothing. */
  datatype ScanKey = ScanKey(att: nat, value: Option<int>)

  /** The row satisfies every key. */
  predicate KeysOf(row: seq<Option<int>>, keys: seq<ScanKey>) {
    forall k :: 0 <= k < |keys| ==> keys[k].att < |row| && keys[k].value.Some? && row[keys[k].att] == keys[k].value
  }

  predicate GoodKeys(o: Opts, keys: seq<ScanKey>)
    requires o.Valid()
  {
    forall k :: 0 <= k < |keys| ==>
      keys[k].att < |o.bits| && keys[k].value.Some? && !StuckSeed(ColumnSeed(o, keys[k].att, keys[k].value.value))
  }

  /** The signature of the first n keys. */
  function KeySign(o: Opts, keys: seq<ScanKey>, n: nat): (r: Signature)
    requires o.Valid() && n <= |keys| && GoodKeys(o, keys[..n])
    ensures |r| == o.words
  {
    if n == 0 then Empty(o.words)
    else
      assert keys[..n][..n - 1] == keys[..n - 1] && keys[..n][n - 1] == keys[n - 1];
      Or(KeySign(o, keys, n - 1), ValueBits(o, keys[n - 1].att, keys[n - 1].value.value))
  }

  /** The head of blgetbitmap: the scan signature, or `None` for a null key, on which it
      returns no tuples; `ok` is false when the bits of a value cannot be drawn. */
  method ScanSignature(g: Generator, o: Opts, keys: seq<ScanKey>) returns (sign: Option<Signature>, ok: bool)
    requires o.Valid() && forall k :: 0 <= k < |keys| ==> keys[k].att < |o.bits| && o.bits[keys[k].att] > 0
    modifies g
    ensures GoodKeys(o, keys) ==> ok && sign == Some(KeySign(o, keys, |keys|))
    ensures !GoodKeys(o, keys) ==> sign.None? && (ok ==> exists k :: 0 <= k < |keys| && keys[k].value.None?)
  {
    hide Or, ValueBits, ColumnSeed, StuckSeed;
    var words := new bv16[o.words](i => 0);
    assert words[..] == Empty(o.words);
    for k := 0 to |keys|
      invariant GoodKeys(o, keys[..k]) && words[..] == KeySign(o, keys, k)
    {
      if keys[k].value.None? { return None, true; }
      var done := SignValue(g, o, words, keys[k].att, keys[k].value.value);
      if !done { return None, false; }
      assert keys[..k + 1] == keys[..k] + [keys[k]];
    }
    assert keys[..|keys|] == keys;
    return Some(words[..]), true;
  }

  /** The signature of any keys that a row satisfies lies inside the row's signature. */
  lemma {:induction false} KeysInsideRow(o: Opts, row: seq<Option<int>>, keys: seq<ScanKey>, n: nat)
    requires o.Valid() && Signable(o, row) && KeysOf(row, keys) && n <= |keys|
    ensures GoodKeys(o, keys[..n])
    ensures Inside(KeySign(o, keys, n), RowSign(o, row, |row|))
    decreases n
  {
    hide Or, ValueBits, RowSign, Inside, ColumnSeed, StuckSeed;
    if n == 0 {
      InsideEmpty(RowSign(o, row, |row|));
    } else {
      KeysInsideRow(o, row, keys, n - 1);
      ColumnInside(o, row, keys[n - 1].att, |row|);
      BothInside(KeySign(o, keys, n - 1), ValueBits(o, keys[n - 1].att, keys[n - 1].value.value),
                 RowSign(o, row, |row|));
    }
  }

  lemma {:induction false} ColumnInside(o: Opts, row: seq<Option<int>>, att: nat, n: nat)
    requires o.Valid() && Signable(o, row) && att < n <= |row| && row[att].Some?
    ensures Inside(ValueBits(o, att, row[att].value), RowSign(o, row, n))
    decreases n
  {
    var bits := ValueBits(o, att, row[att].value);
    if att == n - 1 {
      InsideOr(RowSign(o, row, n - 1), bits);
    } else {
      ColumnInside(o, row, att, n - 1);
      if row[n - 1].Some? {
        InsideWider(RowSign(o, row, n - 1), ValueBits(o, n - 1, row[n - 1].value), bits);
      }
    }
  }

  // ----- which bits are set -----

  /** GETBIT */
  predicate HasBit(sign: Signature, i: nat)
    requires i < 16 * |sign|
  {
    Contains(sign[i / 16], Mask(i % 16))
  }

  lemma {:induction false} MasksDiffer(j: nat, k: nat)
    requires j < 16 && k < 16
    ensures Contains(Mask(k), Mask(j)) <==> j == k
    ensures !Contains(0, Mask(j))
  {
  }

  predicate AllOrNone(x: bv16, z: bv16) { x & z == 0 || x & z == z }

  lemma {:induction false} OneBit(x: bv16, k: nat)
    requires k < 16
    ensures AllOrNone(x, Mask(k))
  {
  }

  lemma {:induction false} BitOfOr(x: bv16, y: bv16, k: nat)
    requires k < 16
    ensures Contains(OrWord(x, y), Mask(k)) <==> Contains(x, Mask(k)) || Contains(y, Mask(k))
  {
    hide Mask, Contains, OrWord, AllOrNone;
    OneBit(x, k);
    OneBit(y, k);
    PartsOfOr(x, y, Mask(k));
  }

  lemma {:induction false} PartsOfOr(x: bv16, y: bv16, z: bv16)
    requires AllOrNone(x, z) && AllOrNone(y, z)
    ensures Contains(OrWord(x, y), z) <==> Contains(x, z) || Contains(y, z)
  {
    if Contains(x, z) {
      WordInWider(x, y, z);
    } else if Contains(y, z) {
      WordInWider(y, x, z);
      OrWordCommutes(x, y);
    } else {
      NeitherHas(x, y, z);
    }
  }

  lemma {:induction false} OrWordCommutes(x: bv16, y: bv16)
    ensures OrWord(x, y) == OrWord(y, x)
  {
  }

  lemma {:induction false} NeitherHas(x: bv16, y: bv16, z: bv16)
    requires x & z == 0 && y & z == 0 && z != 0
    ensures !Contains(OrWord(x, y), z)
  {
    assert (x | y) & z == 0;
  }

  lemma {:induction false} BitsOfEmpty(words: nat, i: nat)
    requires i < 16 * words
    ensures !HasBit(Empty(words), i)
  {
    MasksDiffer(i % 16, i % 16);
  }

  lemma {:induction false} BitsOfSet(sign: Signature, bit: nat, i: nat)
    requires bit < 16 * |sign| && i < 16 * |sign|
    ensures HasBit(SetBit(sign, bit), i) <==> HasBit(sign, i) || i == bit
  {
    hide OrWord, Mask, Contains;
    if i / 16 == bit / 16 {
      BitOfOr(sign[i / 16], Mask(bit % 16), i % 16);
      MasksDiffer(i % 16, bit % 16);
    }
  }

  lemma {:induction false} BitsOfUnion(a: Signature, b: Signature, i: nat)
    requires |a| == |b| && i < 16 * |a|
    ensures HasBit(Or(a, b), i) <==> HasBit(a, i) || HasBit(b, i)
  {
    hide OrWord, Mask, Contains;
    BitOfOr(a[i / 16], b[i / 16], i % 16);
  }

  /** The n-th number drawn from the state x picks the bit i. */
  predicate Picks(x: int, n: nat, words: nat, i: nat)
    requires words > 0
  {
    (After(x, n) - 1) % (16 * words) == i
  }

  /** Exactly the bits that the numbers drawn pick are set. */
  lemma {:induction false} DrawnBits(x: int, bits: nat, words: nat, i: nat)
    requires words > 0 && Usable(x) && i < 16 * words
    ensures HasBit(Drawn(x, bits, words), i) <==> exists n: nat :: 1 <= n <= bits && Picks(x, n, words, i)
  {
    hide HasBit, SetBit;
    if bits == 0 {
      BitsOfEmpty(words, i);
    } else {
      DrawnStep(x, bits - 1, words);
      DrawnBits(x, bits - 1, words, i);
      BitsOfSet(Drawn(x, bits - 1, words), (After(x, bits) - 1) % (16 * words), i);
      assert Picks(x, bits, words, i) <==> (After(x, bits) - 1) % (16 * words) == i;
    }
  }

  /** A value of the column picks the bit. */
  ghost predicate PicksBit(o: Opts, att: nat, v: int, i: nat)
    requires o.Valid() && att < |o.bits|
  {
    exists n: nat :: 1 <= n <= o.bits[att] && Picks(Seeded(ColumnSeed(o, att, v)), n, o.words, i)
  }

  /** Exactly the bits that some non-null column of the row picks are set in its signature. */
  lemma {:induction false} RowBits(o: Opts, row: seq<Option<int>>, n: nat, i: nat)
    requires o.Valid() && Signable(o, row) && n <= |row| && i < 16 * o.words
    ensures HasBit(RowSign(o, row, n), i) <==>
            exists att :: 0 <= att < n && row[att].Some? && PicksBit(o, att, row[att].value, i)
  {
    hide HasBit, Or, ColumnSeed, Seeded, PicksBit, Drawn;
    if n == 0 {
      BitsOfEmpty(o.words, i);
    } else {
      RowBits(o, row, n - 1, i);
      if row[n - 1].Some? {
        ValueHasBits(o, n - 1, row[n - 1].value, i);
        BitsOfUnion(RowSign(o, row, n - 1), ValueBits(o, n - 1, row[n - 1].value), i);
      }
    }
  }

  lemma {:induction false} ValueHasBits(o: Opts, att: nat, v: int, i: nat)
    requires o.Valid() && att < |o.bits| && !StuckSeed(ColumnSeed(o, att, v)) && i < 16 * o.words
    ensures HasBit(ValueBits(o, att, v), i) <==> PicksBit(o, att, v, i)
  {
    hide HasBit, ColumnSeed, Seeded, Drawn;
    SeededRange(ColumnSeed(o, att, v));
    DrawnBits(Seeded(ColumnSeed(o, att, v)), o.bits[att], o.words, i);
  }

  predicate Follows(x: bv16, y: bv16, z: bv16) { Contains(y, z) ==> Contains(x, z) }

  lemma {:induction false} AllBits(x: bv16, y: bv16)
    requires Follows(x, y, 0x1) && Follows(x, y, 0x2) && Follows(x, y, 0x4) && Follows(x, y, 0x8)
    requires Follows(x, y, 0x10) && Follows(x, y, 0x20) && Follows(x, y, 0x40) && Follows(x, y, 0x80)
    requires Follows(x, y, 0x100) && Follows(x, y, 0x200) && Follows(x, y, 0x400) && Follows(x, y, 0x800)
    requires Follows(x, y, 0x1000) && Follows(x, y, 0x2000) && Follows(x, y, 0x4000) && Follows(x, y, 0x8000)
    ensures Contains(x, y)
  {
  }

  lemma {:induction false} MaskValues()
    ensures Mask(0) == 0x1 && Mask(1) == 0x2 && Mask(2) == 0x4 && Mask(3) == 0x8
    ensures Mask(4) == 0x10 && Mask(5) == 0x20 && Mask(6) == 0x40 && Mask(7) == 0x80
    ensures Mask(8) == 0x100 && Mask(9) == 0x200 && Mask(10) == 0x400 && Mask(11) == 0x800
    ensures Mask(12) == 0x1000 && Mask(13) == 0x2000 && Mask(14) == 0x4000 && Mask(15) == 0x8000
  {
  }

  lemma {:induction false} WordInIff(x: bv16, y: bv16)
    ensures Contains(x, y) <==> forall k: nat :: k < 16 ==> Follows(x, y, Mask(k))
  {
    hide Contains, Mask, Follows;
    MaskValues();
    if forall k: nat :: k < 16 ==> Follows(x, y, Mask(k)) {
      AllBits(x, y);
    }
    if Contains(x, y) {
      forall k: nat | k < 16 ensures Follows(x, y, Mask(k)) { InsideInside(x, y, Mask(k)); }
    }
  }

  lemma {:induction false} InsideInside(x: bv16, y: bv16, z: bv16)
    requires Contains(x, y)
    ensures Follows(x, y, z)
  {
  }

  /** The test of a scan holds exactly when every bit of the scan's signature is set in the tuple's. */
  lemma {:induction false} InsideIffBits(b: Signature, a: Signature)
    requires |a| == |b|
    ensures Inside(b, a) <==> forall i: nat :: i < 16 * |a| ==> HasBit(b, i) ==> HasBit(a, i)
  {
    hide Contains, Mask;
    if Inside(b, a) {
      forall i: nat | i < 16 * |a| && HasBit(b, i) ensures HasBit(a, i) { WordInIff(a[i / 16], b[i / 16]); }
    }
    if forall i: nat :: i < 16 * |a| ==> HasBit(b, i) ==> HasBit(a, i) {
      forall w | 0 <= w < |a| ensures Contains(a[w], b[w]) {
        forall k: nat | k < 16 ensures Follows(a[w], b[w], Mask(k)) {
          var i := 16 * w + k;
          assert i / 16 == w && i % 16 == k && i < 16 * |a|;
          assert HasBit(b, i) ==> HasBit(a, i);
        }
        WordInIff(a[w], b[w]);
      }
    }
  }
}
