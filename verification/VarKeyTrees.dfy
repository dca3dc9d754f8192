/**
 * Trees of variable-length keys.  A stored key is the result of some history of unions and
 * page splits over the heap values; a search descends wherever `Consistent` says so.
 */
module VarKeyTrees {
  import opened ByteStrings
  import opened VarKeys

  /** How a key came about: from a heap value, by gbt_var_union over entries (this includes
      widening a stored key by one new entry), or as one half of gbt_var_picksplit, whose
      other half had common prefix length `other`. */
  datatype History =
    | Value(v: Bytes)
    | Unite(parts: seq<History>)
    | Half(parts: seq<History>, other: nat)

  predicate WellFormed(h: History) {
    match h
    case Value(_) => true
    case Unite(parts) => parts != [] && forall p :: p in parts ==> WellFormed(p)
    case Half(parts, _) => parts != [] && forall p :: p in parts ==> WellFormed(p)
  }

  function KeyOf(h: History): Key
    requires WellFormed(h)
  {
    match h
    case Value(v) => Key(v, v)
    case Unite(parts) => UnionKey(Keys(h))
    case Half(parts, other) => SplitKey(Keys(h), other)
  }

  /** The keys of the entries that a union or a split half worked on. */
  function Keys(h: History): (ks: seq<Key>)
    requires WellFormed(h) && !h.Value?
    ensures |ks| == |h.parts| && ks != []
    ensures forall i :: 0 <= i < |ks| ==> ks[i] == KeyOf(h.parts[i])
    decreases h, 0
  {
    seq(|h.parts|, i requires 0 <= i < |h.parts| => KeyOf(h.parts[i]))
  }

  predicate Holds(h: History, v: Bytes) {
    match h
    case Value(w) => v == w
    case Unite(parts) => exists p :: p in parts && Holds(p, v)
    case Half(parts, _) => exists p :: p in parts && Holds(p, v)
  }

  /** The length at which the key was cut, less two. */
  function CutLength(h: History): (m: nat)
    requires WellFormed(h) && !h.Value?
    ensures m >= PrefixOf(Keys(h)) && KeyOf(h) == TruncateKey(Join(Keys(h)), m)
  {
    if h.Unite? || h.other <= PrefixOf(Keys(h)) then PrefixOf(Keys(h)) else h.other
  }

  /** Every key in every tree covers every value below it, whatever unions and splits
      produced it and however often it was cut. */
  lemma {:induction false} EveryKeyCovers(h: History, v: Bytes)
    requires WellFormed(h) && Holds(h, v)
    ensures Covers(KeyOf(h), v)
  {
    match h
    case Value(_) =>
      CompareAntisymmetric(v, v);
    case _ =>
      var p :| p in h.parts && Holds(p, v);
      var i :| 0 <= i < |h.parts| && h.parts[i] == p;
      EveryKeyCovers(p, v);
      CutJoinCovers(Keys(h), CutLength(h), i, v);
  }

  lemma {:induction false} KeyIsOrdered(h: History)
    requires WellFormed(h)
    ensures Leq(KeyOf(h).lower, KeyOf(h).upper)
    ensures exists v :: Holds(h, v)
  {
    match h
    case Value(v) =>
      CompareAntisymmetric(v, v);
      assert Holds(h, v);
    case _ =>
      KeyIsOrdered(h.parts[0]);
      var v :| Holds(h.parts[0], v);
      assert h.parts[0] in h.parts;
      assert Holds(h, v);
      EveryKeyCovers(h, v);
  }

  /** The stored key is safe: it is a leaf's, a union's, a half of a split leaf page, or the
      half of a split inner page for which the checkable condition holds. */
  predicate Safe(h: History)
    requires WellFormed(h)
  {
    h.Value? || h.Unite? || SafeCut(Keys(h), CutLength(h))
  }

  lemma UnionIsSafe(h: History)
    requires WellFormed(h) && h.Unite?
    ensures SafeCut(Keys(h), CutLength(h))
  {
    forall i | 0 <= i < |h.parts|
      ensures Leq(Keys(h)[i].lower, Keys(h)[i].upper)
    {
      KeyIsOrdered(h.parts[i]);
    }
    UnionAndLeafCutsAreSafe(Keys(h), CutLength(h));
  }

  lemma SplitLeafPageIsSafe(h: History)
    requires WellFormed(h) && h.Half?
    requires forall p :: p in h.parts ==> p.Value?
    ensures Safe(h)
  {
    forall i | 0 <= i < |h.parts|
      ensures Leq(Keys(h)[i].lower, Keys(h)[i].upper) && Keys(h)[i].lower == Keys(h)[i].upper
    {
      assert h.parts[i] in h.parts;
      KeyIsOrdered(h.parts[i]);
    }
    UnionAndLeafCutsAreSafe(Keys(h), CutLength(h));
  }

  /** For trees of any height and all six strategies: a safe key never rules out a value
      below it. */
  lemma SafeKeyNeverPrunes(h: History, v: Bytes, q: Bytes, s: Strategy)
    requires WellFormed(h) && Safe(h) && Holds(h, v) && Matches(v, q, s)
    ensures Consistent(KeyOf(h), q, s, false)
  {
    EveryKeyCovers(h, v);
    AdmitsIff(KeyOf(h), v);
    if h.Value? {
      CompareAntisymmetric(v, v);
    } else {
      if h.Unite? { UnionIsSafe(h); }
      var p :| p in h.parts && Holds(p, v);
      var i :| 0 <= i < |h.parts| && h.parts[i] == p;
      EveryKeyCovers(p, v);
      SafeCutAdmits(Keys(h), CutLength(h), i, v);
    }
    assert Admits(KeyOf(h), v);
  }

  // ----- searching -----

  /** An index entry: a heap value, or a page with the key its parent stores for it. */
  datatype Entry = Heap(v: Bytes) | Page(entries: seq<Entry>, stored: History)

  predicate InEntry(e: Entry, v: Bytes) {
    match e
    case Heap(w) => v == w
    case Page(entries, _) => exists c :: c in entries && InEntry(c, v)
  }

  /** Each stored key was derived from (at least) the values now below it, by safe steps. */
  ghost predicate SoundIndex(e: Entry) {
    match e
    case Heap(_) => true
    case Page(entries, stored) =>
      && WellFormed(stored) && Safe(stored)
      && (forall v :: InEntry(e, v) ==> Holds(stored, v))
      && (forall c :: c in entries ==> SoundIndex(c))
  }

  /** The set of heap values a GiST scan returns from one entry. */
  ghost predicate Found(e: Entry, q: Bytes, s: Strategy, v: Bytes) {
    match e
    case Heap(w) => v == w && Consistent(Key(w, w), q, s, true)
    case Page(entries, stored) =>
      && WellFormed(stored) && Consistent(KeyOf(stored), q, s, false)
      && exists c :: c in entries && Found(c, q, s, v)
  }

  /** A scan returns exactly the matching values of the subtree. */
  lemma {:induction false} SearchIsExact(e: Entry, q: Bytes, s: Strategy, v: Bytes)
    requires SoundIndex(e)
    ensures Found(e, q, s, v) <==> InEntry(e, v) && Matches(v, q, s)
  {
    match e
    case Heap(w) =>
      LeafConsistentIsExact(w, q, s);
    case Page(entries, stored) =>
      forall c | c in entries
        ensures Found(c, q, s, v) <==> InEntry(c, v) && Matches(v, q, s)
      {
        SearchIsExact(c, q, s, v);
      }
      if InEntry(e, v) && Matches(v, q, s) {
        SafeKeyNeverPrunes(stored, v, q, s);
      }
  }

  // ----- splitting an inner page -----

  const BCD: Bytes := [98, 99, 100]
  const BCZ: Bytes := [98, 99, 122]

  const CX: Bytes := [99, 99, 99, 99, 99, 120]
  const CY: Bytes := [99, 99, 99, 99, 99, 121]

  /** The four entries of an inner page, in the order in which gbt_var_picksplit sorts them. */
  const A_TO_BCZ := Unite([Value([97]), Value(BCZ)])
  const B_TO_BCD := Unite([Value([98]), Value(BCD)])
  const ONLY_CX := Unite([Value(CX)])
  const ONLY_CY := Unite([Value(CY)])

  /** Its left half, beside a right half whose keys share five bytes. */
  const UNSAFE_HALF := Half([A_TO_BCZ, B_TO_BCD], 5)

  lemma JoinPair(x: Key, y: Key)
    ensures Join([x, y]) == BinUnion(x, y)
  {
    assert [x, y][..1] == [x];
  }

  lemma UnitePair(a: Bytes, b: Bytes)
    requires Less(a, b)
    ensures KeyOf(Unite([Value(a), Value(b)])) == Key(Cut(a, Cp(a, b) + 2), Cut(b, Cp(a, b) + 2))
    ensures Holds(Unite([Value(a), Value(b)]), b)
  {
    var h := Unite([Value(a), Value(b)]);
    assert Value(b) in h.parts;
    assert Keys(h) == [Key(a, a), Key(b, b)];
    JoinPair(Key(a, a), Key(b, b));
  }

  /** gbt_var_picksplit on an inner page can lose a value.  Of the four entries, the last two
      share five bytes, so the key of the first two is cut behind the seventh byte: its upper
      bound stays "bcd" and no longer finds "bcz". */
  lemma SplitInnerPageLosesAValue()
    ensures forall h :: h in [A_TO_BCZ, B_TO_BCD, ONLY_CX, ONLY_CY] ==> WellFormed(h)
    ensures Less(KeyOf(A_TO_BCZ).lower, KeyOf(B_TO_BCD).lower)
    ensures Less(KeyOf(B_TO_BCD).lower, KeyOf(ONLY_CX).lower)
    ensures Less(KeyOf(ONLY_CX).lower, KeyOf(ONLY_CY).lower)
    ensures var left, right := [KeyOf(A_TO_BCZ), KeyOf(B_TO_BCD)], [KeyOf(ONLY_CX), KeyOf(ONLY_CY)];
            SplitKey(left, PrefixOf(right)) == Key([97], BCD)
    ensures Holds(A_TO_BCZ, BCZ) && !Consistent(Key([97], BCD), BCZ, Equal, false)
    ensures WellFormed(UNSAFE_HALF) && KeyOf(UNSAFE_HALF) == Key([97], BCD) && !Safe(UNSAFE_HALF)
  {
    FirstEntry();
    SecondEntry();
    RightEntries();
    HalfOfTwo(A_TO_BCZ, B_TO_BCD, 5, BCZ);
    HalfKey(Key([97], [98, 99]), Key([98], BCD));
    NotConsistent();
    LostMeansUnsafe(UNSAFE_HALF, BCZ);
  }

  lemma FirstEntry()
    ensures WellFormed(A_TO_BCZ) && KeyOf(A_TO_BCZ) == Key([97], [98, 99]) && Holds(A_TO_BCZ, BCZ)
    ensures Less([97], [98])
  {
    CpUnique([97], BCZ, 0);
    UnitePair([97], BCZ);
    CpUnique([97], [98], 0);
    Cuts();
  }

  lemma SecondEntry()
    ensures WellFormed(B_TO_BCD) && KeyOf(B_TO_BCD) == Key([98], BCD)
  {
    CpUnique([98], BCD, 1);
    UnitePair([98], BCD);
    Cuts();
  }

  lemma RightEntries()
    ensures WellFormed(ONLY_CX) && KeyOf(ONLY_CX) == Key(CX, CX)
    ensures WellFormed(ONLY_CY) && KeyOf(ONLY_CY) == Key(CY, CY)
    ensures PrefixOf([Key(CX, CX), Key(CY, CY)]) == 5
    ensures Less([98], CX) && Less(CX, CY)
  {
    UniteOne(CX);
    UniteOne(CY);
    CpUnique([98], CX, 0);
    CpUnique(CX, CY, 5);
    JoinPair(Key(CX, CX), Key(CY, CY));
  }

  lemma UniteOne(a: Bytes)
    ensures KeyOf(Unite([Value(a)])) == Key(a, a)
  {
    assert Keys(Unite([Value(a)])) == [Key(a, a)];
    CpUnique(a, a, |a|);
  }

  lemma HalfOfTwo(l: History, r: History, other: nat, v: Bytes)
    requires WellFormed(l) && WellFormed(r) && Holds(l, v)
    ensures WellFormed(Half([l, r], other)) && Holds(Half([l, r], other), v)
    ensures KeyOf(Half([l, r], other)) == SplitKey([KeyOf(l), KeyOf(r)], other)
  {
    var h := Half([l, r], other);
    assert l in h.parts;
    assert Keys(h) == [KeyOf(l), KeyOf(r)];
  }

  lemma LostMeansUnsafe(h: History, v: Bytes)
    requires WellFormed(h) && Holds(h, v) && !Consistent(KeyOf(h), v, Equal, false)
    ensures !Safe(h)
  {
    if Safe(h) { SafeKeyNeverPrunes(h, v, v, Equal); }
  }

  lemma Cuts()
    ensures Cut([97], 2) == [97] && Cut(BCZ, 2) == [98, 99]
    ensures Cut([98], 3) == [98] && Cut(BCD, 3) == BCD
  {
  }

  lemma HalfKey(x: Key, y: Key)
    requires x == Key([97], [98, 99]) && y == Key([98], BCD)
    ensures SplitKey([x, y], 5) == Key([97], BCD)
  {
    JoinPair(x, y);
    CpUnique(x.lower, y.lower, 0);
    CpUnique(x.upper, BCD, 2);
    CpUnique(x.lower, BCD, 0);
    assert Join([x, y]) == Key([97], BCD);
  }

  lemma NotConsistent()
    ensures !Consistent(Key([97], BCD), BCZ, Equal, false)
  {
    CpUnique([97], BCZ, 0);
    CpUnique(BCD, BCZ, 2);
    CompareAntisymmetric(BCZ, BCD);
  }
}
