/**
 * Values in the old format (hstore_compat.c), laid out as on little-endian machines: the first
 * word of a pair holds the key length below the value length, the second one the null flag
 * below the position.  hstoreUpgrade overwrites the words in place.
 */
module HstoreUpgrade {
  import opened Options
  import opened ByteStrings
  import opened HstoreText
  import opened HstorePacked
  import opened HstoreBuild

  const HALF: nat := 0x1_0000
  const COUNT_LIMIT: nat := 0x1000_0000

  function OldKeyLen(w: nat): nat { w % HALF }
  function OldValLen(w: nat): nat { w / HALF }
  predicate OldIsNull(w: nat) { w % 2 == 1 }
  function OldPos(w: nat): nat { w / 2 }

  /** The bytes of the value of the i-th pair; a null has none. */
  function OldValBytes(ws: seq<nat>, i: nat): nat
    requires 2 * i + 1 < |ws|
  {
    if OldIsNull(ws[2 * i + 1]) then 0 else OldValLen(ws[2 * i])
  }

  /** Where the bytes of the first n pairs end. */
  function LastPos(ws: seq<nat>, n: nat): nat
    requires 2 * n <= |ws|
  {
    if n == 0 then 0 else LastPos(ws, n - 1) + OldKeyLen(ws[2 * (n - 1)]) + OldValBytes(ws, n - 1)
  }

  ghost predicate ContiguousAt(ws: seq<nat>, i: nat)
    requires 2 * i + 1 < |ws|
  {
    OldPos(ws[2 * i + 1]) == LastPos(ws, i)
  }

  /** The bytes of the pairs follow each other without gaps. */
  ghost predicate Contiguous(ws: seq<nat>, n: nat)
    requires 2 * n <= |ws|
  {
    forall i :: 0 <= i < n ==> ContiguousAt(ws, i)
  }

  ghost predicate KeyGrowsAt(ws: seq<nat>, i: nat)
    requires 2 * i + 1 < |ws|
  {
    i > 0 ==> OldKeyLen(ws[2 * i - 2]) <= OldKeyLen(ws[2 * i])
  }

  ghost predicate KeysGrow(ws: seq<nat>, n: nat)
    requires 2 * n <= |ws|
  {
    forall i :: 0 <= i < n ==> KeyGrowsAt(ws, i)
  }

  /** HS_COUNT: the count is kept in 28 bits of the size word. */
  function CountOf(size: nat): nat { size % COUNT_LIMIT }

  /** The words of the count lie inside the value. */
  predicate Fits(size: nat, varsize: nat) { HEADER + 8 * CountOf(size) <= varsize }

  /** Any value without the version flag: its size word, its length, and memory from the first
      word on, which is longer than the value if the count does not fit; `str` are the bytes
      behind the words. */
  ghost predicate Raw(size: nat, varsize: nat, mem: seq<nat>, str: Bytes) {
    && size < 0x8000_0000 && HEADER <= varsize < POS_LIMIT
    && 0 < |mem| && 2 * CountOf(size) <= |mem|
    && (Fits(size, varsize) ==> varsize == HEADER + 8 * CountOf(size) + |str|)
  }

  ghost predicate OldOk(ws: seq<nat>, str: Bytes)
    requires |ws| % 2 == 0
  {
    var n := |ws| / 2;
    Contiguous(ws, n) && KeysGrow(ws, n) && LastPos(ws, n) <= |str|
  }

  function Slice(s: Bytes, a: nat, len: nat): Bytes { if a + len <= |s| then s[a..a + len] else [] }

  /** The i-th pair of an old value. */
  function OldPair(ws: seq<nat>, str: Bytes, i: nat): Pair
    requires 2 * i + 1 < |ws|
  {
    var pos, klen := OldPos(ws[2 * i + 1]), OldKeyLen(ws[2 * i]);
    Pair(Slice(str, pos, klen),
         if OldIsNull(ws[2 * i + 1]) then None else Some(Slice(str, pos + klen, OldValLen(ws[2 * i]))))
  }

  function OldPairs(ws: seq<nat>, str: Bytes, n: nat): (ps: seq<Pair>)
    requires 2 * n <= |ws|
    ensures |ps| == n
  {
    if n == 0 then [] else OldPairs(ws, str, n - 1) + [OldPair(ws, str, n - 1)]
  }

  /** The value is one in the old format, whose size word is the count itself. */
  ghost predicate ValidAsOld(size: nat, varsize: nat, mem: seq<nat>, str: Bytes)
    requires Raw(size, varsize, mem, str)
  {
    size < COUNT_LIMIT && Fits(size, varsize) && OldOk(mem[..2 * size], str)
  }

  /** hstoreValidOldFormat: 0 not valid, 1 valid with bytes to spare, 2 exactly valid or empty.
      The answer does not depend on what stands behind the value. */
  method ValidOld(size: nat, varsize: nat, mem: seq<nat>, ghost str: Bytes) returns (r: nat)
    requires Raw(size, varsize, mem, str)
    ensures r <= 2 && (r > 0 <==> ValidAsOld(size, varsize, mem, str))
    ensures r == 2 <==> ValidAsOld(size, varsize, mem, str) && (size == 0 || LastPos(mem[..2 * size], size) == |str|)
  {
    hide OldKeyLen, OldValLen, OldIsNull, OldPos, OldValBytes;
    if size == 0 {
      return 2;
    }
    if size >= COUNT_LIMIT || HEADER + 8 * size > varsize {
      return 0;
    }
    var ws := mem[..2 * size];
    var grows := KeysDoGrow(ws, size);
    if !grows {
      return 0;
    }
    var ok, lastPos := EndOfBytes(ws, size);
    if !ok {
      return 0;
    }
    var vsize := HEADER + 8 * size + lastPos;
    return if vsize > varsize then 0 else if vsize != varsize then 1 else 2;
  }

  method KeysDoGrow(ws: seq<nat>, n: nat) returns (ok: bool)
    requires 0 < n && 2 * n <= |ws|
    ensures ok <==> KeysGrow(ws, n)
  {
    hide OldKeyLen;
    for i := 1 to n
      invariant KeysGrow(ws, i)
    {
      if OldKeyLen(ws[2 * i]) < OldKeyLen(ws[2 * i - 2]) {
        assert !KeyGrowsAt(ws, i);
        return false;
      }
    }
    return true;
  }

  method EndOfBytes(ws: seq<nat>, n: nat) returns (ok: bool, lastPos: nat)
    requires 2 * n <= |ws|
    ensures ok <==> Contiguous(ws, n)
    ensures ok ==> lastPos == LastPos(ws, n)
  {
    hide OldKeyLen, OldValBytes, OldPos;
    lastPos := 0;
    for i := 0 to n
      invariant Contiguous(ws, i) && lastPos == LastPos(ws, i)
    {
      if OldPos(ws[2 * i + 1]) != lastPos {
        assert !ContiguousAt(ws, i);
        return false, lastPos;
      }
      lastPos := lastPos + OldKeyLen(ws[2 * i]) + OldValBytes(ws, i);
    }
    ok := true;
  }

  lemma {:induction false} LastPosGrows(ws: seq<nat>, i: nat, n: nat)
    requires i <= n && 2 * n <= |ws|
    ensures LastPos(ws, i) <= LastPos(ws, n)
  {
    if i < n {
      LastPosGrows(ws, i, n - 1);
    }
  }

  lemma {:induction false} StartsAt(ws: seq<nat>, str: Bytes, i: nat)
    requires |ws| % 2 == 0 && OldOk(ws, str) && 2 * i + 1 < |ws|
    ensures OldPos(ws[2 * i + 1]) == LastPos(ws, i)
  {
    hide LastPos;
    assert ContiguousAt(ws, i);
  }

  lemma {:induction false} OldItem(ws: seq<nat>, str: Bytes, i: nat)
    requires |ws| % 2 == 0 && OldOk(ws, str) && 2 * i + 1 < |ws|
    ensures var a, b, p := LastPos(ws, i), LastPos(ws, i + 1), OldPair(ws, str, i);
      a <= b <= |str| && ItemBytes(p) == str[a..b]
      && |p.key| == OldKeyLen(ws[2 * i]) && (p.val.None? <==> OldIsNull(ws[2 * i + 1]))
  {
    hide OldKeyLen, OldValLen, OldIsNull, OldPos, KeysGrow, Contiguous;
    LastPosGrows(ws, i + 1, |ws| / 2);
    StartsAt(ws, str, i);
    var a, k, v := LastPos(ws, i), OldKeyLen(ws[2 * i]), OldValBytes(ws, i);
    JoinSlices(str, a, k, v);
  }

  lemma {:induction false} JoinSlices(s: Bytes, a: nat, k: nat, v: nat)
    requires a + k + v <= |s|
    ensures s[a..a + k] + s[a + k..a + k + v] == s[a..a + k + v]
    ensures v == 0 ==> s[a..a + k] + [] == s[a..a + k + v]
  {
  }

  /** The bytes of an old value are the bytes of its pairs, one after the other. */
  lemma {:induction false} OldStr(ws: seq<nat>, str: Bytes, n: nat)
    requires |ws| % 2 == 0 && OldOk(ws, str) && 2 * n <= |ws|
    ensures LastPos(ws, n) <= |str| && Str(OldPairs(ws, str, n)) == str[..LastPos(ws, n)]
    decreases n
  {
    hide OldOk, OldPair, ItemBytes, OldKeyLen, OldValBytes;
    if n == 0 {
      assert str[..0] == [];
    } else {
      OldStr(ws, str, n - 1);
      OldItem(ws, str, n - 1);
      PackedMore(OldPairs(ws, str, n - 1), OldPair(ws, str, n - 1));
      var a, b := LastPos(ws, n - 1), LastPos(ws, n);
      assert str[..a] + str[a..b] == str[..b];
    }
  }

  /** The two words that the loop stores for the i-th pair. */
  lemma {:induction false} NewWords(ws: seq<nat>, str: Bytes, i: nat)
    requires |ws| % 2 == 0 && OldOk(ws, str) && 2 * i + 1 < |ws| && |str| < POS_LIMIT
    ensures var pos, klen, vlen := OldPos(ws[2 * i + 1]), OldKeyLen(ws[2 * i]), OldValBytes(ws, i);
      Words(OldPairs(ws, str, i + 1)) ==
      Words(OldPairs(ws, str, i)) +
        [EndPos(pos + klen), EndPos(pos + klen + vlen) + if OldIsNull(ws[2 * i + 1]) then NULL_FLAG else 0]
  {
    hide OldPair, ItemBytes, OldKeyLen, OldValBytes, Words, Str, OldIsNull, OldOk, OldPos;
    var ps, p := OldPairs(ws, str, i), OldPair(ws, str, i);
    OldItem(ws, str, i);
    OldStr(ws, str, i);
    PackedMore(ps, p);
    StartsAt(ws, str, i);
    LastPosGrows(ws, i + 1, |ws| / 2);
    assert OldPairs(ws, str, i + 1) == ps + [p];
  }

  /** The rewriting loop of hstoreUpgrade, where new words take the place of old ones. */
  method Rewrite(a: array<nat>, n: nat, ghost str: Bytes)
    requires 2 * n <= a.Length && OldOk(a[..2 * n], str) && |str| < POS_LIMIT
    modifies a
    ensures a[..2 * n] == Flagged(Words(OldPairs(old(a[..2 * n]), str, n)))
    ensures a[2 * n..] == old(a[2 * n..])
  {
    hide OldOk, OldPairs, OldKeyLen, OldValLen, OldIsNull, OldPos, Words, EndPos;
    ghost var was := a[..2 * n];
    assert a[..0] == Words(OldPairs(was, str, 0));
    for i := 0 to n
      invariant a[..2 * i] == Words(OldPairs(was, str, i))
      invariant forall k :: 2 * i <= k < a.Length ==> a[k] == old(a[k])
    {
      assert was[2 * i] == a[2 * i] && was[2 * i + 1] == a[2 * i + 1];
      NewWords(was, str, i);
      var pos, isNull := OldPos(a[2 * i + 1]), OldIsNull(a[2 * i + 1]);
      var keyLen, valLen := OldKeyLen(a[2 * i]), OldValLen(a[2 * i]);
      if isNull {
        valLen := 0;
      }
      PutTwo(a, 2 * i, EndPos(pos + keyLen), EndPos(pos + keyLen + valLen) + if isNull then NULL_FLAG else 0);
    }
    if n > 0 {
      a[0] := a[0] + FIRST_FLAG;
    }
  }

  method PutTwo(a: array<nat>, at: nat, x: nat, y: nat)
    requires at + 2 <= a.Length
    modifies a
    ensures a[..at + 2] == old(a[..at]) + [x, y]
    ensures forall k :: at + 2 <= k < a.Length ==> a[k] == old(a[k])
  {
    a[at], a[at + 1] := x, y;
  }

  /** The old value read as such, and read as new after the rewriting with the size set by HS_FIXSIZE. */
  lemma {:induction false} RewrittenReadsTheSame(count: nat, varsize: nat, mem: seq<nat>, str: Bytes, new': seq<nat>)
    requires Raw(count, varsize, mem, str) && ValidAsOld(count, varsize, mem, str)
    requires new' == Flagged(Words(OldPairs(mem[..2 * count], str, count)))
    ensures LastPos(mem[..2 * count], count) <= |str|
    ensures var ps, end := OldPairs(mem[..2 * count], str, count), LastPos(mem[..2 * count], count);
            var hs := HStore(HEADER + 8 * count + end, new', str[..end]);
            Packs(hs, ps) && Count(hs) == count && Decode(hs, count) == ps
  {
    hide OldPairs, Words, Str, Decode, OldOk;
    var ws := mem[..2 * count];
    OldStr(ws, str, count);
    var end := LastPos(ws, count);
    var hs := HStore(HEADER + 8 * count + end, new', str[..end]);
    assert Packs(hs, OldPairs(ws, str, count));
    DecodePacked(hs, OldPairs(ws, str, count));
  }

  // ----- the new format -----

  function NewKeyLen(ws: seq<nat>, i: nat): int
    requires 2 * i < |ws|
  {
    EndPos(ws[2 * i]) - Off(ws, 2 * i)
  }

  ghost predicate EndGrowsAt(ws: seq<nat>, j: nat)
    requires j < |ws|
  {
    j > 0 ==> !IsFirst(ws[j]) && EndPos(ws[j - 1]) <= EndPos(ws[j])
  }

  ghost predicate NewKeyOk(ws: seq<nat>, i: nat)
    requires 2 * i < |ws|
  {
    i > 0 ==> NewKeyLen(ws, i - 1) <= NewKeyLen(ws, i) && !IsNull(ws[2 * i])
  }

  ghost predicate NewOk(ws: seq<nat>, str: Bytes)
    requires |ws| % 2 == 0
  {
    ws != [] ==>
      && IsFirst(ws[0]) && EndPos(ws[|ws| - 1]) <= |str|
      && (forall j :: 0 <= j < |ws| ==> EndGrowsAt(ws, j))
      && forall i :: 0 <= i < |ws| / 2 ==> NewKeyOk(ws, i)
  }

  ghost predicate ValidAsNew(size: nat, varsize: nat, mem: seq<nat>, str: Bytes)
    requires Raw(size, varsize, mem, str)
  {
    Fits(size, varsize) && NewOk(mem[..2 * CountOf(size)], str)
  }

  /** hstoreValidNewFormat for a value without the version flag.  The last word is read before
      anything is tested, so outside the value if the count does not fit; whatever it is, the
      answer is then 0. */
  method ValidNew(size: nat, varsize: nat, mem: seq<nat>, ghost str: Bytes) returns (r: nat)
    requires Raw(size, varsize, mem, str)
    ensures r <= 2 && (r > 0 <==> ValidAsNew(size, varsize, mem, str))
    ensures r == 2 <==>
            && ValidAsNew(size, varsize, mem, str)
            && (CountOf(size) == 0 || EndPos(mem[2 * CountOf(size) - 1]) == |str|)
  {
    hide EndPos, IsFirst, IsNull, NewKeyLen;
    var count := CountOf(size);
    var ws := mem[..2 * count];
    if count == 0 {
      return 2;
    }
    var vsize := HEADER + 8 * count + EndPos(ws[2 * count - 1]);
    if !IsFirst(ws[0]) || vsize > varsize {
      return 0;
    }
    for j := 1 to 2 * count
      invariant forall k :: 0 <= k < j ==> EndGrowsAt(ws, k)
    {
      if IsFirst(ws[j]) || EndPos(ws[j]) < EndPos(ws[j - 1]) {
        assert !EndGrowsAt(ws, j);
        return 0;
      }
    }
    for i := 1 to count
      invariant forall k :: 0 <= k < i ==> NewKeyOk(ws, k)
    {
      if NewKeyLen(ws, i) < NewKeyLen(ws, i - 1) || IsNull(ws[2 * i]) {
        assert !NewKeyOk(ws, i);
        return 0;
      }
    }
    return if vsize != varsize then 1 else 2;
  }

  // ----- the upgrade -----

  /** HS_FIXSIZE: the size that the last end position asks for. */
  function FixedSize(count: nat, mem: seq<nat>): nat
    requires 2 * count <= |mem|
  {
    HEADER + 8 * count + if count == 0 then 0 else EndPos(mem[2 * count - 1])
  }

  /** The quick test for the new format, made before any validity test. */
  predicate LooksNew(size: nat, varsize: nat, mem: seq<nat>)
    requires mem != []
  {
    size > 0 && varsize < 32768 && IsFirst(mem[0])
  }

  /** hstoreUpgrade for a value without the version flag.  It is refused exactly when it is valid
      in neither format and does not pass the quick test; the words are rewritten exactly when it
      is valid as old and does not pass it; a value tested for validity does not grow. */
  method Upgrade(size: nat, varsize: nat, a: array<nat>, ghost str: Bytes) returns (ok: bool, newSize: nat)
    requires Raw(size, varsize, a[..], str)
    modifies a
    ensures var mem, count := old(a[..]), CountOf(size);
            var quick := LooksNew(size, varsize, mem);
            && (ok <==> quick || ValidAsOld(size, varsize, mem, str) || ValidAsNew(size, varsize, mem, str))
            && (ok ==> newSize == FixedSize(count, a[..]) && (quick || newSize <= varsize))
            && a[2 * count..] == mem[2 * count..]
            && if !quick && ValidAsOld(size, varsize, mem, str) && size > 0
               then && a[..2 * count] == Flagged(Words(OldPairs(mem[..2 * count], str, count)))
                    && newSize == HEADER + 8 * count + LastPos(mem[..2 * count], count)
               else a[..] == mem
  {
    hide OldOk, NewOk, IsFirst, EndPos, Words, OldPairs, LastPos;
    ghost var mem := a[..];
    var count := CountOf(size);
    if size == 0 || (varsize < 32768 && IsFirst(a[0])) {
      EmptyIsOld(varsize, mem, str);
      return true, FixedSize(count, a[..]);
    }
    var validNew := ValidNew(size, varsize, a[..], str);
    var validOld := ValidOld(size, varsize, a[..], str);
    if validOld == 0 {
      if validNew > 0 {
        NewStaysInside(size, varsize, mem, str);
      }
      return validNew > 0, FixedSize(count, a[..]);
    }
    assert a[..][..2 * count] == a[..2 * count];
    Rewrite(a, count, str);
    LastWord(count, mem[..2 * count], str, a[..2 * count]);
    return true, FixedSize(count, a[..]);
  }

  lemma {:induction false} EmptyIsOld(varsize: nat, mem: seq<nat>, str: Bytes)
    ensures Raw(0, varsize, mem, str) ==> ValidAsOld(0, varsize, mem, str) && FixedSize(0, mem) <= varsize
  {
  }

  lemma {:induction false} NewStaysInside(size: nat, varsize: nat, mem: seq<nat>, str: Bytes)
    requires Raw(size, varsize, mem, str) && ValidAsNew(size, varsize, mem, str)
    ensures FixedSize(CountOf(size), mem) <= varsize
  {
  }

  lemma {:induction false} LastWord(count: nat, ws: seq<nat>, str: Bytes, new': seq<nat>)
    requires count > 0 && |ws| == 2 * count && OldOk(ws, str) && |str| < POS_LIMIT
    requires new' == Flagged(Words(OldPairs(ws, str, count)))
    ensures |new'| == 2 * count && EndPos(new'[2 * count - 1]) == LastPos(ws, count) <= |str|
  {
    hide OldPairs, Words, Str, OldOk, EndPos;
    var ps := OldPairs(ws, str, count);
    OldStr(ws, str, count);
    WordsAt(ps, count - 1);
    StrMore(ps, count - 1);
    assert ps[..count] == ps;
    FlagsRead(|Str(ps)|, ps[count - 1].val.None?, false);
  }

  /** A valid old value is taken for a new one by the quick test exactly when its first value is null and
      yet carries a length of 32768 or more. */
  lemma {:induction false} QuickTestMistakesOldIff(count: nat, varsize: nat, mem: seq<nat>, str: Bytes)
    requires Raw(count, varsize, mem, str) && ValidAsOld(count, varsize, mem, str) && count > 0
    requires mem[0] < 0x1_0000_0000
    ensures LooksNew(count, varsize, mem) <==> varsize < 32768 && OldIsNull(mem[1]) && OldValLen(mem[0]) >= 32768
  {
    hide Contiguous, KeysGrow;
    var ws := mem[..2 * count];
    LastPosGrows(ws, 1, count);
    assert LastPos(ws, 1) == OldKeyLen(ws[0]) + OldValBytes(ws, 0);
    assert IsFirst(ws[0]) <==> OldValLen(ws[0]) >= 32768;
  }

  /** The bytes of a value that its size leaves. */
  function Kept(str: Bytes, size: nat, count: nat): Bytes {
    if HEADER + 8 * count <= size <= HEADER + 8 * count + |str| then str[..size - HEADER - 8 * count] else str
  }

  /** What Upgrade leaves of a valid old value decodes to the old pairs if and only if the quick test did not take it
      for a new one: a value so taken has its first value read as not null. */
  lemma {:induction false} UpgradedReadsOldIff(count: nat, varsize: nat, mem: seq<nat>, str: Bytes, after: seq<nat>)
    requires Raw(count, varsize, mem, str) && ValidAsOld(count, varsize, mem, str)
    requires |after| == 2 * count
    requires after == if LooksNew(count, varsize, mem) || count == 0 then mem[..2 * count]
                      else Flagged(Words(OldPairs(mem[..2 * count], str, count)))
    ensures var hs := HStore(FixedSize(count, after), after, Kept(str, FixedSize(count, after), count));
            Decode(hs, count) == OldPairs(mem[..2 * count], str, count) <==> !LooksNew(count, varsize, mem)
  {
    hide OldPairs, Words, Decode, OldOk, EndPos, OldPair, IsFirst, LastPos;
    var ws := mem[..2 * count];
    var hs := HStore(FixedSize(count, after), after, Kept(str, FixedSize(count, after), count));
    if count == 0 {
      NothingToDecode(hs, ws, str);
    } else if LooksNew(count, varsize, mem) {
      FirstIsMisread(count, varsize, mem, str);
      FirstDecoded(hs, count);
      FirstOldPair(ws, str, count);
    } else {
      LastWord(count, ws, str, after);
      RewrittenReadsTheSame(count, varsize, mem, str, after);
    }
  }

  lemma {:induction false} NothingToDecode(hs: HStore, ws: seq<nat>, str: Bytes)
    ensures Decode(hs, 0) == [] && OldPairs(ws, str, 0) == []
  {
  }

  lemma {:induction false} FirstDecoded(hs: HStore, n: nat)
    requires 0 < n <= Count(hs)
    ensures Decode(hs, n)[0] == Pair(KeyOf(hs, 0), ValOf(hs, 0))
  {
    hide KeyOf, ValOf;
    if n > 1 { FirstDecoded(hs, n - 1); }
  }

  lemma {:induction false} FirstOldPair(ws: seq<nat>, str: Bytes, n: nat)
    requires 0 < n && 2 * n <= |ws|
    ensures OldPairs(ws, str, n)[0] == OldPair(ws, str, 0)
  {
    hide OldPair;
    if n > 1 { FirstOldPair(ws, str, n - 1); }
  }

  lemma {:induction false} FirstIsMisread(count: nat, varsize: nat, mem: seq<nat>, str: Bytes)
    requires Raw(count, varsize, mem, str) && ValidAsOld(count, varsize, mem, str) && LooksNew(count, varsize, mem)
    ensures OldPair(mem[..2 * count], str, 0).val.None? && !IsNull(mem[1])
  {
    hide KeysGrow;
    var ws := mem[..2 * count];
    LastPosGrows(ws, 1, count);
    assert LastPos(ws, 1) == OldKeyLen(ws[0]) + OldValBytes(ws, 0);
    assert OldValLen(ws[0]) >= 32768;
    assert ContiguousAt(ws, 0);
    assert ws[1] == 1;
  }

  /** One pair with an empty key and a null that carries the length 32768. */
  lemma {:induction false} OldValueMisread()
    ensures var mem := [0x8000_0000, 1];
            && Raw(1, 16, mem, []) && ValidAsOld(1, 16, mem, []) && LooksNew(1, 16, mem)
            && OldPairs(mem, [], 1) == [Pair([], None)]
            && Decode(HStore(FixedSize(1, mem), mem, []), 1) == [Pair([], Some([]))]
  {
    var mem := [0x8000_0000, 1];
    assert mem[..2] == mem && LastPos(mem, 0) == 0 && LastPos(mem, 1) == 0;
    assert ContiguousAt(mem, 0) && KeyGrowsAt(mem, 0);
    var hs := HStore(FixedSize(1, mem), mem, []);
    assert OldPairs(mem, [], 0) == [] && Decode(hs, 0) == [];
    assert KeyOf(hs, 0) == [] && ValOf(hs, 0) == Some([]);
  }
}
