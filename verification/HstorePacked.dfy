/**
 * The stored form of hstore.h: one entry word for each key and each value, holding the end
 * position of its bytes and two flags, followed by all the bytes.
 */
module HstorePacked {
  import opened Options
  import opened ByteStrings
  import opened HstoreText

  const POS_LIMIT: nat := 0x4000_0000
  const NULL_FLAG: nat := 0x4000_0000
  const FIRST_FLAG: nat := 0x8000_0000
  const HEADER: nat := 8

  function EndPos(w: nat): nat { w % POS_LIMIT }
  predicate IsNull(w: nat) { (w / NULL_FLAG) % 2 == 1 }
  predicate IsFirst(w: nat) { (w / FIRST_FLAG) % 2 == 1 }

  datatype HStore = HStore(varsize: nat, words: seq<nat>, str: Bytes)

  function Count(hs: HStore): nat { |hs.words| / 2 }

  /** HSE_OFF: where the bytes of an entry start. */
  function Off(words: seq<nat>, j: nat): nat
    requires j < |words|
  {
    if IsFirst(words[j]) || j == 0 then 0 else EndPos(words[j - 1])
  }

  /** The bytes of an entry; its length is HSE_LEN. */
  function Slot(hs: HStore, j: nat): Bytes
    requires j < |hs.words|
  {
    var a, b := Off(hs.words, j), EndPos(hs.words[j]);
    if a <= b <= |hs.str| then hs.str[a..b] else []
  }

  function KeyOf(hs: HStore, i: nat): Bytes
    requires i < Count(hs)
  {
    Slot(hs, 2 * i)
  }

  function ValOf(hs: HStore, i: nat): Option<Bytes>
    requires i < Count(hs)
  {
    if IsNull(hs.words[2 * i + 1]) then None else Some(Slot(hs, 2 * i + 1))
  }

  // ----- the stored form of a list of pairs -----

  function ItemBytes(p: Pair): Bytes { p.key + if p.val.None? then [] else p.val.value }

  function Str(ps: seq<Pair>): Bytes
    decreases |ps|
  {
    if ps == [] then [] else Str(ps[..|ps| - 1]) + ItemBytes(ps[|ps| - 1])
  }

  function KeyWord(ps: seq<Pair>, i: nat): nat
    requires i < |ps|
  {
    |Str(ps[..i])| + |ps[i].key|
  }

  function ValWord(ps: seq<Pair>, i: nat): nat
    requires i < |ps|
  {
    |Str(ps[..i])| + |ItemBytes(ps[i])| + if ps[i].val.None? then NULL_FLAG else 0
  }

  /** The entry words before the first one is flagged. */
  function Words(ps: seq<Pair>): (ws: seq<nat>)
    ensures |ws| == 2 * |ps|
    decreases |ps|
  {
    if ps == [] then []
    else
      var n := |ps| - 1;
      Words(ps[..n]) + [KeyWord(ps, n), ValWord(ps, n)]
  }

  function Flagged(ws: seq<nat>): seq<nat> {
    if ws == [] then [] else ws[0 := ws[0] + FIRST_FLAG]
  }

  /** hs is the stored form of ps, with the exact size. */
  ghost predicate Packs(hs: HStore, ps: seq<Pair>) {
    && hs.words == Flagged(Words(ps)) && hs.str == Str(ps)
    && |hs.str| < POS_LIMIT && hs.varsize == HEADER + 8 * |ps| + |hs.str|
  }

  lemma {:induction false} WordsAt(ps: seq<Pair>, i: nat)
    requires i < |ps|
    ensures Words(ps)[2 * i] == KeyWord(ps, i) && Words(ps)[2 * i + 1] == ValWord(ps, i)
    decreases |ps|
  {
    var n := |ps| - 1;
    if i < n {
      WordsAt(ps[..n], i);
      assert ps[..n][..i] == ps[..i];
    }
  }

  lemma {:induction false} StrPrefix(ps: seq<Pair>, i: nat)
    requires i <= |ps|
    ensures |Str(ps[..i])| <= |Str(ps)| && Str(ps)[..|Str(ps[..i])|] == Str(ps[..i])
    decreases |ps|
  {
    var n := |ps| - 1;
    if i <= n {
      StrPrefix(ps[..n], i);
      assert ps[..n][..i] == ps[..i];
    } else {
      assert ps[..i] == ps;
    }
  }

  lemma {:induction false} StrMore(ps: seq<Pair>, i: nat)
    requires i < |ps|
    ensures Str(ps[..i + 1]) == Str(ps[..i]) + ItemBytes(ps[i])
  {
    assert ps[..i + 1][..i] == ps[..i];
  }

  /** Where the bytes of the i-th pair stand. */
  lemma {:induction false} ItemStands(ps: seq<Pair>, i: nat)
    requires i < |ps|
    ensures var a, b := |Str(ps[..i])|, |Str(ps[..i])| + |ItemBytes(ps[i])|;
      b <= |Str(ps)| && Str(ps)[a..b] == ItemBytes(ps[i]) && |Str(ps[..i + 1])| == b
  {
    hide Str;
    StrMore(ps, i);
    StrPrefix(ps, i);
    StrPrefix(ps, i + 1);
    var a, b := |Str(ps[..i])|, |Str(ps[..i + 1])|;
    assert Str(ps)[a..b] == Str(ps)[..b][a..];
  }

  lemma {:induction false} FlagsRead(pos: nat, isNull: bool, isFirst: bool)
    requires pos < POS_LIMIT
    ensures var w := pos + (if isNull then NULL_FLAG else 0) + (if isFirst then FIRST_FLAG else 0);
      EndPos(w) == pos && IsNull(w) == isNull && IsFirst(w) == isFirst
  {
  }

  /** The macros read the words of the i-th pair right. */
  lemma {:induction false} WordsRead(hs: HStore, ps: seq<Pair>, i: nat)
    requires Packs(hs, ps) && i < |ps|
    ensures |hs.words| == 2 * |ps| && Count(hs) == |ps|
    ensures EndPos(hs.words[2 * i]) == KeyWord(ps, i) && (IsFirst(hs.words[2 * i]) <==> i == 0)
    ensures EndPos(hs.words[2 * i + 1]) == |Str(ps[..i])| + |ItemBytes(ps[i])| && !IsFirst(hs.words[2 * i + 1])
    ensures IsNull(hs.words[2 * i + 1]) <==> ps[i].val.None?
  {
    hide Str, Words, EndPos, IsNull, IsFirst;
    WordsAt(ps, i);
    ItemStands(ps, i);
    FlagsRead(KeyWord(ps, i), false, i == 0);
    FlagsRead(|Str(ps[..i])| + |ItemBytes(ps[i])|, ps[i].val.None?, false);
  }

  /** Reading a stored pair gives the pair. */
  lemma {:induction false} ItemRead(hs: HStore, ps: seq<Pair>, i: nat)
    requires Packs(hs, ps) && i < |ps|
    ensures Count(hs) == |ps| && KeyOf(hs, i) == ps[i].key && ValOf(hs, i) == ps[i].val
    ensures Off(hs.words, 2 * i) == |Str(ps[..i])|
  {
    hide Str, Words, EndPos, IsNull, IsFirst, Packs, ItemBytes;
    WordsRead(hs, ps, i);
    KeyFits(ps[i]);
    StrOf(hs, ps);
    ItemStands(ps, i);
    if i > 0 {
      WordsRead(hs, ps, i - 1);
      ItemStands(ps, i - 1);
    } else {
      assert Str(ps[..0]) == [] by { StrOfNone(ps); }
    }
    SplitItem(hs.str, |Str(ps[..i])|, ps[i]);
  }

  lemma {:induction false} SplitItem(s: Bytes, a: nat, p: Pair)
    requires a + |ItemBytes(p)| <= |s| && s[a..a + |ItemBytes(p)|] == ItemBytes(p)
    ensures s[a..a + |p.key|] == p.key
    ensures p.val.Some? ==> s[a + |p.key|..a + |ItemBytes(p)|] == p.val.value
  {
    var n := |p.key|;
    var item := s[a..a + |ItemBytes(p)|];
    assert item[..n] == s[a..a + n] && item[n..] == s[a + n..a + |ItemBytes(p)|];
  }

  lemma {:induction false} KeyFits(p: Pair)
    ensures |p.key| <= |ItemBytes(p)|
  {
  }

  lemma {:induction false} StrOf(hs: HStore, ps: seq<Pair>)
    requires Packs(hs, ps)
    ensures hs.str == Str(ps)
  {
  }

  lemma {:induction false} StrOfNone(ps: seq<Pair>)
    ensures Str(ps[..0]) == []
  {
  }

  /** The pairs of a stored value. */
  function Decode(hs: HStore, n: nat): (ps: seq<Pair>)
    requires n <= Count(hs)
    ensures |ps| == n
  {
    if n == 0 then [] else Decode(hs, n - 1) + [Pair(KeyOf(hs, n - 1), ValOf(hs, n - 1))]
  }

  lemma {:induction false} DecodePrefix(hs: HStore, ps: seq<Pair>, n: nat)
    requires Packs(hs, ps) && n <= |ps| <= Count(hs)
    ensures Decode(hs, n) == ps[..n]
  {
    hide Packs, KeyOf, ValOf;
    if n > 0 {
      DecodePrefix(hs, ps, n - 1);
      ItemRead(hs, ps, n - 1);
    }
  }

  /** Packing and decoding are inverse to each other. */
  lemma {:induction false} DecodePacked(hs: HStore, ps: seq<Pair>)
    requires Packs(hs, ps)
    ensures Count(hs) == |ps| && Decode(hs, Count(hs)) == ps
  {
    assert |Words(ps)| == 2 * |ps|;
    DecodePrefix(hs, ps, |ps|);
    assert ps[..|ps|] == ps;
  }
}
