/**
 * Building a stored value in place: HS_ADDITEM, HS_COPYITEM and HS_FINALIZE.  The memory is one
 * array of bytes, the entry words first, four bytes each as on little-endian machines, and the
 * string bytes after the room reserved for words.
 */
module HstoreBuild {
  import opened Options
  import opened ByteStrings
  import opened HstoreText
  import opened HstorePacked

  /** Bytes that a list of pairs takes. */
  function Size(ps: seq<Pair>): nat
    decreases |ps|
  {
    if ps == [] then 0 else |ItemBytes(ps[0])| + Size(ps[1..])
  }

  lemma {:induction false} SizeMore(ps: seq<Pair>, p: Pair)
    ensures Size(ps + [p]) == Size(ps) + |ItemBytes(p)|
    decreases |ps|
  {
    hide ItemBytes;
    if ps == [] {
      assert [p][1..] == [] && ps + [p] == [p];
    } else {
      SizeMore(ps[1..], p);
      assert (ps + [p])[1..] == ps[1..] + [p];
    }
  }

  lemma {:induction false} StrSize(ps: seq<Pair>)
    ensures |Str(ps)| == Size(ps)
    decreases |ps|
  {
    hide ItemBytes;
    if ps != [] {
      var n := |ps| - 1;
      StrSize(ps[..n]);
      SizeMore(ps[..n], ps[n]);
      assert ps[..n] + [ps[n]] == ps;
    }
  }

  lemma {:induction false} PackedMore(ps: seq<Pair>, p: Pair)
    ensures Str(ps + [p]) == Str(ps) + ItemBytes(p)
    ensures Words(ps + [p]) == Words(ps) + [|Str(ps)| + |p.key|,
                                            |Str(ps)| + |ItemBytes(p)| + if p.val.None? then NULL_FLAG else 0]
  {
    hide ItemBytes;
    var all := ps + [p];
    assert all[..|ps|] == ps && all[|ps|] == p;
  }

  lemma {:induction false} EndFits(pos: nat)
    requires pos < POS_LIMIT
    ensures EndPos(pos) == pos
  {
  }

  // ----- words in memory -----

  const WORD_LIMIT: nat := 0x1_0000_0000

  function WordBytes(w: nat): (b: Bytes)
    ensures |b| == 4
  {
    [w % 256, w / 256 % 256, w / 0x1_0000 % 256, w / 0x100_0000 % 256]
  }

  function WordAt(b: Bytes): nat
    requires |b| == 4
  {
    b[0] as nat + 256 * (b[1] as nat) + 0x1_0000 * (b[2] as nat) + 0x100_0000 * (b[3] as nat)
  }

  lemma {:induction false} WordRead(w: nat)
    requires w < WORD_LIMIT
    ensures WordAt(WordBytes(w)) == w
  {
  }

  /** The bytes of a list of words. */
  function Laid(ws: seq<nat>): (b: Bytes)
    ensures |b| == 4 * |ws|
  {
    if ws == [] then [] else Laid(ws[..|ws| - 1]) + WordBytes(ws[|ws| - 1])
  }

  function Loaded(b: Bytes, n: nat): (ws: seq<nat>)
    requires |b| == 4 * n
    ensures |ws| == n
  {
    if n == 0 then [] else Loaded(b[..4 * (n - 1)], n - 1) + [WordAt(b[4 * (n - 1)..])]
  }

  ghost predicate Small(ws: seq<nat>) { forall i :: 0 <= i < |ws| ==> ws[i] < WORD_LIMIT }

  lemma {:induction false} LoadedLaid(ws: seq<nat>)
    requires Small(ws)
    ensures Loaded(Laid(ws), |ws|) == ws
    decreases |ws|
  {
    hide WordBytes, WordAt;
    if ws != [] {
      var n := |ws| - 1;
      LoadedLaid(ws[..n]);
      WordRead(ws[n]);
      assert Laid(ws)[..4 * n] == Laid(ws[..n]) && Laid(ws)[4 * n..] == WordBytes(ws[n]);
    }
  }

  lemma {:induction false} LaidMore(ws: seq<nat>, w: nat)
    ensures Laid(ws + [w]) == Laid(ws) + WordBytes(w)
  {
    assert (ws + [w])[..|ws|] == ws;
  }

  /** The first word stands in the first four bytes. */
  lemma {:induction false} LaidFirst(ws: seq<nat>, w: nat)
    requires ws != []
    ensures Laid(ws)[..4] == WordBytes(ws[0]) && Laid(ws[0 := w]) == WordBytes(w) + Laid(ws)[4..]
    decreases |ws|
  {
    hide WordBytes;
    var n := |ws| - 1;
    if n > 0 {
      LaidFirst(ws[..n], w);
      assert ws[0 := w][..n] == ws[..n][0 := w];
      assert Laid(ws)[4..] == Laid(ws[..n])[4..] + WordBytes(ws[n]);
    } else {
      assert ws[..0] == [] && ws[0 := w][..0] == [];
    }
  }

  /** No word of a value that fits reaches the flag of the first one. */
  lemma {:induction false} WordsAreSmall(ps: seq<Pair>)
    requires |Str(ps)| < POS_LIMIT
    ensures forall j :: 0 <= j < |Words(ps)| ==> Words(ps)[j] < FIRST_FLAG
  {
    hide Words, Str, ItemBytes;
    forall j | 0 <= j < |Words(ps)| ensures Words(ps)[j] < FIRST_FLAG {
      var i := j / 2;
      WordsAt(ps, i);
      ItemStands(ps, i);
      KeyIsInside(ps[i]);
    }
  }

  lemma {:induction false} KeyIsInside(p: Pair)
    ensures |p.key| <= |ItemBytes(p)|
  {
  }

  class Builder {
    const mem: array<byte>
    /** Where the bytes start: behind the words of the count set for the time of building. */
    const base: nat
    var words: nat
    var bytes: nat
    ghost var items: seq<Pair>

    constructor (count: nat, room: nat)
      ensures Valid() && items == [] && base == 8 * count && fresh(mem) && mem.Length == base + room
    {
      mem := new byte[8 * count + room];
      base, words, bytes, items := 8 * count, 0, 0, [];
    }

    /** The words in use, and the bytes written so far. */
    ghost predicate Contains(ws: seq<nat>, str: Bytes)
      reads this`words, this`bytes, mem
    {
      && words == |ws| && 4 * words <= base && bytes == |str| && base + bytes <= mem.Length
      && mem[..4 * words] == Laid(ws) && mem[base..base + bytes] == str
    }

    ghost predicate Valid()
      reads this, mem
    {
      Contains(Words(items), Str(items))
    }

    lemma {:induction false} Start()
      requires Valid() && items == []
      ensures words == 0 && bytes == 0
    {
    }

    /** memcpy to the end of the bytes written so far. */
    method Append(src: Bytes, ghost ws: seq<nat>, ghost str: Bytes)
      requires Contains(ws, str) && base + bytes + |src| <= mem.Length
      modifies mem, `bytes
      ensures Contains(ws, str + src)
    {
      hide Laid;
      var at := base + bytes;
      for k := 0 to |src|
        invariant bytes == |str| && mem[..4 * words] == Laid(ws) && mem[base..at + k] == str + src[..k]
      {
        mem[at + k] := src[k];
        assert mem[base..at + k + 1] == mem[base..at + k] + [src[k]];
      }
      assert src[..|src|] == src;
      bytes := bytes + |src|;
    }

    /** Stores one word behind the ones in use. */
    method PutWord(w: nat, ghost ws: seq<nat>, ghost str: Bytes)
      requires Contains(ws, str) && 4 * words + 4 <= base
      modifies mem, `words
      ensures Contains(ws + [w], str)
    {
      hide Laid, WordBytes;
      var at, b := 4 * words, WordBytes(w);
      mem[at], mem[at + 1], mem[at + 2], mem[at + 3] := b[0], b[1], b[2], b[3];
      LaidMore(ws, w);
      assert mem[..at + 4] == Laid(ws) + b;
      assert mem[base..base + bytes] == str;
      words := words + 1;
    }

    /** Adds an item whose bytes stand together in `src`: HS_COPYITEM, and HS_ADDITEM with its two copies at once. */
    method AddItem(src: Bytes, keyLen: nat, isNull: bool, ghost p: Pair)
      requires Valid() && 4 * words + 8 <= base && base + bytes + |src| <= mem.Length
      requires bytes + |src| < POS_LIMIT
      requires src == ItemBytes(p) && keyLen == |p.key| <= |src| && isNull == p.val.None?
      modifies this, mem
      ensures Valid() && items == old(items) + [p]
      ensures words == old(words) + 2 && bytes == old(bytes) + |src|
    {
      hide Str, Words, ItemBytes, EndPos, Contains;
      ghost var ws, str := Words(items), Str(items);
      Lengths(ws, str);
      EndFits(bytes + keyLen);
      EndFits(bytes + |src|);
      PackedMore(items, p);
      var k, v := EndPos(bytes + keyLen), EndPos(bytes + |src|) + if isNull then NULL_FLAG else 0;
      Append(src, ws, str);
      Lengths(ws, str + src);
      PutWord(k, ws, str + src);
      Lengths(ws + [k], str + src);
      PutWord(v, ws + [k], str + src);
      Lengths(ws + [k] + [v], str + src);
      assert ws + [k] + [v] == ws + [k, v];
      items := items + [p];
    }

    lemma {:induction false} Lengths(ws: seq<nat>, str: Bytes)
      requires Contains(ws, str)
      ensures words == |ws| && bytes == |str|
    {
    }

    /** HS_FINALIZE: flags the first word, closes the gap before the bytes and sets the exact size. */
    method Finalize() returns (hs: HStore)
      requires Valid() && bytes < POS_LIMIT
      modifies mem
      ensures Packs(hs, items)
      ensures 4 * words + bytes <= mem.Length && hs.words == Loaded(mem[..4 * words], words)
      ensures hs.str == mem[4 * words..4 * words + bytes]
    {
      hide Str, Words, Laid, Loaded;
      ghost var ws, str := Words(items), Str(items);
      WordsAreSmall(items);
      if words > 0 {
        FlagFirst(ws, str);
      }
      LoadedLaid(Flagged(ws));
      if 4 * words != base {
        CloseGap(Flagged(ws), str);
      }
      hs := HStore(HEADER + 8 * (words / 2) + bytes, Loaded(mem[..4 * words], words),
                   mem[4 * words..4 * words + bytes]);
    }

    method FlagFirst(ghost ws: seq<nat>, ghost str: Bytes)
      requires Contains(ws, str) && ws != [] && ws[0] < FIRST_FLAG
      modifies mem
      ensures Contains(Flagged(ws), str)
    {
      hide Laid, WordBytes, WordAt;
      WordRead(ws[0]);
      LaidFirst(ws, ws[0] + FIRST_FLAG);
      assert mem[..4] == mem[..4 * words][..4];
      var b := WordBytes(WordAt(mem[..4]) + FIRST_FLAG);
      mem[0], mem[1], mem[2], mem[3] := b[0], b[1], b[2], b[3];
      assert mem[..4 * words] == b + Laid(ws)[4..];
      assert mem[base..base + bytes] == str;
    }

    method CloseGap(ghost ws: seq<nat>, ghost str: Bytes)
      requires Contains(ws, str)
      modifies mem
      ensures mem[..4 * words] == Laid(ws) && mem[4 * words..4 * words + bytes] == str
    {
      hide Laid;
      assert forall a :: base <= a < base + bytes ==> mem[a] == mem[base..base + bytes][a - base];
      MoveDown(str);
      assert mem[..4 * words] == Laid(ws) && mem[4 * words..4 * words + bytes] == str;
    }

    /** memmove of the bytes to the end of the words in use. */
    method MoveDown(ghost str: Bytes)
      requires 4 * words <= base && bytes == |str| && base + bytes <= mem.Length
      requires forall a :: base <= a < base + bytes ==> mem[a] == str[a - base]
      modifies mem
      ensures forall a :: 0 <= a < 4 * words ==> mem[a] == old(mem[a])
      ensures forall a :: 4 * words <= a < 4 * words + bytes ==> mem[a] == str[a - 4 * words]
    {
      var to := 4 * words;
      for k := 0 to bytes
        invariant forall a :: 0 <= a < to ==> mem[a] == old(mem[a])
        invariant forall a :: to <= a < to + k ==> mem[a] == str[a - to]
        invariant forall a :: base + k <= a < base + bytes ==> mem[a] == str[a - base]
      {
        mem[to + k] := mem[base + k];
      }
    }
  }
}
