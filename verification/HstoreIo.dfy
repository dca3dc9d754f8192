/** The loops of hstore_io.c that read and write text, proved against HstoreText. */
module HstoreIo {
  import opened Options
  import opened ByteStrings
  import opened HstoreText

  /** The parser state: the text, the read position and the pairs read so far. */
  class HSParser {
    const begin: Bytes
    var ptr: nat
    var pairs: seq<Pair>

    constructor (text: Bytes)
      ensures begin == text && Valid() && Rest() == text && pairs == []
    {
      begin, ptr, pairs := text, 0, [];
    }

    ghost predicate Valid()
      reads this
    {
      ptr <= |begin|
    }

    /** The text still to be read. */
    ghost function Rest(): Bytes
      requires Valid()
      reads this
    {
      begin[ptr..]
    }

    /** get_val: reads one word and leaves the position behind it. */
    method GetWord(stopAtEquals: bool) returns (found: bool, bad: bool, word: Bytes, quoted: bool)
      requires Valid()
      modifies `ptr
      ensures Valid() && !(found && bad)
      ensures var w := GetVal(old(Rest()), stopAtEquals, WaitVal, [], false);
        && (found <==> w.Word?) && (bad <==> w.BadWord?)
        && (found ==> w == Word(word, quoted, Rest()))
    {
      var st := WaitVal;
      found, bad, word, quoted := false, false, [], false;
      while true
        invariant Valid() && !found && !bad
        invariant GetVal(old(Rest()), stopAtEquals, WaitVal, [], false) ==
                  GetVal(Rest(), stopAtEquals, st, word, quoted)
        decreases |begin| - ptr
      {
        var c := if ptr < |begin| then begin[ptr] else NUL;
        assert c == At(Rest());
        if c == NUL {
          found, bad := st == InVal, st != WaitVal && st != InVal;
          return;
        }
        assert begin[ptr..][1..] == begin[ptr + 1..];
        if st == WaitVal {
          if c == QUOTE {
            st, quoted := InQuoted, true;
          } else if c == EQUALS && stopAtEquals {
            bad := true;
            return;
          } else if c == BACKSLASH {
            st := Escaped;
          } else if !IsSpace(c) {
            st, word := InVal, word + [c];
          }
        } else if st == InVal {
          if c == BACKSLASH {
            st := Escaped;
          } else if (c == EQUALS && stopAtEquals) || (c == COMMA && !stopAtEquals) {
            found := true;
            return;
          } else if IsSpace(c) {
            found, ptr := true, ptr + 1;
            return;
          } else {
            word := word + [c];
          }
        } else if st == InQuoted {
          if c == BACKSLASH {
            st := EscapedInQuoted;
          } else if c == QUOTE {
            found, ptr := true, ptr + 1;
            return;
          } else {
            word := word + [c];
          }
        } else {
          st, word := if st == Escaped then InVal else InQuoted, word + [c];
        }
        ptr := ptr + 1;
      }
    }

    /** parse_hstore. */
    method ParsePairs() returns (ok: bool)
      requires Valid() && ptr == 0 && pairs == []
      modifies this
      ensures ParseHstore(begin) == if ok then Ok(pairs) else SyntaxError
    {
      hide GetVal;
      var st := Key;
      assert begin[0..] == begin;
      while true
        invariant Valid()
        invariant ParseHstore(begin) == Parse(Rest(), st, pairs)
        decreases |begin| - ptr
      {
        if st.Key? || st.Value? {
          var found, bad, word, quoted := GetWord(st.Key?);
          if !found || |word| > MAX_LEN {
            return st.Key? && !found && !bad;
          }
          if st.Key? {
            st := Equals(word);
          } else {
            var isNull := SpellsNull(Word(word, quoted, []));
            pairs := pairs + [Pair(st.key, if isNull then None else Some(word))];
            st := Delimiter;
          }
        } else {
          var c := if ptr < |begin| then begin[ptr] else NUL;
          assert c == At(Rest());
          if c == NUL {
            return st.Delimiter?;
          }
          assert begin[ptr..][1..] == begin[ptr + 1..];
          if st.Equals? && c == EQUALS {
            st := Arrow(st.key);
          } else if st.Arrow? && c == GREATER {
            st := Value(st.key);
          } else if st.Delimiter? && c == COMMA {
            st := Key;
          } else if st.Arrow? || !IsSpace(c) {
            return false;
          }
          ptr := ptr + 1;
        }
      }
    }
  }

  /** Writes bytes at `ptr` and returns the position behind them. */
  method Put(out: array<byte>, ptr: nat, bytes: Bytes) returns (end: nat)
    requires ptr + |bytes| <= out.Length
    modifies out
    ensures end == ptr + |bytes| && out[..end] == old(out[..ptr]) + bytes
  {
    end := ptr;
    var i := 0;
    while i < |bytes|
      invariant i <= |bytes| && end == ptr + i
      invariant out[..end] == old(out[..ptr]) + bytes[..i]
    {
      out[end] := bytes[i];
      end, i := end + 1, i + 1;
    }
  }

  function EscapeByte(b: byte): Bytes { if b == QUOTE || b == BACKSLASH then [BACKSLASH, b] else [b] }

  lemma {:induction false} EscapeMore(src: Bytes, i: nat)
    requires i < |src|
    ensures Escape(src[..i + 1]) == Escape(src[..i]) + EscapeByte(src[i])
    decreases |src|
  {
    var s := src[..i + 1];
    if i == 0 {
      assert s[1..] == [] && src[..0] == [];
    } else {
      EscapeMore(src[1..], i - 1);
      assert s[1..] == src[1..][..i] && src[..i][1..] == src[1..][..i - 1];
    }
  }

  /** cpw: writes the escaped bytes at `ptr` and returns the position behind them. */
  method CopyEscaped(out: array<byte>, ptr: nat, src: Bytes) returns (end: nat)
    requires ptr + 2 * |src| <= out.Length
    modifies out
    ensures end <= ptr + 2 * |src| && out[..end] == old(out[..ptr]) + Escape(src)
  {
    hide Escape;
    ghost var base := out[..ptr];
    end := ptr;
    var i := 0;
    EscapeNothing(base, src);
    while i < |src|
      invariant i <= |src| && end <= ptr + 2 * i
      invariant out[..end] == base + Escape(src[..i])
    {
      EscapeMore(src, i);
      Regroup(base, Escape(src[..i]), EscapeByte(src[i]));
      end := Put(out, end, EscapeByte(src[i]));
      i := i + 1;
    }
    assert src[..i] == src;
  }

  lemma {:induction false} EscapeNothing(base: Bytes, src: Bytes)
    ensures base + Escape(src[..0]) == base
  {
  }

  lemma {:induction false} Regroup(a: Bytes, b: Bytes, c: Bytes)
    ensures a + b + c == a + (b + c)
  {
  }

  /** What one turn of the output loop needs at most, with the separator. */
  function Needed(p: Pair): nat {
    8 + 2 * |p.key| + if p.val.None? then 2 else 2 * |p.val.value|
  }

  /** Writes a key and the arrow. */
  method PutKey(out: array<byte>, ptr: nat, key: Bytes) returns (end: nat)
    requires ptr + 4 + 2 * |key| <= out.Length
    modifies out
    ensures end <= ptr + 4 + 2 * |key| && out[..end] == old(out[..ptr]) + (Quoted(key) + [EQUALS, GREATER])
  {
    hide Escape;
    ghost var base := out[..ptr];
    end := PutQuoted(out, ptr, key);
    end := Put(out, end, [EQUALS, GREATER]);
    Regroup(base, Quoted(key), [EQUALS, GREATER]);
  }

  method PutQuoted(out: array<byte>, ptr: nat, s: Bytes) returns (end: nat)
    requires ptr + 2 + 2 * |s| <= out.Length
    modifies out
    ensures end <= ptr + 2 + 2 * |s| && out[..end] == old(out[..ptr]) + Quoted(s)
  {
    hide Escape;
    ghost var base := out[..ptr];
    end := Put(out, ptr, [QUOTE]);
    end := CopyEscaped(out, end, s);
    end := Put(out, end, [QUOTE]);
    assert base + [QUOTE] + Escape(s) + [QUOTE] == base + Quoted(s) by {
      Regroup(base, [QUOTE], Escape(s));
      Regroup(base, [QUOTE] + Escape(s), [QUOTE]);
    }
  }

  /** One turn of the output loop, without the separator. */
  method PutPair(out: array<byte>, ptr: nat, p: Pair) returns (end: nat)
    requires ptr + Needed(p) <= out.Length + 2
    modifies out
    ensures end + 2 <= ptr + Needed(p) && out[..end] == old(out[..ptr]) + PairText(p)
  {
    hide Quoted;
    ghost var base := out[..ptr];
    end := PutKey(out, ptr, p.key);
    if p.val.None? {
      end := Put(out, end, NULL_WORD);
      Regroup(base, Quoted(p.key) + [EQUALS, GREATER], NULL_WORD);
    } else {
      end := PutQuoted(out, end, p.val.value);
      Regroup(base, Quoted(p.key) + [EQUALS, GREATER], Quoted(p.val.value));
    }
  }

  /** The first loop of hstore_out. */
  method SizeOf(pairs: seq<Pair>) returns (size: nat)
    ensures size == BufferSize(pairs)
  {
    size := 0;
    assert pairs[0..] == pairs;
    for i := 0 to |pairs|
      invariant size + BufferSize(pairs[i..]) == BufferSize(pairs)
    {
      assert pairs[i..][1..] == pairs[i + 1..];
      size := size + 6 + 2 * |pairs[i].key|;
      size := size + 2 + (if pairs[i].val.None? then 2 else 2 * |pairs[i].val.value|);
    }
  }

  function Separator(last: bool): Bytes { if last then [] else [COMMA, BLANK] }

  lemma {:induction false} TextStep(done: Bytes, pairs: seq<Pair>, i: nat)
    requires i < |pairs|
    ensures BufferSize(pairs[i..]) == Needed(pairs[i]) + BufferSize(pairs[i + 1..])
    ensures done + PairText(pairs[i]) + Separator(i + 1 == |pairs|) + Text(pairs[i + 1..]) == done + Text(pairs[i..])
  {
    hide PairText;
    assert pairs[i..][1..] == pairs[i + 1..];
  }

  /** hstore_out: sizes the buffer, fills it and never writes beyond it. */
  method WriteText(pairs: seq<Pair>) returns (out: array<byte>, len: nat)
    ensures len < out.Length && out[..len] == Text(pairs) && out[len] == NUL
  {
    hide PairText, Text, BufferSize, Needed;
    var size := SizeOf(pairs);
    if pairs == [] {
      out, len := new byte[1], 0;
      EmptyText();
    } else {
      TextFits(pairs);
      out, len := new byte[size], 0;
      var i := 0;
      assert pairs[0..] == pairs && out[..0] + Text(pairs) == Text(pairs);
      while i < |pairs|
        invariant i <= |pairs| && len + BufferSize(pairs[i..]) <= size && len <= out.Length == size
        invariant out[..len] + Text(pairs[i..]) == Text(pairs)
      {
        TextStep(out[..len], pairs, i);
        len := PutPair(out, len, pairs[i]);
        len := Put(out, len, Separator(i + 1 == |pairs|));
        i := i + 1;
      }
      AllWritten(out[..len], pairs);
    }
    out[len] := NUL;
  }

  lemma {:induction false} EmptyText()
    ensures Text([]) == []
  {
  }

  lemma {:induction false} AllWritten(done: Bytes, pairs: seq<Pair>)
    requires done + Text(pairs[|pairs|..]) == Text(pairs)
    ensures done == Text(pairs)
  {
    assert pairs[|pairs|..] == [];
  }
}
