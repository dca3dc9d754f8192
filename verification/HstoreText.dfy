/**
 * The text form of hstore: hstore_out writes pairs, get_val and parse_hstore read them.
 * A text is what stands before the terminating NUL.
 */
module HstoreText {
  import opened Options
  import opened ByteStrings

  /** A key with its value; `None` is the SQL null. */
  datatype Pair = Pair(key: Bytes, val: Option<Bytes>)

  datatype Result<T> = Ok(value: T) | SyntaxError

  const NUL: byte := 0
  const QUOTE: byte := 34
  const COMMA: byte := 44
  const EQUALS: byte := 61
  const GREATER: byte := 62
  const BACKSLASH: byte := 92
  const BLANK: byte := 32
  const NULL_WORD: Bytes := [78, 85, 76, 76]

  predicate IsSpace(b: byte) { b == 32 || 9 <= b <= 13 }

  function At(text: Bytes): byte { if text == [] then NUL else text[0] }

  // ----- reading -----

  datatype Scan = WaitVal | InVal | InQuoted | Escaped | EscapedInQuoted

  /** A word read by get_val, whether it was quoted, and the text after it. */
  datatype Word = Word(word: Bytes, quoted: bool, rest: Bytes) | NoWord | BadWord

  /** get_val on the text still to be read; `stopAtEquals` is true for keys. */
  function GetVal(text: Bytes, stopAtEquals: bool, st: Scan, word: Bytes, quoted: bool): (w: Word)
    ensures w.Word? ==> |w.rest| <= |text| && (st == WaitVal ==> |w.rest| < |text|)
    decreases |text|
  {
    var c := At(text);
    match st
    case WaitVal =>
      if c == QUOTE then GetVal(text[1..], stopAtEquals, InQuoted, word, true)
      else if c == NUL then NoWord
      else if c == EQUALS && stopAtEquals then BadWord
      else if c == BACKSLASH then GetVal(text[1..], stopAtEquals, Escaped, word, quoted)
      else if IsSpace(c) then GetVal(text[1..], stopAtEquals, WaitVal, word, quoted)
      else GetVal(text[1..], stopAtEquals, InVal, word + [c], quoted)
    case InVal =>
      if c == NUL then Word(word, quoted, text)
      else if c == BACKSLASH then GetVal(text[1..], stopAtEquals, Escaped, word, quoted)
      else if c == EQUALS && stopAtEquals then Word(word, quoted, text)
      else if c == COMMA && !stopAtEquals then Word(word, quoted, text)
      else if IsSpace(c) then Word(word, quoted, text[1..])
      else GetVal(text[1..], stopAtEquals, InVal, word + [c], quoted)
    case InQuoted =>
      if c == NUL then BadWord
      else if c == BACKSLASH then GetVal(text[1..], stopAtEquals, EscapedInQuoted, word, quoted)
      else if c == QUOTE then Word(word, quoted, text[1..])
      else GetVal(text[1..], stopAtEquals, InQuoted, word + [c], quoted)
    case Escaped =>
      if c == NUL then BadWord else GetVal(text[1..], stopAtEquals, InVal, word + [c], quoted)
    case EscapedInQuoted =>
      if c == NUL then BadWord else GetVal(text[1..], stopAtEquals, InQuoted, word + [c], quoted)
  }

  function Lower(b: byte): byte { if 65 <= b <= 90 then b + 32 else b }

  /** An unquoted word that spells null in any case. */
  predicate SpellsNull(w: Word)
    requires w.Word?
  {
    && |w.word| == 4 && !w.quoted
    && Lower(w.word[0]) == 110 && Lower(w.word[1]) == 117 && Lower(w.word[2]) == 108 && Lower(w.word[3]) == 108
  }

  datatype Expect = Key | Equals(key: Bytes) | Arrow(key: Bytes) | Value(key: Bytes) | Delimiter

  const MAX_LEN: nat := 0x3FFF_FFFF

  /** parse_hstore on the text still to be read, with the pairs already read. */
  function Parse(text: Bytes, st: Expect, pairs: seq<Pair>): Result<seq<Pair>>
    decreases |text|
  {
    var c := At(text);
    match st
    case Key =>
      (match GetVal(text, true, WaitVal, [], false)
       case NoWord => Ok(pairs)
       case BadWord => SyntaxError
       case Word(w, _, rest) => if |w| > MAX_LEN then SyntaxError else Parse(rest, Equals(w), pairs))
    case Equals(k) =>
      if c == NUL then SyntaxError
      else if c == EQUALS then Parse(text[1..], Arrow(k), pairs)
      else if IsSpace(c) then Parse(text[1..], st, pairs)
      else SyntaxError
    case Arrow(k) =>
      if c == GREATER && c != NUL then Parse(text[1..], Value(k), pairs) else SyntaxError
    case Value(k) =>
      var w := GetVal(text, false, WaitVal, [], false);
      if !w.Word? || |w.word| > MAX_LEN then SyntaxError
      else Parse(w.rest, Delimiter, pairs + [Pair(k, if SpellsNull(w) then None else Some(w.word))])
    case Delimiter =>
      if c == NUL then Ok(pairs)
      else if c == COMMA then Parse(text[1..], Key, pairs)
      else if IsSpace(c) then Parse(text[1..], st, pairs)
      else SyntaxError
  }

  function ParseHstore(text: Bytes): Result<seq<Pair>> { Parse(text, Key, []) }

  // ----- writing -----

  /** cpw: a backslash before every quote and backslash. */
  function Escape(s: Bytes): (r: Bytes)
    ensures |r| <= 2 * |s|
    decreases |s|
  {
    if s == [] then []
    else (if s[0] == QUOTE || s[0] == BACKSLASH then [BACKSLASH, s[0]] else [s[0]]) + Escape(s[1..])
  }

  function Quoted(s: Bytes): Bytes { [QUOTE] + Escape(s) + [QUOTE] }

  function PairText(p: Pair): Bytes {
    Quoted(p.key) + [EQUALS, GREATER] + if p.val.None? then NULL_WORD else Quoted(p.val.value)
  }

  /** hstore_out. */
  function Text(pairs: seq<Pair>): Bytes
    decreases |pairs|
  {
    if pairs == [] then []
    else if |pairs| == 1 then PairText(pairs[0])
    else PairText(pairs[0]) + [COMMA, BLANK] + Text(pairs[1..])
  }

  /** The size that hstore_out allocates. */
  function BufferSize(pairs: seq<Pair>): nat
    decreases |pairs|
  {
    if pairs == [] then 0
    else
      6 + 2 * |pairs[0].key| + 2 + (if pairs[0].val.None? then 2 else 2 * |pairs[0].val.value|) + BufferSize(pairs[1..])
  }

  /** The text and its terminating NUL fit into the buffer. */
  lemma {:induction false} TextFits(pairs: seq<Pair>)
    requires pairs != []
    ensures |Text(pairs)| + 1 <= BufferSize(pairs)
    decreases |pairs|
  {
    if |pairs| > 1 {
      TextFits(pairs[1..]);
    }
  }

  // ----- reading back what was written -----

  predicate NulFree(s: Bytes) { forall i :: 0 <= i < |s| ==> s[i] != NUL }

  predicate Writable(p: Pair) {
    && NulFree(p.key) && |p.key| <= MAX_LEN
    && (p.val.Some? ==> NulFree(p.val.value) && |p.val.value| <= MAX_LEN)
  }

  predicate AllWritable(pairs: seq<Pair>) { forall i :: 0 <= i < |pairs| ==> Writable(pairs[i]) }

  lemma {:induction false} ReadEscaped(s: Bytes, rest: Bytes, stopAtEquals: bool, word: Bytes)
    requires NulFree(s)
    ensures GetVal(Escape(s) + [QUOTE] + rest, stopAtEquals, InQuoted, word, true) == Word(word + s, true, rest)
    decreases |s|
  {
    var text := Escape(s) + [QUOTE] + rest;
    if s == [] {
      assert text[1..] == rest;
      assert word + s == word;
    } else {
      var more := Escape(s[1..]) + [QUOTE] + rest;
      ReadEscaped(s[1..], rest, stopAtEquals, word + [s[0]]);
      assert word + [s[0]] + s[1..] == word + s;
      if s[0] == QUOTE || s[0] == BACKSLASH {
        assert text[0] == BACKSLASH && text[1] == s[0] && text[2..] == more;
        assert text[1..][1..] == more;
      } else {
        assert text[0] == s[0] && text[1..] == more;
      }
    }
  }

  lemma {:induction false} ReadQuoted(s: Bytes, rest: Bytes, stopAtEquals: bool)
    requires NulFree(s)
    ensures GetVal(Quoted(s) + rest, stopAtEquals, WaitVal, [], false) == Word(s, true, rest)
  {
    var text := Quoted(s) + rest;
    assert text[1..] == Escape(s) + [QUOTE] + rest;
    ReadEscaped(s, rest, stopAtEquals, []);
    assert [] + s == s;
  }

  /** NULL is read as a word up to the comma or the end. */
  lemma {:induction false} ReadNull(rest: Bytes)
    requires rest == [] || rest[0] == COMMA
    ensures GetVal(NULL_WORD + rest, false, WaitVal, [], false) == Word(NULL_WORD, false, rest)
  {
    var text := NULL_WORD + rest;
    assert text[1..] == [85] + ([76] + ([76] + rest));
    assert GetVal(text, false, WaitVal, [], false) == GetVal(text[1..], false, InVal, [78], false) by {
      assert [] + [78] == [78];
    }
    hide GetVal;
    ReadLetter(85, [76] + ([76] + rest), [78]);
    ReadLetter(76, [76] + rest, [78, 85]);
    ReadLetter(76, rest, [78, 85, 76]);
    assert [78] + [85] == [78, 85] && [78, 85] + [76] == [78, 85, 76] && [78, 85, 76] + [76] == NULL_WORD;
    WordEnds(rest, NULL_WORD);
  }

  lemma {:induction false} ReadLetter(c: byte, rest: Bytes, word: Bytes)
    requires 65 <= c <= 90
    ensures GetVal([c] + rest, false, InVal, word, false) == GetVal(rest, false, InVal, word + [c], false)
  {
    assert ([c] + rest)[1..] == rest;
  }

  lemma {:induction false} WordEnds(rest: Bytes, word: Bytes)
    requires rest == [] || rest[0] == COMMA
    ensures GetVal(rest, false, InVal, word, false) == Word(word, false, rest)
  {
  }

  lemma {:induction false} ReadPair(p: Pair, rest: Bytes, pairs: seq<Pair>)
    requires Writable(p) && (rest == [] || rest[0] == COMMA)
    ensures Parse(PairText(p) + rest, Key, pairs) == Parse(rest, Delimiter, pairs + [p])
  {
    hide GetVal, Escape, Quoted;
    var v := if p.val.None? then NULL_WORD else Quoted(p.val.value);
    var afterKey := [EQUALS, GREATER] + v + rest;
    assert PairText(p) + rest == Quoted(p.key) + afterKey;
    ReadQuoted(p.key, afterKey, true);
    assert afterKey[1..] == [GREATER] + v + rest;
    assert afterKey[1..][1..] == v + rest;
    if p.val.None? {
      ReadNull(rest);
    } else {
      ReadQuoted(p.val.value, rest, false);
    }
    assert Parse(v + rest, Value(p.key), pairs) == Parse(rest, Delimiter, pairs + [p]);
    assert Parse([GREATER] + v + rest, Arrow(p.key), pairs) == Parse(rest, Delimiter, pairs + [p]);
  }

  lemma {:induction false} ReadPairs(pairs: seq<Pair>, done: seq<Pair>)
    requires AllWritable(pairs)
    ensures Parse(Text(pairs), Key, done) == Ok(done + pairs)
    decreases |pairs|
  {
    hide GetVal, PairText, Parse, Writable;
    if pairs == [] {
      NothingToRead(done);
      assert done + pairs == done;
    } else {
      var p := pairs[0];
      var rest := if |pairs| == 1 then [] else [COMMA, BLANK] + Text(pairs[1..]);
      assert Text(pairs) == PairText(p) + rest;
      ReadPair(p, rest, done);
      assert done + pairs == done + [p] + pairs[1..];
      if |pairs| == 1 {
        EndOfPairs(done + [p]);
        assert done + pairs == done + [p];
      } else {
        AfterComma(pairs[1..], done + [p]);
        ReadPairs(pairs[1..], done + [p]);
      }
    }
  }

  lemma {:induction false} NothingToRead(done: seq<Pair>)
    ensures Parse([], Key, done) == Ok(done)
  {
  }

  lemma {:induction false} EndOfPairs(done: seq<Pair>)
    ensures Parse([], Delimiter, done) == Ok(done)
  {
  }

  /** The blank after the comma is skipped by get_val. */
  lemma {:induction false} AfterComma(pairs: seq<Pair>, done: seq<Pair>)
    requires pairs != []
    ensures Parse([COMMA, BLANK] + Text(pairs), Delimiter, done) == Parse(Text(pairs), Key, done)
  {
    hide Text;
    var text := [COMMA, BLANK] + Text(pairs);
    assert text[1..] == [BLANK] + Text(pairs);
    assert text[1..][1..] == Text(pairs);
    assert GetVal([BLANK] + Text(pairs), true, WaitVal, [], false) == GetVal(Text(pairs), true, WaitVal, [], false);
  }

  /** Reading what hstore_out wrote gives the pairs back, nulls and the word NULL told apart. */
  lemma {:induction false} ReadBack(pairs: seq<Pair>)
    requires AllWritable(pairs)
    ensures ParseHstore(Text(pairs)) == Ok(pairs)
  {
    ReadPairs(pairs, []);
    assert [] + pairs == pairs;
  }
}
