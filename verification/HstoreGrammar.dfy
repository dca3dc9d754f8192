/**
 * The texts that hstore_in accepts, said without its parser: each word bare or in quotes, any byte with a backslash
 * before it, white space wherever the syntax allows it, null in any case.
 */
module HstoreGrammar {
  import opened Options
  import opened ByteStrings
  import opened HstoreText

  // ----- the grammar -----

  /** A byte of a word as it stands in the text: by itself, or behind a backslash. */
  datatype Piece = Plain(c: byte) | Slashed(c: byte)

  datatype Form = Bare(pieces: seq<Piece>) | InQuotes(pieces: seq<Piece>)

  /** A pair with the white space around its parts. */
  datatype PairForm = PairForm(before: Bytes, key: Form, gap: Bytes, gap': Bytes, val: Form, behind: Bytes)

  /** The pairs of a text; after a comma there may be none. */
  datatype Layout = Nothing(blank: Bytes) | Last(p: PairForm) | Then(p: PairForm, more: Layout)

  /** Blanks, tabs, line feeds, vertical tabs, form feeds and carriage returns. */
  predicate Blank(ws: Bytes) { forall i :: 0 <= i < |ws| ==> ws[i] in {32, 9, 10, 11, 12, 13} }

  /** A byte that may stand by itself in a bare word.  The first one must not be a quote.  An equals sign
      cannot be part of a key, nor a comma of a value unless it comes first. */
  predicate BareByte(c: byte, isKey: bool, first: bool) {
    && c != BACKSLASH && !IsSpace(c) && (first ==> c != QUOTE)
    && (isKey ==> c != EQUALS) && (!isKey && !first ==> c != COMMA)
  }

  predicate BarePiece(p: Piece, isKey: bool, first: bool) {
    p.c != NUL && (p.Plain? ==> BareByte(p.c, isKey, first))
  }

  predicate QuotedPiece(p: Piece) { p.c != NUL && (p.Plain? ==> p.c != BACKSLASH && p.c != QUOTE) }

  predicate BarePieces(ps: seq<Piece>, isKey: bool) { forall i :: 0 <= i < |ps| ==> BarePiece(ps[i], isKey, false) }

  predicate QuotedPieces(ps: seq<Piece>) { forall i :: 0 <= i < |ps| ==> QuotedPiece(ps[i]) }

  predicate FormOk(f: Form, isKey: bool) {
    match f
    case Bare(ps) => ps != [] && BarePiece(ps[0], isKey, true) && BarePieces(ps[1..], isKey)
    case InQuotes(ps) => QuotedPieces(ps)
  }

  function PieceText(p: Piece): Bytes { if p.Plain? then [p.c] else [BACKSLASH, p.c] }

  function PiecesText(ps: seq<Piece>): Bytes {
    if ps == [] then [] else PieceText(ps[0]) + PiecesText(ps[1..])
  }

  function WordOf(ps: seq<Piece>): (w: Bytes)
    ensures |w| == |ps|
  {
    if ps == [] then [] else [ps[0].c] + WordOf(ps[1..])
  }

  function FormText(f: Form): Bytes {
    if f.Bare? then PiecesText(f.pieces) else [QUOTE] + PiecesText(f.pieces) + [QUOTE]
  }

  /** A bare word of four letters that is null in some case. */
  predicate IsNullForm(f: Form) {
    var w := WordOf(f.pieces);
    f.Bare? && |w| == 4 && w[0] in {78, 110} && w[1] in {85, 117} && w[2] in {76, 108} && w[3] in {76, 108}
  }

  predicate PairOk(p: PairForm) {
    && Blank(p.before) && Blank(p.gap) && Blank(p.gap') && Blank(p.behind)
    && FormOk(p.key, true) && FormOk(p.val, false)
    && |WordOf(p.key.pieces)| <= MAX_LEN && |WordOf(p.val.pieces)| <= MAX_LEN
  }

  function PairFormText(p: PairForm): Bytes {
    p.before + FormText(p.key) + p.gap + [EQUALS, GREATER] + p.gap' + FormText(p.val) + p.behind
  }

  function PairOf(p: PairForm): Pair {
    Pair(WordOf(p.key.pieces), if IsNullForm(p.val) then None else Some(WordOf(p.val.pieces)))
  }

  predicate LayoutOk(l: Layout) {
    match l
    case Nothing(ws) => Blank(ws)
    case Last(p) => PairOk(p)
    case Then(p, more) => PairOk(p) && LayoutOk(more)
  }

  function LayoutText(l: Layout): Bytes {
    match l
    case Nothing(ws) => ws
    case Last(p) => PairFormText(p)
    case Then(p, more) => PairFormText(p) + ([COMMA] + LayoutText(more))
  }

  function LayoutPairs(l: Layout): seq<Pair> {
    match l
    case Nothing(_) => []
    case Last(p) => [PairOf(p)]
    case Then(p, more) => [PairOf(p)] + LayoutPairs(more)
  }

  // ----- every text of the grammar is read as its pairs -----

  lemma {:induction false} SkipBlank(ws: Bytes, text: Bytes, stop: bool)
    requires Blank(ws)
    ensures GetVal(ws + text, stop, WaitVal, [], false) == GetVal(text, stop, WaitVal, [], false)
    decreases |ws|
  {
    if ws == [] {
      assert ws + text == text;
    } else {
      assert (ws + text)[1..] == ws[1..] + text;
      SkipBlank(ws[1..], text, stop);
    }
  }

  lemma {:induction false} ReadBarePiece(p: Piece, rest: Bytes, stop: bool, word: Bytes)
    requires BarePiece(p, stop, false)
    ensures GetVal(PieceText(p) + rest, stop, InVal, word, false) == GetVal(rest, stop, InVal, word + [p.c], false)
  {
    var text := PieceText(p) + rest;
    if p.Plain? {
      assert text[1..] == rest;
    } else {
      assert text[1..][1..] == rest && text[1..][0] == p.c;
    }
  }

  lemma {:induction false} ReadFirstPiece(p: Piece, rest: Bytes, stop: bool)
    requires BarePiece(p, stop, true)
    ensures GetVal(PieceText(p) + rest, stop, WaitVal, [], false) == GetVal(rest, stop, InVal, [p.c], false)
  {
    var text := PieceText(p) + rest;
    assert [] + [p.c] == [p.c];
    if p.Plain? {
      assert text[1..] == rest;
    } else {
      assert text[1..][1..] == rest && text[1..][0] == p.c;
    }
  }

  lemma {:induction false} ReadBarePieces(ps: seq<Piece>, rest: Bytes, stop: bool, word: Bytes)
    requires BarePieces(ps, stop)
    ensures GetVal(PiecesText(ps) + rest, stop, InVal, word, false) ==
            GetVal(rest, stop, InVal, word + WordOf(ps), false)
    decreases |ps|
  {
    hide GetVal, BarePiece, PieceText;
    if ps == [] {
      assert PiecesText(ps) + rest == rest && word + WordOf(ps) == word;
    } else {
      assert PiecesText(ps) + rest == PieceText(ps[0]) + (PiecesText(ps[1..]) + rest);
      ReadBarePiece(ps[0], PiecesText(ps[1..]) + rest, stop, word);
      ReadBarePieces(ps[1..], rest, stop, word + [ps[0].c]);
      assert word + [ps[0].c] + WordOf(ps[1..]) == word + WordOf(ps);
    }
  }

  lemma {:induction false} ReadQuotedPiece(p: Piece, rest: Bytes, stop: bool, word: Bytes)
    requires QuotedPiece(p)
    ensures GetVal(PieceText(p) + rest, stop, InQuoted, word, true) == GetVal(rest, stop, InQuoted, word + [p.c], true)
  {
    var text := PieceText(p) + rest;
    if p.Plain? {
      assert text[1..] == rest;
    } else {
      assert text[1..][1..] == rest && text[1..][0] == p.c;
    }
  }

  lemma {:induction false} ReadQuotedPieces(ps: seq<Piece>, rest: Bytes, stop: bool, word: Bytes)
    requires QuotedPieces(ps)
    ensures GetVal(PiecesText(ps) + ([QUOTE] + rest), stop, InQuoted, word, true) == Word(word + WordOf(ps), true, rest)
    decreases |ps|
  {
    hide QuotedPiece, PieceText;
    if ps == [] {
      assert PiecesText(ps) + ([QUOTE] + rest) == [QUOTE] + rest && word + WordOf(ps) == word;
      assert ([QUOTE] + rest)[1..] == rest;
    } else {
      var more := PiecesText(ps[1..]) + ([QUOTE] + rest);
      assert PiecesText(ps) + ([QUOTE] + rest) == PieceText(ps[0]) + more;
      ReadQuotedPiece(ps[0], more, stop, word);
      ReadQuotedPieces(ps[1..], rest, stop, word + [ps[0].c]);
      assert word + [ps[0].c] + WordOf(ps[1..]) == word + WordOf(ps);
    }
  }

  /** What may follow a bare word. */
  predicate EndsBare(rest: Bytes, isKey: bool) {
    rest == [] || IsSpace(rest[0]) || rest[0] == if isKey then EQUALS else COMMA
  }

  /** The text left behind a word: a blank that ended a bare one is gone. */
  function LeftBehind(f: Form, rest: Bytes): Bytes {
    if f.Bare? && rest != [] && IsSpace(rest[0]) then rest[1..] else rest
  }

  lemma {:induction false} BareEnds(word: Bytes, rest: Bytes, isKey: bool)
    requires EndsBare(rest, isKey)
    ensures GetVal(rest, isKey, InVal, word, false) ==
            Word(word, false, if rest != [] && IsSpace(rest[0]) then rest[1..] else rest)
  {
  }

  lemma {:induction false} ReadForm(f: Form, isKey: bool, rest: Bytes)
    requires FormOk(f, isKey) && (f.Bare? ==> EndsBare(rest, isKey))
    ensures GetVal(FormText(f) + rest, isKey, WaitVal, [], false) ==
            Word(WordOf(f.pieces), f.InQuotes?, LeftBehind(f, rest))
  {
    hide BarePiece, PieceText, QuotedPiece;
    var ps := f.pieces;
    if f.Bare? {
      hide GetVal;
      assert FormText(f) + rest == PieceText(ps[0]) + (PiecesText(ps[1..]) + rest);
      ReadFirstPiece(ps[0], PiecesText(ps[1..]) + rest, isKey);
      ReadBarePieces(ps[1..], rest, isKey, [ps[0].c]);
      BareEnds(WordOf(ps), rest, isKey);
    } else {
      var text := FormText(f) + rest;
      assert text[1..] == PiecesText(ps) + ([QUOTE] + rest);
      ReadQuotedPieces(ps, rest, isKey, []);
      assert [] + WordOf(ps) == WordOf(ps);
    }
  }

  lemma {:induction false} SkipBeforeEquals(ws: Bytes, text: Bytes, k: Bytes, done: seq<Pair>)
    requires Blank(ws)
    ensures Parse(ws + text, Equals(k), done) == Parse(text, Equals(k), done)
    decreases |ws|
  {
    if ws == [] {
      assert ws + text == text;
    } else {
      assert (ws + text)[1..] == ws[1..] + text;
      SkipBeforeEquals(ws[1..], text, k, done);
    }
  }

  lemma {:induction false} SkipBeforeComma(ws: Bytes, text: Bytes, done: seq<Pair>)
    requires Blank(ws)
    ensures Parse(ws + text, Delimiter, done) == Parse(text, Delimiter, done)
    decreases |ws|
  {
    if ws == [] {
      assert ws + text == text;
    } else {
      assert (ws + text)[1..] == ws[1..] + text;
      SkipBeforeComma(ws[1..], text, done);
    }
  }

  lemma {:induction false} ReadArrow(text: Bytes, k: Bytes, done: seq<Pair>)
    ensures Parse([EQUALS, GREATER] + text, Equals(k), done) == Parse(text, Value(k), done)
  {
    var all := [EQUALS, GREATER] + text;
    assert all[1..] == [GREATER] + text && all[1..][1..] == text;
    assert Parse([GREATER] + text, Arrow(k), done) == Parse(text, Value(k), done);
  }

  /** A key with the blanks around it and its arrow. */
  lemma {:induction false} ReadKey(p: PairForm, rest: Bytes, done: seq<Pair>)
    requires PairOk(p)
    ensures Parse(p.before + FormText(p.key) + p.gap + [EQUALS, GREATER] + rest, Key, done) ==
            Parse(rest, Value(WordOf(p.key.pieces)), done)
  {
    hide GetVal, FormOk, FormText;
    var k, arrow := WordOf(p.key.pieces), [EQUALS, GREATER] + rest;
    var after := p.gap + arrow;
    var text := FormText(p.key) + after;
    assert p.before + FormText(p.key) + p.gap + [EQUALS, GREATER] + rest == p.before + text;
    SkipBlank(p.before, text, true);
    assert EndsBare(after, true) by { assert p.gap == [] ==> after[0] == EQUALS; }
    ReadForm(p.key, true, after);
    NotABlank();
    var gap := if p.key.Bare? && p.gap != [] then p.gap[1..] else p.gap;
    assert LeftBehind(p.key, after) == gap + arrow;
    SkipBeforeEquals(gap, arrow, k, done);
    ReadArrow(rest, k, done);
  }

  lemma {:induction false} NotABlank()
    ensures !IsSpace(EQUALS) && !IsSpace(COMMA)
  {
  }

  /** A value with the blanks around it, up to a comma or the end. */
  lemma {:induction false} ReadVal(p: PairForm, rest: Bytes, k: Bytes, done: seq<Pair>)
    requires PairOk(p) && (rest == [] || rest[0] == COMMA)
    ensures Parse(p.gap' + FormText(p.val) + p.behind + rest, Value(k), done) ==
            Parse(rest, Delimiter, done + [Pair(k, PairOf(p).val)])
  {
    hide GetVal, FormOk, FormText;
    var after := p.behind + rest;
    var text := FormText(p.val) + after;
    assert p.gap' + FormText(p.val) + p.behind + rest == p.gap' + text;
    SkipBlank(p.gap', text, false);
    assert EndsBare(after, false) by { assert p.behind == [] ==> after == rest; }
    ReadForm(p.val, false, after);
    NotABlank();
    var behind := if p.val.Bare? && p.behind != [] then p.behind[1..] else p.behind;
    assert LeftBehind(p.val, after) == behind + rest;
    SkipBeforeComma(behind, rest, done + [Pair(k, PairOf(p).val)]);
  }

  lemma {:induction false} ReadPairForm(p: PairForm, rest: Bytes, done: seq<Pair>)
    requires PairOk(p) && (rest == [] || rest[0] == COMMA)
    ensures Parse(PairFormText(p) + rest, Key, done) == Parse(rest, Delimiter, done + [PairOf(p)])
  {
    hide Parse, FormText, PairOk;
    var val := p.gap' + FormText(p.val) + p.behind + rest;
    assert PairFormText(p) + rest == p.before + FormText(p.key) + p.gap + [EQUALS, GREATER] + val;
    ReadKey(p, val, done);
    ReadVal(p, rest, WordOf(p.key.pieces), done);
  }

  lemma {:induction false} ReadBlank(ws: Bytes, done: seq<Pair>)
    requires Blank(ws)
    ensures Parse(ws, Key, done) == Ok(done)
  {
    SkipBlank(ws, [], true);
    assert ws + [] == ws;
  }

  lemma {:induction false} ReadComma(text: Bytes, done: seq<Pair>)
    ensures Parse([COMMA] + text, Delimiter, done) == Parse(text, Key, done)
    ensures Parse([], Delimiter, done) == Ok(done)
  {
    hide GetVal;
    assert ([COMMA] + text)[1..] == text;
  }

  lemma {:induction false} LayoutIsRead(l: Layout, done: seq<Pair>)
    requires LayoutOk(l)
    ensures Parse(LayoutText(l), Key, done) == Ok(done + LayoutPairs(l))
    decreases l
  {
    hide Parse, PairOk, PairFormText, PairOf;
    match l
    case Nothing(ws) =>
      ReadBlank(ws, done);
      assert done + [] == done;
    case Last(p) =>
      assert PairFormText(p) + [] == PairFormText(p);
      ReadPairForm(p, [], done);
      ReadComma([], done + [PairOf(p)]);
    case Then(p, more) =>
      ReadPairForm(p, [COMMA] + LayoutText(more), done);
      ReadComma(LayoutText(more), done + [PairOf(p)]);
      LayoutIsRead(more, done + [PairOf(p)]);
      assert done + [PairOf(p)] + LayoutPairs(more) == done + LayoutPairs(l);
  }

  // ----- every text that is read belongs to the grammar -----

  lemma {:induction false} PiecesMore(p: Piece, ps: seq<Piece>)
    ensures PiecesText([p] + ps) == PieceText(p) + PiecesText(ps) && WordOf([p] + ps) == [p.c] + WordOf(ps)
  {
    assert ([p] + ps)[1..] == ps;
  }

  /** A piece put before the pieces that follow it. */
  lemma {:induction false} PutBefore(p: Piece, ps: seq<Piece>, tail: Bytes, text: Bytes, rest: Bytes, word: Bytes)
    requires text == PieceText(p) + rest && rest == PiecesText(ps) + tail
    ensures text == PiecesText([p] + ps) + tail && word + [p.c] + WordOf(ps) == word + WordOf([p] + ps)
  {
    hide PieceText;
    PiecesMore(p, ps);
    assert PieceText(p) + (PiecesText(ps) + tail) == PieceText(p) + PiecesText(ps) + tail;
  }

  /** The piece at the front of a text. */
  function Front(text: Bytes): Piece
    requires text != [] && (text[0] == BACKSLASH ==> |text| > 1)
  {
    if text[0] == BACKSLASH then Slashed(text[1]) else Plain(text[0])
  }

  function Behind(text: Bytes): (rest: Bytes)
    requires text != [] && (text[0] == BACKSLASH ==> |text| > 1)
    ensures |rest| < |text| && text == PieceText(Front(text)) + rest
  {
    if text[0] == BACKSLASH then text[2..] else text[1..]
  }

  lemma {:induction false} NulFreeBehind(text: Bytes)
    requires NulFree(text) && text != [] && (text[0] == BACKSLASH ==> |text| > 1)
    ensures NulFree(Behind(text)) && Front(text).c != NUL
  {
  }

  /** Where a bare word ends. */
  predicate BareStops(text: Bytes, isKey: bool) {
    text == [] || (text[0] == if isKey then EQUALS else COMMA)
  }

  lemma {:induction false} BareStep(text: Bytes, isKey: bool, word: Bytes)
    requires NulFree(text) && GetVal(text, isKey, InVal, word, false).Word?
    ensures var w := GetVal(text, isKey, InVal, word, false);
            if BareStops(text, isKey) then w == Word(word, false, text)
            else if IsSpace(text[0]) then w == Word(word, false, text[1..])
            else
              && (text[0] == BACKSLASH ==> |text| > 1) && BarePiece(Front(text), isKey, false)
              && w == GetVal(Behind(text), isKey, InVal, word + [Front(text).c], false)
  {
    if text != [] && text[0] == BACKSLASH {
      assert |text| > 1;
      assert text[1..][1..] == text[2..];
    }
  }

  lemma {:induction false} BareMore(p: Piece, ps: seq<Piece>, isKey: bool)
    requires BarePiece(p, isKey, false) && BarePieces(ps, isKey)
    ensures BarePieces([p] + ps, isKey)
  {
    hide BarePiece;
  }

  lemma {:induction false} NoPieces(word: Bytes, rest: Bytes, isKey: bool)
    ensures BarePieces([], isKey) && Blank([]) && word + WordOf([]) == word && rest == PiecesText([]) + ([] + rest)
  {
  }

  lemma {:induction false} OneBlank(text: Bytes)
    requires text != [] && IsSpace(text[0])
    ensures Blank([text[0]]) && text == PiecesText([]) + ([text[0]] + text[1..])
  {
    assert PiecesText([]) + ([text[0]] + text[1..]) == text;
  }

  /** The rest of a bare word, and the blank that ended it. */
  lemma {:induction false} BareWasRead(text: Bytes, isKey: bool, word: Bytes) returns (ps: seq<Piece>, sep: Bytes)
    requires NulFree(text) && GetVal(text, isKey, InVal, word, false).Word?
    ensures BarePieces(ps, isKey) && Blank(sep)
    ensures var w := GetVal(text, isKey, InVal, word, false);
            && w.word == word + WordOf(ps) && !w.quoted && text == PiecesText(ps) + (sep + w.rest)
    decreases |text|
  {
    hide GetVal, NulFree, IsSpace, PieceText, BarePiece, BarePieces, PiecesText, WordOf, Blank;
    ps, sep := [], [];
    BareStep(text, isKey, word);
    NoPieces(word, text, isKey);
    if !BareStops(text, isKey) {
      if IsSpace(text[0]) {
        sep := [text[0]];
        OneBlank(text);
      } else {
        NulFreeBehind(text);
        var p, more := Front(text), [];
        more, sep := BareWasRead(Behind(text), isKey, word + [p.c]);
        ps := [p] + more;
        BareMore(p, more, isKey);
        PutBefore(p, more, sep + GetVal(text, isKey, InVal, word, false).rest, text, Behind(text), word);
      }
    }
  }

  lemma {:induction false} QuotedStep(text: Bytes, isKey: bool, word: Bytes)
    requires NulFree(text) && GetVal(text, isKey, InQuoted, word, true).Word?
    ensures var w := GetVal(text, isKey, InQuoted, word, true);
            && text != []
            && if text[0] == QUOTE then w == Word(word, true, text[1..])
               else
                 && (text[0] == BACKSLASH ==> |text| > 1)
                 && w == GetVal(Behind(text), isKey, InQuoted, word + [Front(text).c], true)
  {
    if text != [] && text[0] == BACKSLASH {
      assert |text| > 1;
      assert text[1..][1..] == text[2..];
    }
  }

  lemma {:induction false} QuotedWasRead(text: Bytes, isKey: bool, word: Bytes) returns (ps: seq<Piece>)
    requires NulFree(text) && GetVal(text, isKey, InQuoted, word, true).Word?
    ensures QuotedPieces(ps)
    ensures var w := GetVal(text, isKey, InQuoted, word, true);
            w.word == word + WordOf(ps) && w.quoted && text == PiecesText(ps) + ([QUOTE] + w.rest)
    decreases |text|
  {
    hide GetVal, NulFree, PieceText;
    ps := [];
    QuotedStep(text, isKey, word);
    assert word + [] == word;
    if text[0] == QUOTE {
      assert text == [] + ([QUOTE] + text[1..]);
    } else {
      NulFreeBehind(text);
      var p := Front(text);
      var more := QuotedWasRead(Behind(text), isKey, word + [p.c]);
      ps := [p] + more;
      PutBefore(p, more, [QUOTE] + GetVal(text, isKey, InQuoted, word, true).rest, text, Behind(text), word);
    }
  }

  lemma {:induction false} WaitStep(text: Bytes, isKey: bool)
    requires NulFree(text) && GetVal(text, isKey, WaitVal, [], false).Word?
    ensures var w := GetVal(text, isKey, WaitVal, [], false);
            && text != []
            && if IsSpace(text[0]) then w == GetVal(text[1..], isKey, WaitVal, [], false)
               else if text[0] == QUOTE then w == GetVal(text[1..], isKey, InQuoted, [], true)
               else
                 && (text[0] == BACKSLASH ==> |text| > 1) && BarePiece(Front(text), isKey, true)
                 && w == GetVal(Behind(text), isKey, InVal, [Front(text).c], false)
  {
    if text != [] && text[0] == BACKSLASH {
      assert |text| > 1;
      assert text[1..][1..] == text[2..];
    }
    assert forall c: byte :: [] + [c] == [c];
  }

  /** The blanks before a word, its form, and the blank that ended it. */
  lemma {:induction false} WordWasRead(text: Bytes, isKey: bool) returns (before: Bytes, f: Form, sep: Bytes)
    requires NulFree(text) && GetVal(text, isKey, WaitVal, [], false).Word?
    ensures Blank(before) && FormOk(f, isKey) && Blank(sep)
    ensures var w := GetVal(text, isKey, WaitVal, [], false);
            && w.word == WordOf(f.pieces) && w.quoted == f.InQuotes?
            && text == before + FormText(f) + sep + w.rest
    decreases |text|
  {
    hide GetVal, PieceText, IsSpace, BarePieces, QuotedPieces, PiecesText, WordOf, BarePiece, NulFree, Behind, FormOk;
    before, sep := [], [];
    WaitStep(text, isKey);
    var end := GetVal(text, isKey, WaitVal, [], false).rest;
    if IsSpace(text[0]) {
      NulFreeTail(text);
      before, f, sep := WordWasRead(text[1..], isKey);
      BlankBefore(text, before, f, sep, end);
      before := [text[0]] + before;
    } else if text[0] == QUOTE {
      NulFreeTail(text);
      var ps := QuotedWasRead(text[1..], isKey, []);
      f := InQuotes(ps);
      QuotedForm(text, ps, end, isKey);
    } else {
      NulFreeBehind(text);
      var p, more := Front(text), [];
      more, sep := BareWasRead(Behind(text), isKey, [p.c]);
      f := Bare([p] + more);
      BareForm(text, p, more, sep, end, isKey);
    }
  }

  lemma {:induction false} NulFreeTail(text: Bytes)
    requires NulFree(text) && text != []
    ensures NulFree(text[1..])
  {
  }

  lemma {:induction false} BlankBefore(text: Bytes, before: Bytes, f: Form, sep: Bytes, end: Bytes)
    requires text != [] && IsSpace(text[0]) && Blank(before) && text[1..] == before + FormText(f) + sep + end
    ensures Blank([text[0]] + before) && text == [text[0]] + before + FormText(f) + sep + end
  {
    hide FormText;
    assert text == [text[0]] + text[1..];
  }

  lemma {:induction false} QuotedForm(text: Bytes, ps: seq<Piece>, end: Bytes, isKey: bool)
    requires text != [] && text[0] == QUOTE && text[1..] == PiecesText(ps) + ([QUOTE] + end) && QuotedPieces(ps)
    ensures text == [] + FormText(InQuotes(ps)) + [] + end && FormOk(InQuotes(ps), isKey)
    ensures [] + WordOf(ps) == WordOf(ps)
  {
    hide QuotedPieces, PiecesText;
    assert text == [QUOTE] + text[1..];
  }

  lemma {:induction false} BareForm(text: Bytes, p: Piece, more: seq<Piece>, sep: Bytes, end: Bytes, isKey: bool)
    requires text != [] && (text[0] == BACKSLASH ==> |text| > 1) && p == Front(text)
    requires Behind(text) == PiecesText(more) + (sep + end) && BarePiece(p, isKey, true) && BarePieces(more, isKey)
    ensures text == [] + FormText(Bare([p] + more)) + sep + end && FormOk(Bare([p] + more), isKey)
    ensures [p.c] + WordOf(more) == WordOf([p] + more)
  {
    hide BarePiece, BarePieces, PieceText, PiecesText, WordOf, Front, Behind;
    FrontAndBehind(text);
    PutBefore(p, more, sep + end, text, Behind(text), []);
    PiecesMore(p, more);
    assert ([p] + more)[1..] == more;
  }

  lemma {:induction false} FrontAndBehind(text: Bytes)
    requires text != [] && (text[0] == BACKSLASH ==> |text| > 1)
    ensures text == PieceText(Front(text)) + Behind(text)
  {
  }

  lemma {:induction false} NoWordIsBlank(text: Bytes, isKey: bool)
    requires NulFree(text) && GetVal(text, isKey, WaitVal, [], false).NoWord?
    ensures Blank(text)
    decreases |text|
  {
    if text != [] {
      NeverNoWord(text, isKey);
      NoWordIsBlank(text[1..], isKey);
    }
  }

  /** Once a word has begun there is one, or an error. */
  lemma {:induction false} NeverNoWord(text: Bytes, isKey: bool)
    requires text != [] && text[0] != NUL && GetVal(text, isKey, WaitVal, [], false).NoWord?
    ensures IsSpace(text[0]) && GetVal(text[1..], isKey, WaitVal, [], false).NoWord?
  {
    Begun(text[1..], isKey, InQuoted, [], true);
    Begun(text[1..], isKey, Escaped, [], false);
    Begun(text[1..], isKey, InVal, [] + [text[0]], false);
  }

  lemma {:induction false} Begun(text: Bytes, isKey: bool, st: Scan, word: Bytes, quoted: bool)
    requires st != WaitVal
    ensures !GetVal(text, isKey, st, word, quoted).NoWord?
    decreases |text|
  {
    if text != [] {
      Begun(text[1..], isKey, InVal, word + [text[0]], quoted);
      Begun(text[1..], isKey, InQuoted, word + [text[0]], quoted);
      Begun(text[1..], isKey, Escaped, word, quoted);
      Begun(text[1..], isKey, EscapedInQuoted, word, quoted);
    }
  }

  lemma {:induction false} ArrowWasRead(text: Bytes, k: Bytes, done: seq<Pair>) returns (gap: Bytes, rest: Bytes)
    requires NulFree(text) && Parse(text, Equals(k), done).Ok?
    ensures Blank(gap) && text == gap + [EQUALS, GREATER] + rest
    ensures Parse(rest, Value(k), done) == Parse(text, Equals(k), done)
    decreases |text|
  {
    hide GetVal;
    gap := [];
    if text[0] == EQUALS {
      assert Parse(text[1..], Arrow(k), done).Ok?;
      rest := text[2..];
      assert text[1..][1..] == rest && text == [EQUALS, GREATER] + rest;
    } else {
      gap, rest := ArrowWasRead(text[1..], k, done);
      gap := [text[0]] + gap;
      assert text == [text[0]] + text[1..];
    }
  }

  /** Behind a value: blanks up to the end, or up to a comma. */
  lemma {:induction false} DelimiterWasRead(text: Bytes, done: seq<Pair>) returns (ws: Bytes, more: Option<Bytes>)
    requires NulFree(text) && Parse(text, Delimiter, done).Ok?
    ensures Blank(ws)
    ensures match more
            case None => text == ws && Parse(text, Delimiter, done) == Ok(done)
            case Some(rest) => text == ws + [COMMA] + rest && Parse(rest, Key, done) == Parse(text, Delimiter, done)
    decreases |text|
  {
    hide GetVal;
    ws, more := [], None;
    if text != [] && text[0] == COMMA {
      more := Some(text[1..]);
      assert text == [] + [COMMA] + text[1..];
    } else if text != [] {
      ws, more := DelimiterWasRead(text[1..], done);
      ws := [text[0]] + ws;
      assert text == [text[0]] + text[1..];
    }
  }

  lemma {:induction false} NulFreeParts(a: Bytes, b: Bytes)
    requires NulFree(a + b)
    ensures NulFree(a) && NulFree(b)
  {
    assert forall i :: 0 <= i < |a| ==> a[i] == (a + b)[i];
    assert forall i :: 0 <= i < |b| ==> b[i] == (a + b)[|a| + i];
  }

  lemma {:induction false} BlankJoin(a: Bytes, b: Bytes)
    requires Blank(a) && Blank(b)
    ensures Blank(a + b)
  {
  }

  /** What parse_hstore does where it awaits a key or a value. */
  lemma {:induction false} KeyStep(text: Bytes, done: seq<Pair>)
    requires Parse(text, Key, done).Ok?
    ensures var w := GetVal(text, true, WaitVal, [], false);
            if w.NoWord? then Parse(text, Key, done) == Ok(done)
            else w.Word? && |w.word| <= MAX_LEN && Parse(text, Key, done) == Parse(w.rest, Equals(w.word), done)
  {
    hide GetVal;
  }

  lemma {:induction false} ValueStep(text: Bytes, k: Bytes, done: seq<Pair>)
    requires Parse(text, Value(k), done).Ok?
    ensures var w := GetVal(text, false, WaitVal, [], false);
            && w.Word? && |w.word| <= MAX_LEN
            && Parse(text, Value(k), done) ==
               Parse(w.rest, Delimiter, done + [Pair(k, if SpellsNull(w) then None else Some(w.word))])
  {
    hide GetVal;
  }

  /** The first pair of a text that is read. */
  lemma {:induction false} PairWasRead(text: Bytes, done: seq<Pair>) returns (p: PairForm, more: Option<Bytes>)
    requires NulFree(text) && Parse(text, Key, done).Ok? && GetVal(text, true, WaitVal, [], false).Word?
    ensures PairOk(p)
    ensures match more
            case None => text == PairFormText(p) && Parse(text, Key, done) == Ok(done + [PairOf(p)])
            case Some(rest) =>
              && text == PairFormText(p) + ([COMMA] + rest)
              && Parse(rest, Key, done + [PairOf(p)]) == Parse(text, Key, done)
  {
    hide GetVal, Parse, FormOk, FormText, Blank, NulFree;
    var before, key, sep := WordWasRead(text, true);
    KeyStep(text, done);
    var k := GetVal(text, true, WaitVal, [], false);
    NulFreeParts(before + FormText(key) + sep, k.rest);
    var gap, afterArrow := ArrowWasRead(k.rest, k.word, done);
    BlankJoin(sep, gap);
    NulFreeParts(gap + [EQUALS, GREATER], afterArrow);
    ValueStep(afterArrow, k.word, done);
    var gap', val, sep' := WordWasRead(afterArrow, false);
    var v := GetVal(afterArrow, false, WaitVal, [], false);
    NulFreeParts(gap' + FormText(val) + sep', v.rest);
    var all := done + [Pair(k.word, if SpellsNull(v) then None else Some(v.word))];
    var ws;
    ws, more := DelimiterWasRead(v.rest, all);
    BlankJoin(sep', ws);
    p := PairForm(before, key, sep + gap, gap', val, sep' + ws);
    assert SpellsNull(v) <==> IsNullForm(val);
    Reassemble(text, p, sep, gap, sep', ws, k.rest, afterArrow, v.rest, more);
  }

  lemma {:induction false} Reassemble(text: Bytes, p: PairForm, sep: Bytes, gap: Bytes, sep': Bytes, ws: Bytes,
                                      afterKey: Bytes, afterArrow: Bytes, afterVal: Bytes, more: Option<Bytes>)
    requires p.gap == sep + gap && p.behind == sep' + ws
    requires text == p.before + FormText(p.key) + sep + afterKey
    requires afterKey == gap + [EQUALS, GREATER] + afterArrow
    requires afterArrow == p.gap' + FormText(p.val) + sep' + afterVal
    requires afterVal == if more.None? then ws else ws + [COMMA] + more.value
    ensures text == PairFormText(p) + if more.None? then [] else [COMMA] + more.value
    ensures more.None? ==> text == PairFormText(p)
  {
    hide FormText;
    var tail := if more.None? then [] else [COMMA] + more.value;
    assert afterVal == ws + tail;
    Join4(p.gap', FormText(p.val), sep', ws, tail);
    Join4(p.before, FormText(p.key), sep, gap, [EQUALS, GREATER] + afterArrow);
    assert gap + [EQUALS, GREATER] + afterArrow == gap + ([EQUALS, GREATER] + afterArrow);
    assert PairFormText(p) + tail ==
           p.before + FormText(p.key) + p.gap + ([EQUALS, GREATER] + (p.gap' + FormText(p.val) + p.behind + tail));
  }

  lemma {:induction false} Join4(a: Bytes, b: Bytes, c: Bytes, d: Bytes, e: Bytes)
    ensures a + b + c + (d + e) == a + b + (c + d) + e
  {
  }

  lemma {:induction false} ReadIsLayout(text: Bytes, done: seq<Pair>) returns (l: Layout)
    requires NulFree(text) && Parse(text, Key, done).Ok?
    ensures LayoutOk(l) && LayoutText(l) == text && Parse(text, Key, done) == Ok(done + LayoutPairs(l))
    decreases |text|
  {
    hide GetVal, Parse, PairOk, PairFormText, PairOf, Blank, NulFree;
    KeyStep(text, done);
    if GetVal(text, true, WaitVal, [], false).NoWord? {
      NoWordIsBlank(text, true);
      l := Nothing(text);
      assert done + [] == done;
    } else {
      var p, more := PairWasRead(text, done);
      if more.None? {
        l := Last(p);
      } else {
        assert PairFormText(p) + [COMMA] + more.value == text;
        NulFreeParts(PairFormText(p) + [COMMA], more.value);
        var tail := ReadIsLayout(more.value, done + [PairOf(p)]);
        l := Then(p, tail);
        assert done + [PairOf(p)] + LayoutPairs(tail) == done + LayoutPairs(l);
      }
    }
  }

  /** hstore_in reads a text as a list of pairs if and only if the text is written as that list. */
  lemma {:induction false} AcceptedIff(text: Bytes, pairs: seq<Pair>)
    requires NulFree(text)
    ensures ParseHstore(text) == Ok(pairs) <==>
            exists l :: LayoutOk(l) && LayoutText(l) == text && LayoutPairs(l) == pairs
  {
    hide Parse, LayoutOk, LayoutText, LayoutPairs;
    if ParseHstore(text) == Ok(pairs) {
      var l := ReadIsLayout(text, []);
      assert [] + LayoutPairs(l) == LayoutPairs(l);
    }
    if l :| LayoutOk(l) && LayoutText(l) == text && LayoutPairs(l) == pairs {
      LayoutIsRead(l, []);
      assert [] + LayoutPairs(l) == LayoutPairs(l);
    }
  }
}
