/**
 * The texts of intarray's query language, token by token: which text is read as which tokens, said without the
 * tokenizer.
 */
module QuerySpelling {
  import opened CLimits
  import opened QueryLexer

  /** A token as it stands in a text: some blanks and its characters. */
  datatype Lexeme = Lexeme(gap: nat, word: string, tok: Token)

  predicate Numeral(w: string) { w != "" && (IsDigit(w[0]) || w[0] == '-') && Digits(w[1..]) }

  /** The ways to write a token; a number has several. */
  predicate Spells(w: string, t: Token) {
    match t
    case TVal(v) => Numeral(w) && |w| < NUMBER_BUFFER && StrToL(w) == v && IsInt32(v)
    case TNot => w == "!"
    case TAnd => w == "&"
    case TOr => w == "|"
    case Open => w == "("
    case Close => w == ")"
    case _ => false
  }

  predicate Spelled(ls: seq<Lexeme>) { forall i :: 0 <= i < |ls| ==> Spells(ls[i].word, ls[i].tok) }

  function Spaces(n: nat): string { if n == 0 then "" else " " + Spaces(n - 1) }

  /** The text of the tokens, with blanks before each and at the end. */
  function Written(ls: seq<Lexeme>, gap: nat): string {
    if ls == [] then Spaces(gap) else Spaces(ls[0].gap) + ls[0].word + Written(ls[1..], gap)
  }

  function Toks(ls: seq<Lexeme>): seq<Token> { if ls == [] then [] else [ls[0].tok] + Toks(ls[1..]) }

  // ----- from the writing to the tokens -----

  lemma {:induction false} SkipGap(n: nat, s: string)
    ensures SkipSpaces(Spaces(n) + s) == SkipSpaces(s)
  {
    if n == 0 {
      assert "" + s == s;
    } else {
      assert (Spaces(n) + s)[1..] == Spaces(n - 1) + s;
      SkipGap(n - 1, s);
    }
  }

  /** Blanks before a token change nothing. */
  lemma {:induction false} GapIsSkipped(n: nat, s: string, wait: Wait, count: nat)
    ensures var a, b := NextToken(Lexer(Spaces(n) + s, wait, count)), NextToken(Lexer(s, wait, count));
            a.0 == b.0 && (!a.0.Err? ==> a.1 == b.1)
  {
    hide StrToL, DigitsAhead;
    SkipGap(n, s);
  }

  lemma {:induction false} NumberIsRead(w: string, v: int, rest: string, count: nat)
    requires Spells(w, TVal(v)) && !IsDigit(Peek(rest)) && (count > 0 ==> rest != "")
    ensures NextToken(Lexer(w + rest, Operand, count)) == (TVal(v), Lexer(rest, Operator, count))
  {
    hide StrToL;
    var s := w + rest;
    assert SkipSpaces(s) == s;
    forall i | 1 <= i < |w| ensures IsDigit(w[i]) { assert w[i] == w[1..][i - 1]; }
    DigitsRead(s, w, rest);
  }

  lemma {:induction false} SignIsRead(w: string, t: Token, rest: string, wait: Wait, count: nat)
    requires Spells(w, t) && !t.TVal? && (wait.Operand? <==> t.TNot? || t.Open?) && (t.Close? ==> count > 0)
    ensures NextToken(Lexer(w + rest, wait, count)) == (t, Lexer(rest, WaitAfter(t), CountAfter(t, count)))
  {
    hide StrToL, DigitsAhead;
    var s := w + rest;
    assert SkipSpaces(s) == s && s[1..] == rest;
  }

  function WaitAfter(t: Token): Wait { if t.TVal? || t.Close? then Operator else Operand }

  function CountAfter(t: Token, count: nat): nat {
    if t.Open? then count + 1 else if t.Close? && count > 0 then count - 1 else count
  }

  /** What follows a number is not a digit, and is something while a parenthesis is open. */
  lemma {:induction false} AfterNumber(ls: seq<Lexeme>, gap: nat, count: nat)
    requires Spelled(ls) && WellLexed(Toks(ls) + [End], Operator, count)
    ensures !IsDigit(Peek(Written(ls, gap))) && (count > 0 ==> Written(ls, gap) != "")
  {
    if ls == [] {
      assert Toks(ls) + [End] == [End];
      assert gap > 0 ==> Spaces(gap)[0] == ' ';
    } else {
      assert (Toks(ls) + [End])[0] == ls[0].tok;
      assert Spells(ls[0].word, ls[0].tok);
      assert ls[0].gap > 0 ==> Spaces(ls[0].gap)[0] == ' ';
    }
  }

  lemma {:induction false} EndIsRead(gap: nat)
    ensures Stream(Lexer(Spaces(gap), Operator, 0)) == [End]
  {
    assert Spaces(gap) + "" == Spaces(gap);
    SkipGap(gap, "");
    assert SkipSpaces("") == "";
  }

  lemma {:induction false} StreamStep(l: Lexer)
    ensures var (t, next) := NextToken(l);
            Stream(l) == if t.End? || t.Err? then [t] else [t] + Stream(next)
  {
  }

  lemma {:induction false} LexedStep(t: Token, ts: seq<Token>, wait: Wait, count: nat)
    requires WellLexed([t] + ts, wait, count) && !t.Err? && !t.End?
    ensures WellLexed(ts, WaitAfter(t), CountAfter(t, count))
    ensures wait.Operand? <==> t.TVal? || t.TNot? || t.Open?
    ensures t.Close? ==> count > 0
  {
    assert ([t] + ts)[1..] == ts;
  }

  lemma {:induction false} LexemeIsRead(x: Lexeme, rest: string, wait: Wait, count: nat)
    requires Spells(x.word, x.tok) && (wait.Operand? <==> x.tok.TVal? || x.tok.TNot? || x.tok.Open?)
    requires x.tok.Close? ==> count > 0
    requires x.tok.TVal? ==> !IsDigit(Peek(rest)) && (count > 0 ==> rest != "")
    ensures NextToken(Lexer(Spaces(x.gap) + x.word + rest, wait, count)) ==
            (x.tok, Lexer(rest, WaitAfter(x.tok), CountAfter(x.tok, count)))
  {
    hide NextToken;
    assert Spaces(x.gap) + x.word + rest == Spaces(x.gap) + (x.word + rest);
    GapIsSkipped(x.gap, x.word + rest, wait, count);
    if x.tok.TVal? {
      NumberIsRead(x.word, x.tok.v, rest, count);
    } else {
      SignIsRead(x.word, x.tok, rest, wait, count);
    }
  }

  /** Whatever the blanks and the way each number is written, the text of a token list is read as that list. */
  lemma {:induction false} WrittenIsRead(ls: seq<Lexeme>, gap: nat, wait: Wait, count: nat)
    requires Spelled(ls) && WellLexed(Toks(ls) + [End], wait, count)
    ensures Stream(Lexer(Written(ls, gap), wait, count)) == Toks(ls) + [End]
    decreases |ls|
  {
    hide NextToken, Stream;
    if ls == [] {
      assert Toks(ls) + [End] == [End];
      EndIsRead(gap);
    } else {
      var x, more := ls[0], ls[1..];
      assert Toks(ls) + [End] == [x.tok] + (Toks(more) + [End]);
      assert Spells(x.word, x.tok);
      LexedStep(x.tok, Toks(more) + [End], wait, count);
      if x.tok.TVal? { AfterNumber(more, gap, count); }
      LexemeIsRead(x, Written(more, gap), wait, count);
      StreamStep(Lexer(Written(ls, gap), wait, count));
      WrittenIsRead(more, gap, WaitAfter(x.tok), CountAfter(x.tok, count));
    }
  }

  // ----- from the tokens to the writing -----

  lemma {:induction false} LeadingGap(s: string) returns (n: nat)
    ensures s == Spaces(n) + SkipSpaces(s)
  {
    if s != "" && s[0] == ' ' {
      var m := LeadingGap(s[1..]);
      n := m + 1;
      assert s == " " + s[1..] && Spaces(n) == " " + Spaces(m);
    } else {
      n := 0;
    }
  }

  /** A token that was read stands in the text in one of its ways. */
  lemma {:induction false} ReadIsSpelled(l: Lexer) returns (x: Lexeme)
    requires !NextToken(l).0.End? && !NextToken(l).0.Err?
    ensures x.tok == NextToken(l).0 && Spells(x.word, x.tok)
    ensures l.rest == Spaces(x.gap) + x.word + NextToken(l).1.rest
  {
    hide StrToL;
    var gap := LeadingGap(l.rest);
    var s := SkipSpaces(l.rest);
    var (t, next) := NextToken(l);
    var n := if t.TVal? then 1 + DigitsAhead(s[1..]) else 1;
    x := Lexeme(gap, s[..n], t);
    assert s == s[..n] + s[n..] && next.rest == s[n..];
    assert l.rest == Spaces(gap) + s[..n] + s[n..];
    if t.TVal? {
      assert s[..n][0] == s[0];
      forall i | 0 <= i < n - 1 ensures IsDigit(s[..n][1..][i]) { assert s[..n][1..][i] == s[1..][i]; }
    } else {
      assert s[..1] == [s[0]];
    }
  }

  /** Every text that is read to its end is the writing of its tokens. */
  lemma {:induction false} ReadIsWritten(l: Lexer) returns (ls: seq<Lexeme>, gap: nat)
    requires '\0' !in l.rest && Stream(l)[|Stream(l)| - 1].End?
    ensures Spelled(ls) && Written(ls, gap) == l.rest && Toks(ls) + [End] == Stream(l)
    decreases |l.rest|
  {
    hide NextToken, Stream;
    var (t, next) := NextToken(l);
    StreamStep(l);
    if t.End? {
      gap := BlankRest(l);
      ls := [];
    } else {
      var x := ReadIsSpelled(l);
      var rest := next.rest;
      assert forall c :: c in rest ==> c in l.rest;
      var more;
      more, gap := ReadIsWritten(next);
      ls := [x] + more;
      assert ls[1..] == more;
    }
  }

  lemma {:induction false} BlankRest(l: Lexer) returns (gap: nat)
    requires '\0' !in l.rest && NextToken(l).0.End?
    ensures l.rest == Spaces(gap)
  {
    gap := LeadingGap(l.rest);
    var s := SkipSpaces(l.rest);
    assert forall c :: c in s ==> c in l.rest;
    assert Spaces(gap) + "" == Spaces(gap);
  }

  /** Exactly the texts that are read as a given list of tokens: blanks anywhere between the tokens, and each number
      in any way that means it. */
  lemma {:induction false} TextIsReadIff(text: string, ts: seq<Token>)
    requires '\0' !in text
    ensures Stream(Lexer(text, Operand, 0)) == ts + [End] <==>
            && WellLexed(ts + [End], Operand, 0)
            && exists ls, gap :: Spelled(ls) && Written(ls, gap) == text && Toks(ls) == ts
  {
    hide Stream, Spelled, Written, Toks, WellLexed;
    var l := Lexer(text, Operand, 0);
    if Stream(l) == ts + [End] {
      StreamIsWellLexed(l);
      var ls, gap := ReadIsWritten(l);
      assert Toks(ls) == (Toks(ls) + [End])[..|Toks(ls)|] && ts == (ts + [End])[..|ts|];
    }
    if WellLexed(ts + [End], Operand, 0) {
      if ls, gap :| Spelled(ls) && Written(ls, gap) == text && Toks(ls) == ts {
        WrittenIsRead(ls, gap, Operand, 0);
      }
    }
  }
}
