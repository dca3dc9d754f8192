/**
 * The tokenizer of intarray's query language.  A query text is a C string: it holds no NUL
 * and reading at its end yields NUL.
 */
module QueryLexer {
  import opened CLimits

  datatype Token = End | Err | TVal(v: int) | TNot | TAnd | TOr | Open | Close

  /** The state in which a token is awaited: WAITOPERAND or WAITOPERATOR. */
  datatype Wait = Operand | Operator

  /** WORKSTATE between two calls of gettoken: unread text, state, open parentheses. */
  datatype Lexer = Lexer(rest: string, wait: Wait, count: nat)

  const NUMBER_BUFFER := 16

  predicate IsDigit(c: char) { '0' <= c <= '9' }

  /** The character at the read position. */
  function Peek(s: string): char {
    if s == "" then '\0' else s[0]
  }

  function SkipSpaces(s: string): (r: string)
    ensures |r| <= |s| && Peek(r) != ' '
  {
    if s != "" && s[0] == ' ' then SkipSpaces(s[1..]) else s
  }

  function DigitsAhead(s: string): (n: nat)
    ensures n <= |s|
    ensures forall i :: 0 <= i < n ==> IsDigit(s[i])
    ensures n < |s| ==> !IsDigit(s[n])
  {
    if s != "" && IsDigit(s[0]) then 1 + DigitsAhead(s[1..]) else 0
  }

  function DigitValue(c: char): int { c as int - '0' as int }

  function Decimal(d: string, acc: int): int {
    if d == "" then acc else Decimal(d[1..], 10 * acc + DigitValue(d[0]))
  }

  /** Octal digits up to the first character that is not one. */
  function Octal(d: string, acc: int): int {
    if d == "" || !('0' <= d[0] <= '7') then acc else Octal(d[1..], 8 * acc + DigitValue(d[0]))
  }

  function Unsigned(s: string): string {
    if Peek(s) == '-' then s[1..] else s
  }

  /** strtol with base 0 on an optional minus sign and decimal digits. */
  function StrToL(s: string): int {
    var d := Unsigned(s);
    var n := if Peek(d) == '0' then Octal(d, 0) else Decimal(d, 0);
    if Peek(s) == '-' then -n else n
  }

  /** The number that the text says in decimal notation. */
  function DecimalValue(s: string): int {
    if Peek(s) == '-' then -Decimal(Unsigned(s), 0) else Decimal(Unsigned(s), 0)
  }

  predicate Digits(d: string) { forall i :: 0 <= i < |d| ==> IsDigit(d[i]) }

  lemma {:induction false} OctalIsLess(d: string, o: int, a: int)
    requires Digits(d) && 0 <= o < a
    ensures Octal(d, o) < Decimal(d, a) && a <= Decimal(d, a)
  {
    if d != "" {
      OctalIsLess(d[1..], if d[0] <= '7' then 8 * o + DigitValue(d[0]) else o, 10 * a + DigitValue(d[0]));
    }
  }

  lemma {:induction false} OctalIsDecimalIff(d: string)
    requires Digits(d)
    ensures Octal(d, 0) == Decimal(d, 0) <==> Decimal(d, 0) < 8
  {
    if d != "" {
      var c := DigitValue(d[0]);
      if c == 0 {
        OctalIsDecimalIff(d[1..]);
      } else if c >= 8 {
        OctalIsLess(d[1..], 0, c);
      } else if |d| > 1 {
        var x := DigitValue(d[1]);
        assert Decimal(d, 0) == Decimal(d[1..][1..], 10 * c + x);
        OctalIsLess(d[1..][1..], if d[1] <= '7' then 8 * c + x else c, 10 * c + x);
      }
    }
  }

  /** Exactly when a number in a query means what it says: unless it starts with a zero and
      is eight or more, for then strtol takes it for octal. */
  lemma {:induction false} NumberIsDecimalIff(s: string)
    requires s != "" && (IsDigit(s[0]) || s[0] == '-') && Digits(s[1..])
    ensures StrToL(s) == DecimalValue(s) <==> Peek(Unsigned(s)) != '0' || Decimal(Unsigned(s), 0) < 8
  {
    var d := Unsigned(s);
    assert Digits(d) by {
      forall i | 0 <= i < |d| ensures IsDigit(d[i]) {
        assert i > 0 ==> s[i] == s[1..][i - 1];
      }
    }
    OctalIsDecimalIff(d);
  }

  /** gettoken */
  function NextToken(l: Lexer): (r: (Token, Lexer))
    ensures !r.0.End? && !r.0.Err? ==> |r.1.rest| < |l.rest|
  {
    var s := SkipSpaces(l.rest);
    var c := Peek(s);
    match l.wait
    case Operand =>
      if IsDigit(c) || c == '-' then
        var n := 1 + DigitsAhead(s[1..]);
        if n >= NUMBER_BUFFER || !IsInt32(StrToL(s[..n])) then (Err, l)
        else if l.count > 0 && s[n..] == "" then (Err, l)
        else (TVal(StrToL(s[..n])), Lexer(s[n..], Operator, l.count))
      else if c == '!' then (TNot, Lexer(s[1..], Operand, l.count))
      else if c == '(' then (Open, Lexer(s[1..], Operand, l.count + 1))
      else (Err, l)
    case Operator =>
      if c == '&' then (TAnd, Lexer(s[1..], Operand, l.count))
      else if c == '|' then (TOr, Lexer(s[1..], Operand, l.count))
      else if c == ')' then
        if l.count == 0 then (Err, l) else (Close, Lexer(s[1..], Operator, l.count - 1))
      else if c == '\0' && l.count == 0 then (End, Lexer(s, Operator, 0))
      else (Err, l)
  }

  /** All tokens up to and including the one that ends the parse. */
  function Stream(l: Lexer): (ts: seq<Token>)
    ensures ts != []
    decreases |l.rest|
  {
    var (t, next) := NextToken(l);
    if t.End? || t.Err? then [t] else [t] + Stream(next)
  }

  /** Each token is one its state can produce, and parentheses balance up to the end. */
  predicate WellLexed(ts: seq<Token>, wait: Wait, count: nat) {
    && ts != []
    && match ts[0]
       case Err => |ts| == 1
       case End => |ts| == 1 && wait.Operator? && count == 0
       case TVal(v) => wait.Operand? && IsInt32(v) && WellLexed(ts[1..], Operator, count)
       case TNot => wait.Operand? && WellLexed(ts[1..], Operand, count)
       case Open => wait.Operand? && WellLexed(ts[1..], Operand, count + 1)
       case TAnd => wait.Operator? && WellLexed(ts[1..], Operand, count)
       case TOr => wait.Operator? && WellLexed(ts[1..], Operand, count)
       case Close => wait.Operator? && count > 0 && WellLexed(ts[1..], Operator, count - 1)
  }

  /** "010" is read as eight, and a minus sign alone as zero. */
  lemma {:induction false} NumbersThatMislead()
    ensures Stream(Lexer("010", Operand, 0)) == [TVal(8), End] && DecimalValue("010") == 10
    ensures Stream(Lexer("-", Operand, 0)) == [TVal(0), End]
  {
    var ten := Lexer("010", Operand, 0);
    assert "010"[1..] == "10" && "10"[1..] == "0" && "0"[1..] == "";
    assert DigitsAhead("10") == 2 && "010"[..3] == "010" && "010"[3..] == "";
    assert Octal("010", 0) == Octal("10", 0) == Octal("0", 1) == Octal("", 8) == 8;
    assert Decimal("010", 0) == Decimal("10", 0) == Decimal("0", 1) == 10;
    assert StrToL("010") == 8;
    assert NextToken(ten) == (TVal(8), Lexer("", Operator, 0));
    assert "-"[1..] == "" && "-"[..1] == "-" && Decimal("", 0) == 0;
    assert NextToken(Lexer("-", Operand, 0)) == (TVal(0), Lexer("", Operator, 0));
    assert NextToken(Lexer("", Operator, 0)) == (End, Lexer("", Operator, 0));
    assert Stream(Lexer("", Operator, 0)) == [End];
  }

  lemma {:induction false} StreamIsWellLexed(l: Lexer)
    ensures WellLexed(Stream(l), l.wait, l.count)
    decreases |l.rest|
  {
    var (t, next) := NextToken(l);
    if !t.End? && !t.Err? {
      StreamIsWellLexed(next);
      assert Stream(l)[1..] == Stream(next);
    }
  }

  // ----- the tokenizer as written -----

  datatype CharState = WaitOperand | WaitEndOperand | WaitOperator

  function WaitOf(s: CharState): Wait {
    if s.WaitOperator? then Operator else Operand
  }

  class WorkState {
    var buf: string
    var state: CharState
    var count: int

    constructor (text: string)
      ensures buf == text && state == WaitOperand && count == 0
    {
      buf, state, count := text, WaitOperand, 0;
    }

    ghost predicate Valid()
      reads this
    {
      '\0' !in buf && count >= 0 && !state.WaitEndOperand?
    }

    function Position(): Lexer
      requires count >= 0
      reads this
    {
      Lexer(buf, WaitOf(state), count)
    }

    /** gettoken, one character per round. */
    method GetToken() returns (t: Token)
      requires Valid()
      modifies this
      ensures t == NextToken(old(Position())).0
      ensures t.Err? || (Valid() && Position() == NextToken(old(Position())).1)
    {
      hide StrToL, IsInt32, DigitsAhead;
      ghost var start := Position();
      ghost var s := SkipSpaces(start.rest);
      var nnn := "";
      while true
        invariant count == start.count
        invariant '\0' !in buf
        invariant !state.WaitEndOperand? ==> WaitOf(state) == start.wait && nnn == "" && SkipSpaces(buf) == s
        invariant state.WaitEndOperand? ==>
                    start.wait.Operand? && nnn != "" && s == nnn + buf && (IsDigit(nnn[0]) || nnn[0] == '-') &&
                    forall i :: 1 <= i < |nnn| ==> IsDigit(nnn[i])
        decreases |buf|
      {
        if |nnn| >= NUMBER_BUFFER {
          DigitsRead(s, nnn, buf);
          return Err;
        }
        var c := Peek(buf);
        match state {
          case WaitOperand =>
            if IsDigit(c) || c == '-' {
              state := WaitEndOperand;
              nnn := [c];
            } else if c == '!' {
              buf := buf[1..];
              return TNot;
            } else if c == '(' {
              count := count + 1;
              buf := buf[1..];
              return Open;
            } else if c != ' ' {
              return Err;
            }
          case WaitEndOperand =>
            if IsDigit(c) {
              nnn := nnn + [c];
            } else {
              DigitsRead(s, nnn, buf);
              var lval := StrToL(nnn);
              if !IsInt32(lval) { return Err; }
              state := WaitOperator;
              return if count != 0 && buf == "" then Err else TVal(lval);
            }
          case WaitOperator =>
            if c == '&' || c == '|' {
              state := WaitOperand;
              buf := buf[1..];
              return if c == '&' then TAnd else TOr;
            } else if c == ')' {
              buf := buf[1..];
              count := count - 1;
              return if count < 0 then Err else Close;
            } else if c == '\0' {
              return if count != 0 then Err else End;
            } else if c != ' ' {
              return Err;
            }
        }
        buf := buf[1..];
      }
    }
  }

  /** The digits buffered so far are those of the whole number once a non-digit follows. */
  lemma {:induction false} DigitsRead(s: string, nnn: string, buf: string)
    requires nnn != "" && s == nnn + buf
    requires forall i :: 1 <= i < |nnn| ==> IsDigit(nnn[i])
    ensures 1 + DigitsAhead(s[1..]) >= |nnn|
    ensures !IsDigit(Peek(buf)) ==> 1 + DigitsAhead(s[1..]) == |nnn| && s[..|nnn|] == nnn && s[|nnn|..] == buf
  {
    var n := DigitsAhead(s[1..]);
    assert forall i :: 0 <= i < |nnn| - 1 ==> IsDigit(s[1..][i]);
    if n > |nnn| - 1 {
      assert s[1..][|nnn| - 1] == buf[0];
    }
  }
}
