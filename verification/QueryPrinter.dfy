/**
 * Printing a stored query and reading it back.
 */
module QueryPrinter {
  import opened CLimits
  import opened QueryTrees
  import opened QueryLexer

  // ----- numbers -----

  function Digit(d: int): (c: char)
    requires 0 <= d < 10
    ensures IsDigit(c) && DigitValue(c) == d && c != ' ' && c != '-' && (c == '0' <==> d == 0)
  {
    ('0' as int + d) as char
  }

  function DecNat(n: nat): (s: string)
    ensures s != "" && (forall i :: 0 <= i < |s| ==> IsDigit(s[i]))
    ensures n > 0 ==> s[0] != '0'
  {
    if n < 10 then [Digit(n)] else DecNat(n / 10) + [Digit(n % 10)]
  }

  /** sprintf("%d") */
  function Dec(v: int): (s: string)
    ensures s != "" && (IsDigit(s[0]) || s[0] == '-')
    ensures forall i :: 1 <= i < |s| ==> IsDigit(s[i])
  {
    if v < 0 then "-" + DecNat(-v) else DecNat(v)
  }

  lemma {:induction false} DecimalAppend(d: string, c: char, acc: int)
    ensures Decimal(d + [c], acc) == 10 * Decimal(d, acc) + DigitValue(c)
    decreases |d|
  {
    if d == "" {
      assert d + [c] == [c];
    } else {
      assert (d + [c])[1..] == d[1..] + [c];
      DecimalAppend(d[1..], c, 10 * acc + DigitValue(d[0]));
    }
  }

  lemma {:induction false} DecimalOfDecNat(n: nat)
    ensures Decimal(DecNat(n), 0) == n
  {
    if n >= 10 {
      DecimalOfDecNat(n / 10);
      DecimalAppend(DecNat(n / 10), Digit(n % 10), 0);
    }
  }

  function Pow10(k: nat): int { if k == 0 then 1 else 10 * Pow10(k - 1) }

  lemma {:induction false} DecNatLength(n: nat, k: nat)
    requires 1 <= k && n < Pow10(k)
    ensures |DecNat(n)| <= k
  {
    if n >= 10 {
      assert k > 1 by { assert Pow10(1) == 10; }
      DecNatLength(n / 10, k - 1);
    }
  }

  lemma {:induction false} ReadBack(v: int)
    requires IsInt32(v)
    ensures StrToL(Dec(v)) == v && |Dec(v)| < NUMBER_BUFFER
  {
    var n := if v < 0 then -v else v;
    DecimalOfDecNat(n);
    assert Pow10(10) == 10000000000;
    DecNatLength(n, 10);
    if v < 0 {
      assert Dec(v)[1..] == DecNat(n);
    } else if v == 0 {
      assert Dec(0) == "0" && Octal("0", 0) == Octal("", 0);
    }
  }

  // ----- the printed text and its tokens -----

  /** infix: the text of a query; only an inner `|` and a negated operator get parentheses. */
  function Print(q: Query, first: bool): string {
    match q
    case Val(v) => Dec(v)
    case Not(x) => if x.Val? then "!" + Print(x, false) else "!" + ("( " + Print(x, true) + " )")
    case And(l, r) => Print(l, false) + " & " + Print(r, false)
    case Or(l, r) =>
      var t := Print(l, false) + " | " + Print(r, false);
      if first then t else "( " + t + " )"
  }

  function Toks(q: Query, first: bool): seq<Token> {
    match q
    case Val(v) => [TVal(v)]
    case Not(x) => if x.Val? then [TNot] + Toks(x, false) else [TNot] + ([Open] + Toks(x, true) + [Close])
    case And(l, r) => Toks(l, false) + [TAnd] + Toks(r, false)
    case Or(l, r) =>
      var t := Toks(l, false) + [TOr] + Toks(r, false);
      if first then t else [Open] + t + [Close]
  }

  predicate Int32Query(q: Query) {
    match q
    case Val(v) => IsInt32(v)
    case Not(x) => Int32Query(x)
    case And(l, r) => Int32Query(l) && Int32Query(r)
    case Or(l, r) => Int32Query(l) && Int32Query(r)
  }

  /** infix over the stored array, from the root at `pos` backwards: the right operand is
      printed to its own buffer before the left one. */
  method Infix(nodes: seq<Node>, pos: nat, first: bool, ghost q: Query) returns (text: string, next: int)
    requires pos < |nodes| && At(nodes, pos + 1 - |Post(q)|, Post(q))
    ensures text == Print(q, first) && next == pos - |Post(q)|
    decreases q
  {
    hide At, Post, Dec;
    ghost var lo := pos + 1 - |Post(q)|;
    OperandsAt(nodes, lo, q);
    match nodes[pos] {
      case ValNode(v) =>
        return Dec(v), pos - 1;
      case OprNode(op) =>
        if op == NotOp {
          OperandsAt(nodes, lo, q.q);
          var isOpr := nodes[pos - 1].OprNode?;
          text, next := Infix(nodes, pos - 1, isOpr, q.q);
          text := if isOpr then "!" + ("( " + text + " )") else "!" + text;
        } else {
          var right, mid := Infix(nodes, pos - 1, false, q.r);
          OperandsAt(nodes, lo, q.l);
          text, next := Infix(nodes, mid, false, q.l);
          text := text + (if op == OrOp then " | " else " & ") + right;
          if op == OrOp && !first {
            text := "( " + text + " )";
          }
        }
    }
  }

  // ----- reading the tokens back -----

  /** What may follow a printed operand: nothing at the outermost level, else a space. */
  predicate Tail(tail: string, count: nat) {
    (tail == "" && count == 0) || (tail != "" && tail[0] == ' ')
  }

  lemma {:induction false} SkipOneSpace(s: string, wait: Wait, count: nat)
    ensures Stream(Lexer(" " + s, wait, count)) == Stream(Lexer(s, wait, count))
  {
    assert (" " + s)[1..] == s;
    assert SkipSpaces(" " + s) == SkipSpaces(s);
    var a, b := NextToken(Lexer(" " + s, wait, count)), NextToken(Lexer(s, wait, count));
    assert a.0 == b.0 && (!a.0.Err? ==> a.1 == b.1);
  }

  /** A one-character token. */
  lemma {:induction false} ReadChar(c: char, s: string, wait: Wait, count: nat, t: Token, next: Lexer)
    requires c != ' ' && NextToken(Lexer([c] + s, wait, count)) == (t, next) && !t.End? && !t.Err?
    ensures Stream(Lexer([c] + s, wait, count)) == [t] + Stream(next)
  {
  }

  lemma {:induction false} ReadNot(s: string, count: nat)
    ensures Stream(Lexer("!" + s, Operand, count)) == [TNot] + Stream(Lexer(s, Operand, count))
  {
    assert ("!" + s)[1..] == s;
    ReadChar('!', s, Operand, count, TNot, Lexer(s, Operand, count));
  }

  lemma {:induction false} ReadOpen(s: string, count: nat)
    ensures Stream(Lexer("( " + s, Operand, count)) == [Open] + Stream(Lexer(s, Operand, count + 1))
  {
    assert "( " + s == "(" + (" " + s);
    assert ("(" + (" " + s))[1..] == " " + s;
    ReadChar('(', " " + s, Operand, count, Open, Lexer(" " + s, Operand, count + 1));
    SkipOneSpace(s, Operand, count + 1);
  }

  lemma {:induction false} ReadClose(s: string, count: nat)
    ensures Stream(Lexer(" )" + s, Operator, count + 1)) == [Close] + Stream(Lexer(s, Operator, count))
  {
    assert " )" + s == " " + (")" + s);
    assert (")" + s)[1..] == s;
    SkipOneSpace(")" + s, Operator, count + 1);
    ReadChar(')', s, Operator, count + 1, Close, Lexer(s, Operator, count));
  }

  lemma {:induction false} ReadBinary(c: char, s: string, count: nat)
    requires c == '&' || c == '|'
    ensures Stream(Lexer([' ', c, ' '] + s, Operator, count)) ==
            [if c == '&' then TAnd else TOr] + Stream(Lexer(s, Operand, count))
  {
    assert [' ', c, ' '] + s == " " + ([c] + (" " + s));
    assert ([c] + (" " + s))[1..] == " " + s;
    SkipOneSpace([c] + (" " + s), Operator, count);
    ReadChar(c, " " + s, Operator, count, if c == '&' then TAnd else TOr, Lexer(" " + s, Operand, count));
    SkipOneSpace(s, Operand, count);
  }

  lemma {:induction false} ReadValue(v: int, tail: string, count: nat)
    requires IsInt32(v) && Tail(tail, count)
    ensures Stream(Lexer(Dec(v) + tail, Operand, count)) == [TVal(v)] + Stream(Lexer(tail, Operator, count))
  {
    var s := Dec(v) + tail;
    ReadBack(v);
    assert SkipSpaces(s) == s;
    DigitsRead(s, Dec(v), tail);
    assert s[..|Dec(v)|] == Dec(v) && s[|Dec(v)|..] == tail;
    assert NextToken(Lexer(s, Operand, count)) == (TVal(v), Lexer(tail, Operator, count));
  }

  /** The tokens of a printed query are those of its tree. */
  lemma {:induction false} ReadPrinted(q: Query, first: bool, tail: string, count: nat)
    requires Int32Query(q) && Tail(tail, count)
    ensures Stream(Lexer(Print(q, first) + tail, Operand, count)) ==
            Toks(q, first) + Stream(Lexer(tail, Operator, count))
    decreases q, 2
  {
    match q
    case Val(v) => ReadValue(v, tail, count);
    case Not(x) => ReadPrintedNot(x, first, tail, count);
    case And(_, _) => ReadPrintedPair(q, tail, count);
    case Or(_, _) => if first { ReadPrintedPair(q, tail, count); } else { ReadPrintedOr(q, tail, count); }
  }

  lemma {:induction false} ReadPrintedOr(q: Query, tail: string, count: nat)
    requires q.Or? && Int32Query(q) && Tail(tail, count)
    ensures Stream(Lexer(Print(q, false) + tail, Operand, count)) ==
            Toks(q, false) + Stream(Lexer(tail, Operator, count))
    decreases q, 1
  {
    hide Stream;
    var t := Print(q.l, false) + " | " + Print(q.r, false);
    var ts := Toks(q.l, false) + [TOr] + Toks(q.r, false);
    assert "( " + t + " )" + tail == "( " + (t + (" )" + tail));
    ReadOpen(t + (" )" + tail), count);
    ReadPrintedPair(q, " )" + tail, count + 1);
    ReadClose(tail, count);
    var s := Stream(Lexer(tail, Operator, count));
    assert [Open] + (ts + ([Close] + s)) == [Open] + ts + [Close] + s;
  }

  lemma {:induction false} ReadPrintedNot(x: Query, first: bool, tail: string, count: nat)
    requires Int32Query(x) && Tail(tail, count)
    ensures Stream(Lexer(Print(Not(x), first) + tail, Operand, count)) ==
            Toks(Not(x), first) + Stream(Lexer(tail, Operator, count))
    decreases Not(x), 0
  {
    hide Stream;
    var s := Stream(Lexer(tail, Operator, count));
    if x.Val? {
      var t := Print(x, false);
      assert "!" + t + tail == "!" + (t + tail);
      ReadNot(t + tail, count);
      ReadPrinted(x, false, tail, count);
      assert [TNot] + (Toks(x, false) + s) == [TNot] + Toks(x, false) + s;
    } else {
      var t := Print(x, true);
      assert "!" + ("( " + t + " )") + tail == "!" + ("( " + (t + (" )" + tail)));
      ReadNot("( " + (t + (" )" + tail)), count);
      ReadOpen(t + (" )" + tail), count);
      ReadPrinted(x, true, " )" + tail, count + 1);
      ReadClose(tail, count);
      assert [TNot] + ([Open] + (Toks(x, true) + ([Close] + s))) ==
             [TNot] + ([Open] + Toks(x, true) + [Close]) + s;
    }
  }

  /** Two operands joined by `&` or `|`, without parentheses around them. */
  lemma {:induction false} ReadPrintedPair(q: Query, tail: string, count: nat)
    requires (q.And? || q.Or?) && Int32Query(q) && Tail(tail, count)
    ensures Stream(Lexer(Print(q, true) + tail, Operand, count)) ==
            Toks(q, true) + Stream(Lexer(tail, Operator, count))
    decreases q, 0
  {
    hide Stream, Print, Toks;
    var c := if q.And? then '&' else '|';
    var t := if q.And? then TAnd else TOr;
    var a, b, mid := Print(q.l, false), Print(q.r, false), [' ', c, ' '];
    PairShape(q);
    Regroup(a, mid, b, tail);
    ReadPrinted(q.l, false, mid + (b + tail), count);
    ReadBinary(c, b + tail, count);
    ReadPrinted(q.r, false, tail, count);
    Regroup(Toks(q.l, false), [t], Toks(q.r, false), Stream(Lexer(tail, Operator, count)));
  }

  lemma {:induction false} PairShape(q: Query)
    requires q.And? || q.Or?
    ensures Print(q, true) == Print(q.l, false) + [' ', if q.And? then '&' else '|', ' '] + Print(q.r, false)
    ensures Toks(q, true) == Toks(q.l, false) + [if q.And? then TAnd else TOr] + Toks(q.r, false)
  {
  }

  lemma {:induction false} Regroup<T>(a: seq<T>, b: seq<T>, c: seq<T>, d: seq<T>)
    ensures a + b + c + d == a + (b + (c + d))
  {
  }
}
