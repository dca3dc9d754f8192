/**
 * Reading a query: makepol with its operator stack, and bqarr_in.
 */
module QueryInput {
  import opened CLimits
  import opened QueryTrees
  import opened QueryLexer
  import opened QueryParser

  const MAX_ITEMS := (MAX_ALLOC_SIZE - 8) / 8

  /** The outcome of makepol: the nodes emitted, or the error raised. */
  datatype Emitted = Emitted(str: seq<Node>) | NoSyntax | NoRoom

  ghost predicate Realizes(r: Emitted, p: Polish, ws: WorkState)
    reads ws
  {
    match p
    case Polish(rest, out) => r == Emitted(out) && ws.Valid() && Stream(ws.Position()) == rest
    case SyntaxError => r == NoSyntax
    case TooComplex => r == NoRoom
  }

  /** makepol: one level of parentheses.  `str` grows by what this level emits. */
  method MakePolish(ws: WorkState, str: seq<Node>) returns (r: Emitted)
    requires ws.Valid()
    modifies ws
    ensures Realizes(r, MakePol(Stream(old(ws.Position())), [], str), ws)
    ensures r.Emitted? ==> |ws.buf| <= old(|ws.buf|)
    decreases |ws.buf|
  {
    hide MakePol, Stream, NextToken, TightRest, TightOut, PopAll;
    var stack := new Op[STACK_DEPTH];
    var len, out := 0, str;
    ghost var goal := MakePol(Stream(ws.Position()), [], str);
    assert stack[..0] == [];
    while true
      invariant 0 <= len <= STACK_DEPTH && ws.Valid()
      invariant MakePol(Stream(ws.Position()), stack[..len], out) == goal
      invariant |ws.buf| <= old(|ws.buf|)
      decreases |ws.buf|
    {
      ghost var ops, at := stack[..len], ws.Position();
      StreamStep(at);
      MakePolStep(Stream(at), ops, out);
      var t := ws.GetToken();
      match t {
        case End =>
          var popped := PopStack(stack, len);
          return Emitted(out + popped);
        case Err =>
          return NoSyntax;
        case TVal(v) =>
          var popped;
          len, popped := PopTight(stack, len);
          out := out + [ValNode(v)] + popped;
        case TNot =>
          if len == STACK_DEPTH { return NoRoom; }
          stack[len], len := NotOp, len + 1;
          assert stack[..len] == ops + [NotOp];
        case TAnd =>
          if len == STACK_DEPTH { return NoRoom; }
          stack[len], len := AndOp, len + 1;
          assert stack[..len] == ops + [AndOp];
        case TOr =>
          if len > 0 {
            out := out + [OprNode(OrOp)];
          } else {
            stack[0], len := OrOp, 1;
            assert stack[..len] == [OrOp];
          }
        case Open =>
          var inner := MakePolish(ws, out);
          if !inner.Emitted? { return inner; }
          assert stack[..len] == ops;
          var popped;
          len, popped := PopTight(stack, len);
          out := inner.str + popped;
        case Close =>
          var popped := PopStack(stack, len);
          return Emitted(out + popped);
      }
    }
  }

  lemma {:induction false} StreamStep(l: Lexer)
    ensures Stream(l)[0] == NextToken(l).0
    ensures !NextToken(l).0.End? && !NextToken(l).0.Err? ==> Stream(l)[1..] == Stream(NextToken(l).1)
    ensures NextToken(l).0.End? ==> Stream(NextToken(l).1) == Stream(l)
    ensures |NextToken(l).1.rest| <= |l.rest|
  {
    var (t, next) := NextToken(l);
    if t.End? {
      assert SkipSpaces(next.rest) == next.rest;
      assert NextToken(next) == (End, next);
    }
  }

  /** One round of makepol's loop. */
  lemma {:induction false} MakePolStep(ts: seq<Token>, stack: seq<Op>, out: seq<Node>)
    requires ts != []
    ensures MakePol(ts, stack, out) ==
            match ts[0]
            case End => Polish(ts, out + PopAll(stack))
            case Err => SyntaxError
            case TVal(v) => MakePol(ts[1..], TightRest(stack), out + [ValNode(v)] + TightOut(stack))
            case TNot => if |stack| >= STACK_DEPTH then TooComplex else MakePol(ts[1..], stack + [NotOp], out)
            case TAnd => if |stack| >= STACK_DEPTH then TooComplex else MakePol(ts[1..], stack + [AndOp], out)
            case TOr =>
              if stack == [] then MakePol(ts[1..], [OrOp], out) else MakePol(ts[1..], stack, out + [OprNode(OrOp)])
            case Open =>
              var inner := MakePol(ts[1..], [], out);
              if inner.Polish? then MakePol(inner.rest, TightRest(stack), inner.out + TightOut(stack)) else inner
            case Close => Polish(ts[1..], out + PopAll(stack))
  {
  }

  /** while (lenstack && top is & or !) */
  method PopTight(stack: array<Op>, len0: nat) returns (len: nat, popped: seq<Node>)
    requires len0 <= stack.Length
    ensures len <= len0 && stack[..len] == TightRest(stack[..len0]) && popped == TightOut(stack[..len0])
  {
    len, popped := len0, [];
    while len > 0 && !stack[len - 1].OrOp?
      invariant 0 <= len <= len0
      invariant TightRest(stack[..len]) == TightRest(stack[..len0])
      invariant popped + TightOut(stack[..len]) == TightOut(stack[..len0])
    {
      assert Init(stack[..len]) == stack[..len - 1];
      len, popped := len - 1, popped + [OprNode(stack[len - 1])];
    }
  }

  /** while (lenstack) */
  method PopStack(stack: array<Op>, len0: nat) returns (popped: seq<Node>)
    requires len0 <= stack.Length
    ensures popped == PopAll(stack[..len0])
  {
    var len := len0;
    popped := [];
    while len > 0
      invariant 0 <= len <= len0
      invariant popped + PopAll(stack[..len]) == PopAll(stack[..len0])
    {
      assert Init(stack[..len]) == stack[..len - 1];
      len, popped := len - 1, popped + [OprNode(stack[len - 1])];
    }
  }

  datatype Input = Stored(nodes: seq<Node>, left: seq<int>) | BadSyntax | TooDeep | TooManyItems

  /** The tree that the grammar gives a whole text. */
  function Meaning(text: string): Parsed {
    var p := ParseOr(Stream(Lexer(text, Operand, 0)));
    if p.Parsed? && p.rest != [End] then Bad else p
  }

  /** bqarr_in accepts exactly the texts of the grammar, within its limits on pending
      operators and items, and stores the postfix form of their tree with its links. */
  method BqarrIn(text: string) returns (r: Input)
    requires '\0' !in text
    ensures match Meaning(text)
            case Parsed(q, _) => r == if |Post(q)| > MAX_ITEMS then TooManyItems else Stored(Post(q), Links(q))
            case Bad => r == BadSyntax
            case Deep => r == TooDeep
  {
    hide NextToken, Stream, MakePol, ParseOr, WellLexed, Links, Post;
    var ws := new WorkState(text);
    ghost var ts := Stream(ws.Position());
    StreamIsWellLexed(ws.Position());
    WholeRun(ts, [], 0);
    var e := MakePolish(ws, []);
    match e {
      case NoSyntax => return BadSyntax;
      case NoRoom => return TooDeep;
      case Emitted(str) =>
        ghost var q := ParseOr(ts).q;
        WholeText(ts);
        assert str == Post(q) by { assert [] + Post(q) == Post(q); }
        if |str| > MAX_ITEMS { return TooManyItems; }
        r := Linked(str, q);
    }
  }

  method Linked(str: seq<Node>, ghost q: Query) returns (r: Input)
    requires str == Post(q)
    ensures r == Stored(str, Links(q))
  {
    hide Links, Post;
    var left := new int[|str|];
    var next := FindOperand(str, left, |str| - 1, q);
    assert left[..] == left[..][0..0 + |Links(q)|];
    r := Stored(str, left[..]);
  }

  /** At the outermost level only the end of the text can stop the grammar. */
  lemma {:induction false} WholeText(ts: seq<Token>)
    requires WellLexed(ts, Operand, 0) && MakePol(ts, [], []).Polish?
    ensures ParseOr(ts).Parsed? && ParseOr(ts).rest == [End]
  {
    WholeRun(ts, [], 0);
    var p := ParseOr(ts);
    assert p.Parsed?;
    assert p.rest[0].End? && |p.rest| == 1;
  }
}
