/**
 * The shift/reduce parser of intarray's query language and the grammar it implements:
 * `!` binds tighter than `&`, which binds tighter than `|`; both associate to the left.
 */
module QueryParser {
  import opened QueryTrees
  import opened QueryLexer

  const STACK_DEPTH := 16

  // ----- the grammar, by recursive descent -----

  datatype Parsed = Parsed(q: Query, rest: seq<Token>) | Bad | Deep

  /** atom ::= value | '!' atom | '(' or ')'; `used` operators are pending at this level. */
  function ParseAtom(ts: seq<Token>, used: nat): (p: Parsed)
    ensures p.Parsed? ==> |p.rest| < |ts|
    decreases |ts|, 0
  {
    if ts == [] then Bad
    else
      match ts[0]
      case TVal(v) => Parsed(Val(v), ts[1..])
      case TNot =>
        if used >= STACK_DEPTH then Deep
        else
          var p := ParseAtom(ts[1..], used + 1);
          if p.Parsed? then Parsed(Not(p.q), p.rest) else p
      case Open =>
        var p := ParseOr(ts[1..]);
        if !p.Parsed? then p
        else if p.rest != [] && p.rest[0].Close? then Parsed(p.q, p.rest[1..])
        else Bad
      case _ => Bad
  }

  /** and ::= atom { '&' atom }, with the left part already read */
  function ParseAndRest(acc: Query, ts: seq<Token>, used: nat): (p: Parsed)
    ensures p.Parsed? ==> |p.rest| <= |ts|
    decreases |ts|, 1
  {
    if ts == [] || !ts[0].TAnd? then Parsed(acc, ts)
    else
      var p := ParseAtom(ts[1..], used + 1);
      if p.Parsed? then ParseAndRest(And(acc, p.q), p.rest, used) else p
  }

  function ParseAnd(ts: seq<Token>, used: nat): (p: Parsed)
    ensures p.Parsed? ==> |p.rest| < |ts|
    decreases |ts|, 2
  {
    var p := ParseAtom(ts, used);
    if p.Parsed? then ParseAndRest(p.q, p.rest, used) else p
  }

  /** or ::= and { '|' and }, with the left part already read */
  function ParseOrRest(acc: Query, ts: seq<Token>): (p: Parsed)
    ensures p.Parsed? ==> |p.rest| <= |ts|
    decreases |ts|, 3
  {
    if ts == [] || !ts[0].TOr? then Parsed(acc, ts)
    else
      var p := ParseAnd(ts[1..], 1);
      if p.Parsed? then ParseOrRest(Or(acc, p.q), p.rest) else p
  }

  function ParseOr(ts: seq<Token>): (p: Parsed)
    ensures p.Parsed? ==> |p.rest| < |ts|
    decreases |ts|, 4
  {
    var p := ParseAnd(ts, 0);
    if p.Parsed? then ParseOrRest(p.q, p.rest) else p
  }

  // ----- makepol, on a stream of tokens -----

  datatype Polish = Polish(rest: seq<Token>, out: seq<Node>) | SyntaxError | TooComplex

  function Init<T>(s: seq<T>): seq<T>
    requires s != []
  {
    s[..|s| - 1]
  }

  function Last<T>(s: seq<T>): T
    requires s != []
  {
    s[|s| - 1]
  }

  predicate TopIsTight(stack: seq<Op>) {
    stack != [] && !Last(stack).OrOp?
  }

  /** The stack after popping every `&` and `!` from its top, and the nodes this emits. */
  function TightRest(stack: seq<Op>): seq<Op> {
    if TopIsTight(stack) then TightRest(Init(stack)) else stack
  }

  function TightOut(stack: seq<Op>): seq<Node> {
    if TopIsTight(stack) then [OprNode(Last(stack))] + TightOut(Init(stack)) else []
  }

  function PopAll(stack: seq<Op>): seq<Node> {
    if stack == [] then [] else [OprNode(Last(stack))] + PopAll(Init(stack))
  }

  /** makepol from the middle of its loop: pending operators, and the nodes emitted so far. */
  function MakePol(ts: seq<Token>, stack: seq<Op>, out: seq<Node>): (r: Polish)
    ensures r.Polish? ==> |r.rest| <= |ts|
    decreases |ts|
  {
    if ts == [] then SyntaxError
    else
      match ts[0]
      case End => Polish(ts, out + PopAll(stack))
      case Err => SyntaxError
      case TVal(v) => MakePol(ts[1..], TightRest(stack), out + [ValNode(v)] + TightOut(stack))
      case TNot => if |stack| >= STACK_DEPTH then TooComplex else MakePol(ts[1..], stack + [NotOp], out)
      case TAnd => if |stack| >= STACK_DEPTH then TooComplex else MakePol(ts[1..], stack + [AndOp], out)
      case TOr =>
        if stack != [] then MakePol(ts[1..], stack, out + [OprNode(OrOp)])
        else MakePol(ts[1..], [OrOp], out)
      case Open =>
        var inner := MakePol(ts[1..], [], out);
        if inner.Polish? then MakePol(inner.rest, TightRest(stack), inner.out + TightOut(stack)) else inner
      case Close => Polish(ts[1..], out + PopAll(stack))
  }

  // ----- makepol implements the grammar -----

  /** What makepol does with the rest once the grammar has accounted for some tokens. */
  ghost predicate Follows(r: Polish, p: Parsed, stack: seq<Op>, out: seq<Node>, emitted: seq<Node>, count: nat) {
    match p
    case Parsed(q, rest) => WellLexed(rest, Operator, count) && r == MakePol(rest, stack, out + emitted)
    case Bad => r == SyntaxError
    case Deep => r == TooComplex
  }

  ghost function PostOf(p: Parsed): seq<Node> {
    if p.Parsed? then Post(p.q) else []
  }

  lemma {:induction false} AtomRun(ts: seq<Token>, stack: seq<Op>, out: seq<Node>, count: nat)
    requires WellLexed(ts, Operand, count)
    ensures Follows(MakePol(ts, stack, out), ParseAtom(ts, |stack|), TightRest(stack), out,
                    PostOf(ParseAtom(ts, |stack|)) + TightOut(stack), count)
    decreases |ts|, 0
  {
    match ts[0] {
      case TVal(v) =>
        assert out + [ValNode(v)] + TightOut(stack) == out + (Post(Val(v)) + TightOut(stack));
      case TNot =>
        if |stack| < STACK_DEPTH {
          AtomRun(ts[1..], stack + [NotOp], out, count);
          NotOnTop(stack);
          var p := ParseAtom(ts[1..], |stack| + 1);
          assert p.Parsed? ==>
              Post(p.q) + ([OprNode(NotOp)] + TightOut(stack)) == Post(Not(p.q)) + TightOut(stack);
        }
      case Open =>
        WholeRun(ts[1..], out, count + 1);
        var p := ParseOr(ts[1..]);
        assert p.Parsed? ==> (out + Post(p.q)) + TightOut(stack) == out + (Post(p.q) + TightOut(stack));
      case Err =>
    }
  }

  lemma {:induction false} NotOnTop(stack: seq<Op>)
    ensures TightRest(stack + [NotOp]) == TightRest(stack)
    ensures TightOut(stack + [NotOp]) == [OprNode(NotOp)] + TightOut(stack)
  {
    assert Init(stack + [NotOp]) == stack;
  }

  /** Between two `&`-operands only an `|` can be pending. */
  predicate Base(stack: seq<Op>) { stack == [] || stack == [OrOp] }

  lemma {:induction false} AndOnTop(stack: seq<Op>)
    requires Base(stack)
    ensures TightRest(stack + [AndOp]) == stack && TightRest(stack) == stack
    ensures TightOut(stack + [AndOp]) == [OprNode(AndOp)] && TightOut(stack) == []
  {
    assert Init(stack + [AndOp]) == stack;
  }

  lemma {:induction false} AndRestRun(acc: Query, ts: seq<Token>, stack: seq<Op>, out: seq<Node>, count: nat)
    requires WellLexed(ts, Operator, count) && Base(stack)
    ensures Follows(MakePol(ts, stack, out + Post(acc)), ParseAndRest(acc, ts, |stack|), stack, out,
                    PostOf(ParseAndRest(acc, ts, |stack|)), count)
    decreases |ts|, 1
  {
    hide TightRest, TightOut, Post;
    if ts[0].TAnd? {
      AtomRun(ts[1..], stack + [AndOp], out + Post(acc), count);
      AndOnTop(stack);
      var p := ParseAtom(ts[1..], |stack| + 1);
      if p.Parsed? {
        AndNodes(out, acc, p.q);
        AndRestRun(And(acc, p.q), p.rest, stack, out, count);
      }
    }
  }

  lemma {:induction false} AndNodes(out: seq<Node>, l: Query, r: Query)
    ensures out + Post(l) + (Post(r) + [OprNode(AndOp)]) == out + Post(And(l, r))
  {
  }

  lemma {:induction false} AndRun(ts: seq<Token>, stack: seq<Op>, out: seq<Node>, count: nat)
    requires WellLexed(ts, Operand, count) && Base(stack)
    ensures Follows(MakePol(ts, stack, out), ParseAnd(ts, |stack|), stack, out, PostOf(ParseAnd(ts, |stack|)), count)
    decreases |ts|, 2
  {
    AtomRun(ts, stack, out, count);
    AndOnTop(stack);
    var p := ParseAtom(ts, |stack|);
    if p.Parsed? {
      assert Post(p.q) + [] == Post(p.q);
      AndRestRun(p.q, p.rest, stack, out, count);
    }
  }

  /** The nodes emitted for `acc` while its own `|` is still on the stack. */
  function Pending(acc: Query, pend: bool): seq<Node>
    requires pend ==> acc.Or?
  {
    if pend then Post(acc.l) + Post(acc.r) else Post(acc)
  }

  /** The end of a parenthesised part or of the whole text. */
  ghost predicate Finished(r: Polish, p: Parsed, out: seq<Node>, count: nat) {
    match p
    case Parsed(q, rest) =>
      && WellLexed(rest, Operator, count)
      && (match rest[0]
          case Close => r == Polish(rest[1..], out + Post(q))
          case End => r == Polish(rest, out + Post(q))
          case _ => rest[0].Err? && r == SyntaxError)
    case Bad => r == SyntaxError
    case Deep => r == TooComplex
  }

  lemma {:induction false} OrRestRun(acc: Query, ts: seq<Token>, pend: bool, out: seq<Node>, count: nat)
    requires WellLexed(ts, Operator, count) && !ts[0].TAnd?
    requires pend ==> acc.Or?
    ensures Finished(MakePol(ts, if pend then [OrOp] else [], out + Pending(acc, pend)), ParseOrRest(acc, ts), out,
                     count)
    decreases |ts|, 3
  {
    var stack := if pend then [OrOp] else [];
    PopPending(acc, pend, out);
    if ts[0].TOr? {
      AndRun(ts[1..], [OrOp], out + Post(acc), count);
      var p := ParseAnd(ts[1..], 1);
      if p.Parsed? {
        assert out + Post(acc) + Post(p.q) == out + Pending(Or(acc, p.q), true);
        AndStops(ts[1..], 1, count);
        OrRestRun(Or(acc, p.q), p.rest, true, out, count);
      }
    }
  }

  lemma {:induction false} PopPending(acc: Query, pend: bool, out: seq<Node>)
    requires pend ==> acc.Or?
    ensures out + Pending(acc, pend) + PopAll(if pend then [OrOp] else []) == out + Post(acc)
    ensures pend ==> out + Pending(acc, pend) + [OprNode(OrOp)] == out + Post(acc)
  {
    assert Init([OrOp]) == [];
  }

  /** ParseAnd leaves nothing that starts with `&`. */
  lemma {:induction false} AndStops(ts: seq<Token>, used: nat, count: nat)
    ensures ParseAnd(ts, used).Parsed? && ParseAnd(ts, used).rest != [] ==> !ParseAnd(ts, used).rest[0].TAnd?
  {
    var p := ParseAtom(ts, used);
    if p.Parsed? { AndRestStops(p.q, p.rest, used); }
  }

  lemma {:induction false} AndRestStops(acc: Query, ts: seq<Token>, used: nat)
    ensures var p := ParseAndRest(acc, ts, used); p.Parsed? && p.rest != [] ==> !p.rest[0].TAnd?
    decreases |ts|
  {
    if ts != [] && ts[0].TAnd? {
      var p := ParseAtom(ts[1..], used + 1);
      if p.Parsed? { AndRestStops(And(acc, p.q), p.rest, used); }
    }
  }

  /** One level of makepol consumes what the grammar reads and emits its postfix form. */
  lemma {:induction false} WholeRun(ts: seq<Token>, out: seq<Node>, count: nat)
    requires WellLexed(ts, Operand, count)
    ensures Finished(MakePol(ts, [], out), ParseOr(ts), out, count)
    decreases |ts|, 4
  {
    AndRun(ts, [], out, count);
    AndStops(ts, 0, count);
    var p := ParseAnd(ts, 0);
    if p.Parsed? {
      OrRestRun(p.q, p.rest, false, out, count);
    }
  }
}
