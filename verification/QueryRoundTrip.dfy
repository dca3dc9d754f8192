/**
 * A printed query is accepted again, needs no deep operator stack, and means the same,
 * although right-nested conjunctions come back re-associated.
 */
module QueryRoundTrip {
  import opened CLimits
  import opened Options
  import opened QueryTrees
  import opened QueryLexer
  import opened QueryParser
  import opened QueryInput
  import opened QueryPrinter

  /** `x & y` when y's conjunctions are unrolled to the left. */
  function JoinAnd(x: Query, y: Query): (r: Query)
    ensures r.And?
    decreases y
  {
    if y.And? then And(JoinAnd(x, y.l), y.r) else And(x, y)
  }

  /** The tree that reading a printed query gives. */
  function Norm(q: Query): (r: Query)
    ensures r.Val? <==> q.Val?
    ensures r.And? <==> q.And?
    ensures r.Or? <==> q.Or?
  {
    match q
    case Val(_) => q
    case Not(x) => Not(Norm(x))
    case And(l, r) => JoinAnd(Norm(l), Norm(r))
    case Or(l, r) => Or(Norm(l), Norm(r))
  }

  lemma {:induction false} JoinAssociative(a: Query, x: Query, y: Query)
    ensures JoinAnd(JoinAnd(a, x), y) == JoinAnd(a, JoinAnd(x, y))
    decreases y
  {
    if y.And? { JoinAssociative(a, x, y.l); }
  }

  function JoinTo(acc: Option<Query>, x: Query): Query {
    if acc.Some? then JoinAnd(acc.value, x) else x
  }

  /** Reading an operand of a conjunction whose left part, if any, is `acc`. */
  function ParseOperands(acc: Option<Query>, ts: seq<Token>, used: nat): Parsed {
    var p := ParseAtom(ts, if acc.Some? then used + 1 else used);
    if p.Parsed? then ParseAndRest(if acc.Some? then And(acc.value, p.q) else p.q, p.rest, used) else p
  }

  lemma {:induction false} AtomToks(q: Query, rest: seq<Token>, used: nat)
    requires !q.And? && (q.Not? ==> used < STACK_DEPTH)
    ensures ParseAtom(Toks(q, false) + rest, used) == Parsed(Norm(q), rest)
    decreases q, if q.Or? then 4 else 0
  {
    hide ParseOr;
    match q
    case Val(v) =>
      assert ([TVal(v)] + rest)[1..] == rest;
    case Not(x) =>
      var inner := if x.Val? then Toks(x, false) else [Open] + Toks(x, true) + [Close];
      assert ([TNot] + inner + rest)[1..] == inner + rest;
      if x.Val? {
        AtomToks(x, rest, used + 1);
      } else {
        Parenthesised(x, rest, used + 1);
      }
    case Or(_, _) =>
      Parenthesised(q, rest, used);
  }

  lemma {:induction false} Parenthesised(q: Query, rest: seq<Token>, used: nat)
    ensures ParseAtom([Open] + Toks(q, true) + [Close] + rest, used) == Parsed(Norm(q), rest)
    decreases q, 3
  {
    hide ParseOr;
    var ts := [Open] + Toks(q, true) + [Close] + rest;
    assert ts[1..] == Toks(q, true) + ([Close] + rest);
    OrToks(q, [Close] + rest);
    assert ([Close] + rest)[1..] == rest;
  }

  lemma {:induction false} OperandToks(q: Query, acc: Option<Query>, rest: seq<Token>, used: nat)
    requires used <= 1
    ensures ParseOperands(acc, Toks(q, false) + rest, used) == ParseAndRest(JoinTo(acc, Norm(q)), rest, used)
    decreases q, if q.Or? then 5 else 1
  {
    hide ParseAtom;
    if q.And? {
      var tail := [TAnd] + (Toks(q.r, false) + rest);
      assert Toks(q, false) + rest == Toks(q.l, false) + tail;
      OperandToks(q.l, acc, tail, used);
      var joined := JoinTo(acc, Norm(q.l));
      assert tail[1..] == Toks(q.r, false) + rest;
      OperandToks(q.r, Some(joined), rest, used);
      if acc.Some? { JoinAssociative(acc.value, Norm(q.l), Norm(q.r)); }
    } else {
      AtomToks(q, rest, if acc.Some? then used + 1 else used);
    }
  }

  predicate Stops(rest: seq<Token>) {
    rest != [] && !rest[0].TAnd? && !rest[0].TOr?
  }

  lemma {:induction false} OrToks(q: Query, rest: seq<Token>)
    requires Stops(rest)
    ensures ParseOr(Toks(q, true) + rest) == Parsed(Norm(q), rest)
    decreases q, 2
  {
    hide ParseAtom;
    if q.Or? {
      var tail := [TOr] + (Toks(q.r, false) + rest);
      assert Toks(q, true) + rest == Toks(q.l, false) + tail;
      OperandToks(q.l, None, tail, 0);
      assert tail[1..] == Toks(q.r, false) + rest;
      OperandToks(q.r, None, rest, 1);
      assert ParseAnd(tail[1..], 1) == Parsed(Norm(q.r), rest);
      assert ParseOrRest(Or(Norm(q.l), Norm(q.r)), rest) == Parsed(Norm(q), rest);
      assert ParseOrRest(Norm(q.l), tail) == Parsed(Norm(q), rest);
    } else {
      assert Toks(q, true) == Toks(q, false);
      OperandToks(q, None, rest, 0);
    }
  }

  /** bqarr_in reads what bqarr_out prints, for every query over 32-bit values: the grammar
      accepts the text without reaching any limit on pending operators. */
  lemma {:induction false} PrintedIsAccepted(q: Query)
    requires Int32Query(q)
    ensures Meaning(Print(q, true)) == Parsed(Norm(q), [End])
  {
    var text := Print(q, true);
    ReadPrinted(q, true, "", 0);
    assert text + "" == text;
    assert Stream(Lexer("", Operator, 0)) == [End];
    OrToks(q, [End]);
  }

  lemma {:induction false} JoinMeaning(x: Query, y: Query, has: int -> bool)
    ensures Eval(JoinAnd(x, y), has) == (Eval(x, has) && Eval(y, has))
    decreases y
  {
    if y.And? { JoinMeaning(x, y.l, has); }
  }

  /** ... and the query read back has the same truth value on every array. */
  lemma {:induction false} NormKeepsMeaning(q: Query, has: int -> bool)
    ensures Eval(Norm(q), has) == Eval(q, has)
  {
    match q
    case Val(_) =>
    case Not(x) => NormKeepsMeaning(x, has);
    case And(l, r) =>
      NormKeepsMeaning(l, has);
      NormKeepsMeaning(r, has);
      JoinMeaning(Norm(l), Norm(r), has);
    case Or(l, r) =>
      NormKeepsMeaning(l, has);
      NormKeepsMeaning(r, has);
  }

  lemma {:induction false} JoinSize(x: Query, y: Query)
    ensures |Post(JoinAnd(x, y))| == |Post(x)| + |Post(y)| + 1
    ensures Linkable(x) && Linkable(y) && |Post(y)| < 0x8000 ==> Linkable(JoinAnd(x, y))
    decreases y
  {
    if y.And? { JoinSize(x, y.l); }
  }

  /** ... and takes as many items, with links that are exact whenever they were. */
  lemma {:induction false} NormKeepsSize(q: Query)
    ensures |Post(Norm(q))| == |Post(q)|
    ensures Linkable(q) ==> Linkable(Norm(q))
  {
    match q
    case Val(_) =>
    case Not(x) => NormKeepsSize(x);
    case And(l, r) =>
      NormKeepsSize(l);
      NormKeepsSize(r);
      JoinSize(Norm(l), Norm(r));
    case Or(l, r) =>
      NormKeepsSize(l);
      NormKeepsSize(r);
  }

  lemma {:induction false} JoinPrint(x: Query, y: Query, first: bool)
    ensures Print(JoinAnd(x, y), first) == Print(x, false) + " & " + Print(y, false)
    decreases y
  {
    if y.And? {
      JoinPrint(x, y.l, false);
      assert Print(x, false) + " & " + Print(y.l, false) + " & " + Print(y.r, false) ==
             Print(x, false) + " & " + (Print(y.l, false) + " & " + Print(y.r, false));
    }
  }

  /** ... and prints as the same text: one dump and restore is a fixed point. */
  lemma {:induction false} NormPrintsTheSame(q: Query, first: bool)
    ensures Print(Norm(q), first) == Print(q, first)
  {
    match q
    case Val(_) =>
    case Not(x) =>
      NormPrintsTheSame(x, false);
      NormPrintsTheSame(x, true);
    case And(l, r) =>
      NormPrintsTheSame(l, false);
      NormPrintsTheSame(r, false);
      JoinPrint(Norm(l), Norm(r), first);
    case Or(l, r) =>
      NormPrintsTheSame(l, false);
      NormPrintsTheSame(r, false);
  }

  // ----- every accepted text -----

  predicate IntTokens(ts: seq<Token>) { forall i :: 0 <= i < |ts| && ts[i].TVal? ==> IsInt32(ts[i].v) }

  /** A parse of int32 tokens yields int32 values and leaves int32 tokens. */
  predicate IntParse(p: Parsed) { p.Parsed? ==> Int32Query(p.q) && IntTokens(p.rest) }

  lemma {:induction false} LexedInts(ts: seq<Token>, wait: Wait, count: nat)
    requires WellLexed(ts, wait, count)
    ensures IntTokens(ts)
    decreases |ts|
  {
    hide IsInt32;
    if !ts[0].End? && !ts[0].Err? {
      var wait' := if ts[0].TVal? || ts[0].Close? then Operator else Operand;
      LexedInts(ts[1..], wait', if ts[0].Open? then count + 1 else if ts[0].Close? then count - 1 else count);
      assert forall i :: 0 < i < |ts| ==> ts[i] == ts[1..][i - 1];
    }
  }

  lemma {:induction false} AtomInts(ts: seq<Token>, used: nat)
    requires IntTokens(ts)
    ensures IntParse(ParseAtom(ts, used))
    decreases |ts|, 0
  {
    if ts != [] && ts[0].TNot? && used < STACK_DEPTH {
      AtomInts(ts[1..], used + 1);
    } else if ts != [] && ts[0].Open? {
      OrInts(ts[1..]);
    }
  }

  lemma {:induction false} AndRestInts(acc: Query, ts: seq<Token>, used: nat)
    requires IntTokens(ts) && Int32Query(acc)
    ensures IntParse(ParseAndRest(acc, ts, used))
    decreases |ts|, 1
  {
    if ts != [] && ts[0].TAnd? {
      var p := ParseAtom(ts[1..], used + 1);
      AtomInts(ts[1..], used + 1);
      if p.Parsed? { AndRestInts(And(acc, p.q), p.rest, used); }
    }
  }

  lemma {:induction false} AndInts(ts: seq<Token>, used: nat)
    requires IntTokens(ts)
    ensures IntParse(ParseAnd(ts, used))
    decreases |ts|, 2
  {
    var p := ParseAtom(ts, used);
    AtomInts(ts, used);
    if p.Parsed? { AndRestInts(p.q, p.rest, used); }
  }

  lemma {:induction false} OrRestInts(acc: Query, ts: seq<Token>)
    requires IntTokens(ts) && Int32Query(acc)
    ensures IntParse(ParseOrRest(acc, ts))
    decreases |ts|, 3
  {
    if ts != [] && ts[0].TOr? {
      var p := ParseAnd(ts[1..], 1);
      AndInts(ts[1..], 1);
      if p.Parsed? { OrRestInts(Or(acc, p.q), p.rest); }
    }
  }

  lemma {:induction false} OrInts(ts: seq<Token>)
    requires IntTokens(ts)
    ensures IntParse(ParseOr(ts))
    decreases |ts|, 4
  {
    var p := ParseAnd(ts, 0);
    AndInts(ts, 0);
    if p.Parsed? { OrRestInts(p.q, p.rest); }
  }

  /** What bqarr_out prints for a query that bqarr_in accepted is accepted again, is no longer than the query
      was, and means the same on every array. */
  lemma {:induction false} AcceptedIsAcceptedAgain(text: string, has: int -> bool)
    requires Meaning(text).Parsed?
    ensures var q := Meaning(text).q; var again := Meaning(Print(q, true));
      && again.Parsed? && |Post(again.q)| == |Post(q)| && (Linkable(q) ==> Linkable(again.q))
      && Eval(again.q, has) == Eval(q, has) && Print(again.q, true) == Print(q, true)
  {
    hide Print, Eval, Norm, Post, Linkable;
    var l := Lexer(text, Operand, 0);
    var q := Meaning(text).q;
    StreamIsWellLexed(l);
    LexedInts(Stream(l), Operand, 0);
    OrInts(Stream(l));
    PrintedIsAccepted(q);
    NormKeepsMeaning(q, has);
    NormKeepsSize(q);
    NormPrintsTheSame(q, true);
  }

  // ----- a text that is stored and cannot be executed -----

  /** The number 1 and n more, joined by `|` from the left. */
  function Chain(n: nat): Query { if n == 0 then Val(1) else Or(Chain(n - 1), Val(1)) }

  lemma {:induction false} ChainSize(n: nat)
    ensures |Post(Chain(n))| == 2 * n + 1 && Int32Query(Chain(n))
  {
    if n > 0 { ChainSize(n - 1); }
  }

  /** bqarr_in accepts the text of `1 & ( 1 | 1 | ... )` with 16384 bars, and no array can be tested against it. */
  lemma {:induction false} AcceptedTextBreaks(chk: (nat, int) -> bool)
    ensures var m := Meaning(Print(And(Val(1), Chain(16384)), true));
            m.Parsed? && |Post(m.q)| <= MAX_ITEMS && Execute(Post(m.q), Links(m.q), |Post(m.q)| - 1, chk, true) == None
  {
    hide Chain, Post, Print, Links, Execute, Meaning;
    var c := Chain(16384);
    ChainSize(16384);
    assert c.Or? by { ChainIsOr(16384); }
    PrintedIsAccepted(And(Val(1), c));
    NormKeepsSize(c);
    assert Norm(And(Val(1), c)) == And(Val(1), Norm(c));
    BinarySize(Val(1), Norm(c));
    LongRightOperandBreaks(And(Val(1), Norm(c)), chk);
  }

  lemma {:induction false} ChainIsOr(n: nat)
    requires n > 0
    ensures Chain(n).Or?
  {
  }

  lemma {:induction false} BinarySize(x: Query, y: Query)
    requires x.Val?
    ensures |Post(And(x, y))| == |Post(y)| + 2
  {
  }
}
