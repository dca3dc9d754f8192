/**
 * Boolean queries of intarray (`query_int`): trees, their postfix form, the links between
 * operators and operands in the stored array, and the evaluator that follows the links.
 */
module QueryTrees {
  import opened Options

  datatype Op = NotOp | AndOp | OrOp

  datatype Query = Val(v: int) | Not(q: Query) | And(l: Query, r: Query) | Or(l: Query, r: Query)

  /** The type and val fields of an ITEM (or NODE). */
  datatype Node = ValNode(v: int) | OprNode(op: Op)

  function Post(q: Query): (p: seq<Node>)
    ensures p != []
  {
    match q
    case Val(v) => [ValNode(v)]
    case Not(x) => Post(x) + [OprNode(NotOp)]
    case And(l, r) => Post(l) + Post(r) + [OprNode(AndOp)]
    case Or(l, r) => Post(l) + Post(r) + [OprNode(OrOp)]
  }

  // ----- meaning -----

  /** Truth of a query whose leaves are tested by postfix position and value; without
      `calcNot` every negation counts as true. */
  predicate EvalAt(q: Query, pos: nat, chk: (nat, int) -> bool, calcNot: bool) {
    match q
    case Val(v) => chk(pos, v)
    case Not(x) => !calcNot || !EvalAt(x, pos, chk, calcNot)
    case And(l, r) => EvalAt(l, pos, chk, calcNot) && EvalAt(r, pos + |Post(l)|, chk, calcNot)
    case Or(l, r) => EvalAt(l, pos, chk, calcNot) || EvalAt(r, pos + |Post(l)|, chk, calcNot)
  }

  predicate Eval(q: Query, has: int -> bool) {
    match q
    case Val(v) => has(v)
    case Not(x) => !Eval(x, has)
    case And(l, r) => Eval(l, has) && Eval(r, has)
    case Or(l, r) => Eval(l, has) || Eval(r, has)
  }

  /** `chk` tests the leaves of `q`, stored from `pos` on, as `has` does. */
  ghost predicate Agree(q: Query, pos: nat, chk: (nat, int) -> bool, has: int -> bool) {
    match q
    case Val(v) => chk(pos, v) == has(v)
    case Not(x) => Agree(x, pos, chk, has)
    case And(l, r) => Agree(l, pos, chk, has) && Agree(r, pos + |Post(l)|, chk, has)
    case Or(l, r) => Agree(l, pos, chk, has) && Agree(r, pos + |Post(l)|, chk, has)
  }

  lemma {:induction false} EvalAtIsEval(q: Query, pos: nat, chk: (nat, int) -> bool, has: int -> bool)
    requires Agree(q, pos, chk, has)
    ensures EvalAt(q, pos, chk, true) == Eval(q, has)
  {
    match q
    case Val(v) =>
    case Not(x) => EvalAtIsEval(x, pos, chk, has);
    case _ =>
      EvalAtIsEval(q.l, pos, chk, has);
      EvalAtIsEval(q.r, pos + |Post(q.l)|, chk, has);
  }

  // ----- links -----

  /** Storing a 32-bit offset in ITEM.left, an int16. */
  function Int16(x: int): int {
    (x + 0x8000) % 0x10000 - 0x8000
  }

  lemma {:induction false} Int16Exact(n: int)
    requires n >= 0
    ensures Int16(-n - 1) == -n - 1 <==> n < 0x8000
  {
  }

  /** The left fields of the stored array for a query. */
  function Links(q: Query): (s: seq<int>)
    ensures |s| == |Post(q)|
  {
    match q
    case Val(v) => [0]
    case Not(x) => Links(x) + [-1]
    case And(l, r) => Links(l) + Links(r) + [Int16(-|Post(r)| - 1)]
    case Or(l, r) => Links(l) + Links(r) + [Int16(-|Post(r)| - 1)]
  }

  /** Every right operand has fewer than 32768 items. */
  predicate Linkable(q: Query) {
    match q
    case Val(_) => true
    case Not(x) => Linkable(x)
    case And(l, r) => Linkable(l) && Linkable(r) && |Post(r)| < 0x8000
    case Or(l, r) => Linkable(l) && Linkable(r) && |Post(r)| < 0x8000
  }

  ghost predicate At<T>(s: seq<T>, lo: int, part: seq<T>) {
    0 <= lo <= lo + |part| <= |s| && s[lo..lo + |part|] == part
  }

  lemma {:induction false} AtParts<T>(s: seq<T>, lo: int, a: seq<T>, b: seq<T>, x: T)
    requires At(s, lo, a + b + [x])
    ensures At(s, lo, a) && At(s, lo + |a|, b) && s[lo + |a| + |b|] == x
  {
    var t := s[lo..lo + |a| + |b| + 1];
    assert t[..|a|] == a && t[|a|..|a| + |b|] == b && t[|a| + |b|] == x;
  }

  lemma {:induction false} AtJoin<T>(s: seq<T>, lo: int, a: seq<T>, b: seq<T>, x: T)
    requires At(s, lo, a) && At(s, lo + |a|, b) && lo + |a| + |b| < |s| && s[lo + |a| + |b|] == x
    ensures At(s, lo, a + b + [x])
  {
  }

  lemma {:induction false} AtFrame<T>(s: seq<T>, t: seq<T>, lo: int, part: seq<T>)
    requires At(s, lo, part) && |s| == |t|
    requires forall i :: lo <= i < lo + |part| ==> s[i] == t[i]
    ensures At(t, lo, part)
  {
  }

  /** The operands of the operator at the end of a stored query, and the operator itself. */
  lemma {:induction false} OperandsAt(nodes: seq<Node>, lo: int, q: Query)
    requires At(nodes, lo, Post(q))
    ensures 0 <= lo <= lo + |Post(q)| <= |nodes|
    ensures q.Val? ==> |Post(q)| == 1 && nodes[lo] == ValNode(q.v)
    ensures q.Not? ==>
              && |Post(q)| == |Post(q.q)| + 1
              && At(nodes, lo, Post(q.q)) && nodes[lo + |Post(q)| - 1] == OprNode(NotOp)
    ensures q.And? || q.Or? ==>
              && |Post(q)| == |Post(q.l)| + |Post(q.r)| + 1
              && At(nodes, lo, Post(q.l)) && At(nodes, lo + |Post(q.l)|, Post(q.r))
              && nodes[lo + |Post(q)| - 1] == OprNode(if q.And? then AndOp else OrOp)
  {
    if q.Not? {
      assert Post(q) == Post(q.q) + [] + [OprNode(NotOp)];
      AtParts(nodes, lo, Post(q.q), [], OprNode(NotOp));
    } else if !q.Val? {
      AtParts(nodes, lo, Post(q.l), Post(q.r), OprNode(if q.And? then AndOp else OrOp));
    } else {
      assert nodes[lo] == nodes[lo..lo + 1][0];
    }
  }

  /** findoprnd, in place: links the operand whose root is at `pos` and returns the position
      before it.  The caller has put the postfix form of some query there. */
  method FindOperand(nodes: seq<Node>, left: array<int>, pos: nat, ghost q: Query) returns (next: int)
    requires pos < |nodes| == left.Length && At(nodes, pos + 1 - |Post(q)|, Post(q))
    modifies left
    ensures next == pos - |Post(q)| >= -1
    ensures At(left[..], next + 1, Links(q))
    ensures forall i :: 0 <= i <= next || pos < i < left.Length ==> left[i] == old(left[i])
    decreases q, 1
  {
    hide Post, Links, At, Int16;
    ghost var lo := pos + 1 - |Post(q)|;
    OperandsAt(nodes, lo, q);
    LinksOf(q);
    if nodes[pos].ValNode? {
      left[pos] := 0;
      next := pos - 1;
      AtOne(left[..], pos, 0);
    } else if nodes[pos].op == NotOp {
      left[pos] := -1;
      next := FindOperand(nodes, left, pos - 1, q.q);
      AtOne(left[..], pos, -1);
      AtNone(left[..], pos);
      AtJoin(left[..], lo, Links(q.q), [], -1);
    } else {
      next := FindBinary(nodes, left, pos, q);
    }
  }

  /** The case of a binary operator: the right operand is linked first, then the operator, then the left one. */
  method FindBinary(nodes: seq<Node>, left: array<int>, pos: nat, ghost q: Query) returns (next: int)
    requires pos < |nodes| == left.Length && At(nodes, pos + 1 - |Post(q)|, Post(q)) && (q.And? || q.Or?)
    modifies left
    ensures next == pos - |Post(q)| >= -1
    ensures At(left[..], next + 1, Links(q))
    ensures forall i :: 0 <= i <= next || pos < i < left.Length ==> left[i] == old(left[i])
    decreases q, 0
  {
    hide Post, Links, At, Int16;
    ghost var lo := pos + 1 - |Post(q)|;
    OperandsAt(nodes, lo, q);
    LinksOf(q);
    var mid := FindOperand(nodes, left, pos - 1, q.r);
    ghost var linked := left[..];
    left[pos] := Int16(mid - pos);
    next := FindOperand(nodes, left, mid, q.l);
    AtFrame(linked, left[..], mid + 1, Links(q.r));
    AtJoin(left[..], lo, Links(q.l), Links(q.r), Int16(mid - pos));
  }

  lemma {:induction false} AtOne<T>(s: seq<T>, i: nat, x: T)
    requires i < |s| && s[i] == x
    ensures At(s, i, [x])
  {
  }

  lemma {:induction false} AtNone<T>(s: seq<T>, i: nat)
    requires i <= |s|
    ensures At(s, i, [])
  {
  }

  lemma {:induction false} LinksOf(q: Query)
    ensures q.Val? ==> Links(q) == [0]
    ensures q.Not? ==> Links(q) == Links(q.q) + [] + [-1]
    ensures q.And? || q.Or? ==> Links(q) == Links(q.l) + Links(q.r) + [Int16(-|Post(q.r)| - 1)]
  {
  }

  // ----- evaluation over the array -----

  /** execute: `None` where following a link would leave the operator's own operands. */
  function Execute(nodes: seq<Node>, left: seq<int>, i: int, chk: (nat, int) -> bool, calcNot: bool): Option<bool>
    requires |nodes| == |left|
    decreases i
  {
    if !(0 <= i < |nodes|) then None
    else
      match nodes[i]
      case ValNode(v) => Some(chk(i, v))
      case OprNode(NotOp) =>
        if !calcNot then Some(true)
        else
          var x := Execute(nodes, left, i - 1, chk, calcNot);
          if x.None? then None else Some(!x.value)
      case OprNode(op) =>
        if left[i] >= 0 then None
        else
          var l := Execute(nodes, left, i + left[i], chk, calcNot);
          if l.None? then None
          else if l.value == op.OrOp? then l
          else Execute(nodes, left, i - 1, chk, calcNot)
  }

  /** Following the links evaluates the tree, wherever it lies in the array. */
  lemma {:induction false} ExecuteIsEval(q: Query, nodes: seq<Node>, left: seq<int>, lo: nat,
                                         chk: (nat, int) -> bool, calcNot: bool)
    requires Linkable(q) && |nodes| == |left| && At(nodes, lo, Post(q)) && At(left, lo, Links(q))
    ensures Execute(nodes, left, lo + |Post(q)| - 1, chk, calcNot) == Some(EvalAt(q, lo, chk, calcNot))
    decreases q
  {
    hide Post, Links, At, Int16, Execute;
    var last := lo + |Post(q)| - 1;
    OperandsAt(nodes, lo, q);
    match q
    case Val(v) =>
      ExecuteLeaf(nodes, left, last, chk, calcNot);
    case Not(x) =>
      NotLinks(q, left, lo);
      ExecuteIsEval(x, nodes, left, lo, chk, calcNot);
      ExecuteNot(nodes, left, last, chk, calcNot, EvalAt(x, lo, chk, calcNot));
    case _ =>
      BinaryLinks(q, left, lo);
      ExecuteIsEval(q.l, nodes, left, lo, chk, calcNot);
      ExecuteIsEval(q.r, nodes, left, lo + |Post(q.l)|, chk, calcNot);
      ExecuteBinary(nodes, left, last, chk, calcNot, EvalAt(q.l, lo, chk, calcNot),
                    EvalAt(q.r, lo + |Post(q.l)|, chk, calcNot));
  }

  lemma {:induction false} ExecuteLeaf(nodes: seq<Node>, left: seq<int>, i: nat, chk: (nat, int) -> bool, calcNot: bool)
    requires i < |nodes| == |left| && nodes[i].ValNode?
    ensures Execute(nodes, left, i, chk, calcNot) == Some(chk(i, nodes[i].v))
  {
  }

  lemma {:induction false} ExecuteNot(nodes: seq<Node>, left: seq<int>, i: nat, chk: (nat, int) -> bool, calcNot: bool,
                                      a: bool)
    requires i < |nodes| == |left| && nodes[i] == OprNode(NotOp)
    requires Execute(nodes, left, i - 1, chk, calcNot) == Some(a)
    ensures Execute(nodes, left, i, chk, calcNot) == Some(!calcNot || !a)
  {
  }

  lemma {:induction false} ExecuteBinary(nodes: seq<Node>, left: seq<int>, i: nat, chk: (nat, int) -> bool,
                                         calcNot: bool, a: bool, b: bool)
    requires i < |nodes| == |left| && nodes[i].OprNode? && !nodes[i].op.NotOp? && left[i] < 0
    requires Execute(nodes, left, i + left[i], chk, calcNot) == Some(a)
    requires Execute(nodes, left, i - 1, chk, calcNot) == Some(b)
    ensures Execute(nodes, left, i, chk, calcNot) == Some(if nodes[i].op.AndOp? then a && b else a || b)
  {
  }

  lemma {:induction false} NotLinks(q: Query, left: seq<int>, lo: nat)
    requires q.Not? && At(left, lo, Links(q))
    ensures At(left, lo, Links(q.q))
  {
    LinksOf(q);
    AtParts(left, lo, Links(q.q), [], -1);
  }

  lemma {:induction false} BinaryLinks(q: Query, left: seq<int>, lo: nat)
    requires Linkable(q) && (q.And? || q.Or?) && At(left, lo, Links(q))
    ensures At(left, lo, Links(q.l)) && At(left, lo + |Post(q.l)|, Links(q.r))
    ensures left[lo + |Post(q)| - 1] == -|Post(q.r)| - 1
  {
    hide At, Int16;
    AtParts(left, lo, Links(q.l), Links(q.r), Int16(-|Post(q.r)| - 1));
    Int16Exact(|Post(q.r)|);
  }

  /** A leaf test that ignores the position. */
  function ByValue(has: int -> bool): (nat, int) -> bool {
    (i, v) => has(v)
  }

  lemma {:induction false} ByValueAgrees(q: Query, pos: nat, has: int -> bool)
    ensures Agree(q, pos, ByValue(has), has)
  {
    match q
    case Val(v) =>
    case Not(x) => ByValueAgrees(x, pos, has);
    case _ =>
      ByValueAgrees(q.l, pos, has);
      ByValueAgrees(q.r, pos + |Post(q.l)|, has);
  }

  /** boolop: executing a stored query from its last item. */
  lemma {:induction false} BoolOpIsEval(q: Query, has: int -> bool)
    requires Linkable(q)
    ensures Execute(Post(q), Links(q), |Post(q)| - 1, ByValue(has), true) == Some(Eval(q, has))
  {
    ExecuteIsEval(q, Post(q), Links(q), 0, ByValue(has), true);
    ByValueAgrees(q, 0, has);
    EvalAtIsEval(q, 0, ByValue(has), has);
  }

  /** Every stored offset leads to the true left operand. */
  predicate ExactLinks(q: Query) {
    match q
    case Val(_) => true
    case Not(x) => ExactLinks(x)
    case And(l, r) => ExactLinks(l) && ExactLinks(r) && Links(q)[|Post(q)| - 1] == -|Post(r)| - 1
    case Or(l, r) => ExactLinks(l) && ExactLinks(r) && Links(q)[|Post(q)| - 1] == -|Post(r)| - 1
  }

  lemma {:induction false} LinksExactIff(q: Query)
    ensures ExactLinks(q) <==> Linkable(q)
  {
    match q
    case Val(_) =>
    case Not(x) => LinksExactIff(x);
    case _ =>
      LinksExactIff(q.l);
      LinksExactIff(q.r);
      Int16Exact(|Post(q.r)|);
  }

  /** With a right operand of 32768 to 65535 items the offset turns non-negative and the
      query cannot be evaluated at all, whatever the array. */
  lemma {:induction false} LongRightOperandBreaks(q: Query, chk: (nat, int) -> bool)
    requires (q.And? || q.Or?) && 0x8000 <= |Post(q.r)| < 0x10000
    ensures Execute(Post(q), Links(q), |Post(q)| - 1, chk, true) == None
  {
    hide Post, Links, Execute;
    var n := |Post(q.r)|;
    LastOfBinary(q);
    assert Int16(-n - 1) >= 0;
    NonNegativeLink(Post(q), Links(q), |Post(q)| - 1, chk);
  }

  lemma {:induction false} LastOfBinary(q: Query)
    requires q.And? || q.Or?
    ensures Post(q)[|Post(q)| - 1] == OprNode(if q.And? then AndOp else OrOp)
    ensures Links(q)[|Post(q)| - 1] == Int16(-|Post(q.r)| - 1)
  {
  }

  lemma {:induction false} NonNegativeLink(nodes: seq<Node>, left: seq<int>, i: nat, chk: (nat, int) -> bool)
    requires i < |nodes| == |left| && nodes[i].OprNode? && !nodes[i].op.NotOp? && left[i] >= 0
    ensures Execute(nodes, left, i, chk, true) == None
  {
  }
}
