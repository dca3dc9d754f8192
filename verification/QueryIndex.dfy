/**
 * What the indexes do with boolean queries: binary search in sorted arrays, the loose
 * evaluation on inner GiST keys and signatures, and the GIN support functions.
 */
module QueryIndex {
  import opened Options
  import opened QueryTrees
  import IntGist

  // ----- arrays -----

  predicate Sorted(arr: seq<int>) {
    forall i, j :: 0 <= i < j < |arr| ==> arr[i] <= arr[j]
  }

  /** checkcondition_arr */
  method CheckArray(arr: seq<int>, v: int) returns (found: bool)
    requires Sorted(arr)
    ensures found <==> v in arr
  {
    var low, high := 0, |arr|;
    while low < high
      invariant 0 <= low <= high <= |arr|
      invariant forall i :: 0 <= i < |arr| && !(low <= i < high) ==> arr[i] != v
    {
      var mid := low + (high - low) / 2;
      if arr[mid] == v {
        return true;
      } else if arr[mid] < v {
        low := mid + 1;
      } else {
        high := mid;
      }
    }
    return false;
  }

  function InArray(arr: seq<int>): int -> bool {
    v => v in arr
  }

  // ----- loose evaluation on inner keys -----

  /** Ignoring negations, a query true of an array stays true when more tests succeed:
      on a superset of the array, or a signature that has all of the array's bits. */
  lemma {:induction false} LooseIsMonotone(q: Query, pos: nat, exact: (nat, int) -> bool, loose: (nat, int) -> bool,
                                           calcNot: bool)
    requires forall i, v :: exact(i, v) ==> loose(i, v)
    requires EvalAt(q, pos, exact, calcNot)
    ensures EvalAt(q, pos, loose, false)
  {
    match q
    case Val(_) =>
    case Not(_) =>
    case And(l, r) =>
      LooseIsMonotone(l, pos, exact, loose, calcNot);
      LooseIsMonotone(r, pos + |Post(l)|, exact, loose, calcNot);
    case Or(l, r) =>
      if EvalAt(l, pos, exact, calcNot) {
        LooseIsMonotone(l, pos, exact, loose, calcNot);
      } else {
        LooseIsMonotone(r, pos + |Post(l)|, exact, loose, calcNot);
      }
  }

  /** HASHVAL: the value as an unsigned 32-bit number, modulo the number of bits. */
  function HashVal(v: int, siglen: nat): nat
    requires siglen > 0
  {
    (v % 0x1_0000_0000) % (8 * siglen)
  }

  /** gensign, and the loop of g_intbig_compress: the bits of all elements. */
  method GenSign(arr: seq<int>, siglen: nat) returns (sign: set<nat>)
    requires siglen > 0
    ensures sign == Signature(arr, siglen)
  {
    sign := {};
    for i := 0 to |arr|
      invariant sign == Signature(arr[..i], siglen)
    {
      assert arr[..i + 1] == arr[..i] + [arr[i]];
      sign := sign + {HashVal(arr[i], siglen)};
    }
    assert arr[..|arr|] == arr;
  }

  function Signature(arr: seq<int>, siglen: nat): set<nat>
    requires siglen > 0
  {
    set v | v in arr :: HashVal(v, siglen)
  }

  function InSignature(sign: set<nat>, siglen: nat): int -> bool
    requires siglen > 0
  {
    v => HashVal(v, siglen) in sign
  }

  /** execconsistent on an inner key and signconsistent on any key: neither prunes a subtree
      that holds an array for which the query is true. */
  lemma {:induction false} InnerKeysNeverPrune(q: Query, arr: seq<int>, key: seq<int>, sign: set<nat>, siglen: nat)
    requires Linkable(q) && siglen > 0 && Eval(q, InArray(arr))
    requires forall v :: v in arr ==> v in key
    requires Signature(arr, siglen) <= sign
    ensures Execute(Post(q), Links(q), |Post(q)| - 1, ByValue(InArray(key)), false) == Some(true)
    ensures Execute(Post(q), Links(q), |Post(q)| - 1, ByValue(InSignature(sign, siglen)), false) == Some(true)
  {
    hide Execute, Links, Post, Eval, EvalAt;
    var exact := ByValue(InArray(arr));
    var onKey, onSign := ByValue(InArray(key)), ByValue(InSignature(sign, siglen));
    ByValueAgrees(q, 0, InArray(arr));
    EvalAtIsEval(q, 0, exact, InArray(arr));
    LooseIsMonotone(q, 0, exact, onKey, true);
    forall i, v | exact(i, v) ensures onSign(i, v) {
      assert HashVal(v, siglen) in Signature(arr, siglen);
    }
    LooseIsMonotone(q, 0, exact, onSign, true);
    Whole(Post(q));
    Whole(Links(q));
    ExecuteIsEval(q, Post(q), Links(q), 0, onKey, false);
    ExecuteIsEval(q, Post(q), Links(q), 0, onSign, false);
  }

  /** In a tree of compressed keys of any height, no key prunes the row of an array for which the query is true. */
  lemma {:induction false} BooleanSearchNeverPrunes(t: IntGist.Tree, arr: seq<int>, q: Query, numRanges: nat)
    requires IntGist.Built(t, numRanges) && IntGist.HasLeaf(t, arr) && Linkable(q) && Eval(q, InArray(arr))
    ensures Execute(Post(q), Links(q), |Post(q)| - 1, ByValue(InArray(t.key)), false) == Some(true)
  {
    hide Execute, Links, Post, Eval, Linkable;
    IntGist.KeysAreSupersets(t, arr, numRanges);
    assert forall v :: v in arr ==> v in t.key;
    InnerKeysNeverPrune(q, arr, t.key, Signature(arr, 1), 1);
  }

  lemma {:induction false} Whole<T>(s: seq<T>)
    ensures At(s, 0, s)
  {
  }

  // ----- GIN -----

  /** The number of values among the first items. */
  function Rank(nodes: seq<Node>, i: nat): (n: nat)
    requires i <= |nodes|
    ensures n <= i
  {
    if i == 0 then 0 else Rank(nodes, i - 1) + if nodes[i - 1].ValNode? then 1 else 0
  }

  /** ginint4_queryextract: all values, in postfix order. */
  method QueryExtract(nodes: seq<Node>) returns (values: seq<int>)
    ensures |values| == Rank(nodes, |nodes|)
    ensures forall i :: 0 <= i < |nodes| && nodes[i].ValNode? ==>
              Rank(nodes, i) < |values| && values[Rank(nodes, i)] == nodes[i].v
  {
    values := [];
    for i := 0 to |nodes|
      invariant |values| == Rank(nodes, i)
      invariant forall k :: 0 <= k < i && nodes[k].ValNode? ==>
                  Rank(nodes, k) < |values| && values[Rank(nodes, k)] == nodes[k].v
    {
      if nodes[i].ValNode? {
        values := values + [nodes[i].v];
      }
    }
  }

  function Mapped(mapped: seq<bool>): (nat, int) -> bool {
    (i: nat, v: int) => i < |mapped| && mapped[i]
  }

  /** gin_bool_consistent: the flags of the extracted values, handed back to their items. */
  method GinConsistent(nodes: seq<Node>, left: seq<int>, check: seq<bool>) returns (r: Option<bool>)
    requires |nodes| == |left| && |check| == Rank(nodes, |nodes|)
    ensures nodes == [] ==> r == Some(false)
    ensures nodes != [] ==>
              exists mapped :: |mapped| == |nodes| && FlagsOf(nodes, check, mapped) &&
                               r == Execute(nodes, left, |nodes| - 1, Mapped(mapped), true)
  {
    hide Execute, Mapped;
    if |nodes| <= 0 { return Some(false); }
    var mapped := new bool[|nodes|](i => false);
    var j := 0;
    for i := 0 to |nodes|
      invariant j == Rank(nodes, i)
      invariant forall k :: 0 <= k < i && nodes[k].ValNode? ==>
                  Rank(nodes, k) < |check| && mapped[k] == check[Rank(nodes, k)]
    {
      RankStep(nodes, i);
      if nodes[i].ValNode? {
        mapped[i] := check[j];
        j := j + 1;
      }
    }
    ghost var flags := mapped[..];
    assert FlagsOf(nodes, check, flags);
    r := Execute(nodes, left, |nodes| - 1, Mapped(mapped[..]), true);
  }

  ghost predicate FlagsOf(nodes: seq<Node>, check: seq<bool>, mapped: seq<bool>) {
    |mapped| == |nodes| &&
    forall k :: 0 <= k < |nodes| && nodes[k].ValNode? ==> Rank(nodes, k) < |check| && mapped[k] == check[Rank(nodes, k)]
  }

  lemma {:induction false} RankStep(nodes: seq<Node>, i: nat)
    requires i < |nodes|
    ensures Rank(nodes, i) + (if nodes[i].ValNode? then 1 else 0) <= Rank(nodes, |nodes|)
    decreases |nodes| - i
  {
    if i + 1 < |nodes| { RankStep(nodes, i + 1); }
  }

  /** The GIN answer is the exact answer, for every query and array. */
  lemma {:induction false} GinIsExact(q: Query, values: seq<int>, check: seq<bool>, mapped: seq<bool>, arr: seq<int>)
    requires Linkable(q) && |check| == |values|
    requires forall i :: 0 <= i < |Post(q)| && Post(q)[i].ValNode? ==>
               Rank(Post(q), i) < |values| && values[Rank(Post(q), i)] == Post(q)[i].v
    requires forall j :: 0 <= j < |values| ==> check[j] == (values[j] in arr)
    requires FlagsOf(Post(q), check, mapped)
    ensures Execute(Post(q), Links(q), |Post(q)| - 1, Mapped(mapped), true) == Some(Eval(q, InArray(arr)))
  {
    hide Execute, Links, Eval, EvalAt, Rank;
    Whole(Post(q));
    Whole(Links(q));
    ExecuteIsEval(q, Post(q), Links(q), 0, Mapped(mapped), true);
    forall i | 0 <= i < |Post(q)| && Post(q)[i].ValNode?
      ensures Mapped(mapped)(i, Post(q)[i].v) == InArray(arr)(Post(q)[i].v)
    {
      assert mapped[i] == check[Rank(Post(q), i)];
    }
    AgreeByPosition(q, Post(q), 0, Mapped(mapped), InArray(arr));
    EvalAtIsEval(q, 0, Mapped(mapped), InArray(arr));
  }

  lemma {:induction false} AgreeByPosition(q: Query, nodes: seq<Node>, pos: nat, chk: (nat, int) -> bool,
                                           has: int -> bool)
    requires At(nodes, pos, Post(q))
    requires forall i: nat :: i < |nodes| && nodes[i].ValNode? ==> chk(i, nodes[i].v) == has(nodes[i].v)
    ensures Agree(q, pos, chk, has)
    decreases q
  {
    hide At, Post;
    OperandsAt(nodes, pos, q);
    match q
    case Val(v) =>
    case Not(x) => AgreeByPosition(x, nodes, pos, chk, has);
    case _ =>
      AgreeByPosition(q.l, nodes, pos, chk, has);
      AgreeByPosition(q.r, nodes, pos + |Post(q.l)|, chk, has);
  }

  /** contains_required_value, over the stored array */
  function ContainsRequired(nodes: seq<Node>, left: seq<int>, i: int): Option<bool>
    requires |nodes| == |left|
    decreases i
  {
    if !(0 <= i < |nodes|) then None
    else
      match nodes[i]
      case ValNode(_) => Some(true)
      case OprNode(NotOp) => Some(false)
      case OprNode(op) =>
        if left[i] >= 0 then None
        else
          var l := ContainsRequired(nodes, left, i + left[i]);
          if l.None? then None
          else if l.value == op.AndOp? then l
          else ContainsRequired(nodes, left, i - 1)
  }

  predicate Required(q: Query) {
    match q
    case Val(_) => true
    case Not(_) => false
    case And(l, r) => Required(l) || Required(r)
    case Or(l, r) => Required(l) && Required(r)
  }

  lemma {:induction false} RequiredOnArray(q: Query, nodes: seq<Node>, left: seq<int>, lo: nat)
    requires Linkable(q) && |nodes| == |left| && At(nodes, lo, Post(q)) && At(left, lo, Links(q))
    ensures ContainsRequired(nodes, left, lo + |Post(q)| - 1) == Some(Required(q))
    decreases q
  {
    hide Post, Links, At;
    OperandsAt(nodes, lo, q);
    match q
    case Val(_) =>
    case Not(_) =>
    case _ =>
      BinaryLinks(q, left, lo);
      RequiredOnArray(q.l, nodes, left, lo);
      RequiredOnArray(q.r, nodes, left, lo + |Post(q.l)|);
  }

  predicate Mentions(q: Query, v: int) {
    match q
    case Val(w) => v == w
    case Not(x) => Mentions(x, v)
    case And(l, r) => Mentions(l, v) || Mentions(r, v)
    case Or(l, r) => Mentions(l, v) || Mentions(r, v)
  }

  /** If query_has_required_values holds, an array without any of the query's values never
      matches, so GIN need not scan the whole index. */
  lemma {:induction false} RequiredMeansNoEmptyMatch(q: Query, has: int -> bool)
    requires Required(q) && forall v :: Mentions(q, v) ==> !has(v)
    ensures !Eval(q, has)
  {
    match q
    case Val(v) => assert Mentions(q, v);
    case And(l, r) =>
      assert forall v :: Mentions(l, v) || Mentions(r, v) ==> Mentions(q, v);
      if Required(l) { RequiredMeansNoEmptyMatch(l, has); } else { RequiredMeansNoEmptyMatch(r, has); }
    case Or(l, r) =>
      assert forall v :: Mentions(l, v) || Mentions(r, v) ==> Mentions(q, v);
      RequiredMeansNoEmptyMatch(l, has);
      RequiredMeansNoEmptyMatch(r, has);
  }

  function NothingHeld(): (nat, int) -> bool { (i: nat, v: int) => false }

  /** contains_required_value is exact: a query has a required value if and only if it is false, negations taken for
      true, when none of its values is held. */
  lemma {:induction false} RequiredIff(q: Query, pos: nat)
    ensures Required(q) <==> !EvalAt(q, pos, NothingHeld(), false)
    decreases q
  {
    hide Post;
    match q
    case Val(_) =>
    case Not(_) =>
    case _ =>
      RequiredIff(q.l, pos);
      RequiredIff(q.r, pos + |Post(q.l)|);
  }
}
