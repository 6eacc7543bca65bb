/** Which operands of a chain `expr_eliminate_dups` would join or strike out. */
module ExprPairs {
  import opened Wrappers
  import opened KconfigExpr
  import opened ExprEliminate
  import opened ExprTransform
  import opened ExprExtract
  import opened ExprJoin
  import opened ExprPaths
  import opened ExprEquality

  /** The chain `e2` stands beside already implies that `e1` is decided: the test of `expr_eliminate_dups2`. */
  predicate Contradicts(op: Op, e1: Expr, e2: Expr) {
    ExtractCommon(op, Transform(Not(e1)), e2).first == Sym(Neutral(op))
  }

  /** No two operands of a chain can be joined, at any depth. */
  ghost predicate Joinless(e: Expr)
    decreases Size(e)
  {
    e.Bin? ==>
      forall a: Path, b: Path | IsOperand(e.op, e, a) && IsOperand(e.op, e, b) && a != b ::
        Join(e.op, Get(e, a), Get(e, b)).None? && (OperandIsSmaller(e.op, e, a); Joinless(Get(e, a)))
  }

  /** No part of a chain contradicts an operand of it, at any depth. */
  ghost predicate Consistent(e: Expr)
    decreases Size(e)
  {
    e.Bin? ==>
      forall a: Path, b: Path | IsOperand(e.op, e, a) && Get(e, a).Bin? && OnSpine(e.op, e, b) && a != b ::
        !Contradicts(e.op, Get(e, a), Get(e, b)) && (OperandIsSmaller(e.op, e, a); Consistent(Get(e, a)))
  }

  /** No two operands of a chain are the same up to order and grouping, at any depth. */
  ghost predicate NoRepeats(e: Expr)
    decreases Size(e)
  {
    e.Bin? ==>
      forall a: Path, b: Path | IsOperand(e.op, e, a) && IsOperand(e.op, e, b) && a != b ::
        !SameOperand(Get(e, a), Get(e, b)) && (OperandIsSmaller(e.op, e, a); NoRepeats(Get(e, a)))
  }

  /** Operands that are the same up to order and grouping are joined, into the first of them. */
  lemma {:induction false} SameOperandsJoin(op: Op, e1: Expr, e2: Expr)
    requires SameOperand(e1, e2)
    ensures Join(op, e1, e2) == Some(e1)
  {
    ExprEqIff(e1, e2);
  }

  lemma {:induction false} JoinlessHasNoRepeats(e: Expr)
    requires Joinless(e)
    ensures NoRepeats(e)
    decreases Size(e)
  {
    if e.Bin? {
      forall a: Path, b: Path | IsOperand(e.op, e, a) && IsOperand(e.op, e, b) && a != b
        ensures !SameOperand(Get(e, a), Get(e, b)) && NoRepeats(Get(e, a))
      {
        if SameOperand(Get(e, a), Get(e, b)) {
          SameOperandsJoin(e.op, Get(e, a), Get(e, b));
        }
        OperandIsSmaller(e.op, e, a);
        assert a != [];
        JoinlessHasNoRepeats(Get(e, a));
      }
    }
  }

  /** The test of the second pass: the operands of the negated first part are all among those of the second. */
  lemma {:induction false} ContradictsIff(op: Op, e1: Expr, e2: Expr)
    requires Folded(Transform(Not(e1))) && Folded(e2)
    ensures Contradicts(op, e1, e2) <==> Operands(op, Transform(Not(e1))) <= Operands(op, e2)
  {
    ExtractAllIff(op, Transform(Not(e1)), e2);
  }

  lemma {:induction false} OperandIsSmaller(op: Op, e: Expr, a: Path)
    requires OnSpine(op, e, a)
    ensures Size(Get(e, a)) <= Size(e)
    ensures a != [] ==> Size(Get(e, a)) < Size(e)
  {
    if a != [] {
      OperandIsSmaller(op, Child(e, a[0]), a[1..]);
    }
  }

  /** `rel` holds between each operand below p1 and each other position of the chain below p2. */
  ghost predicate AllPairs(op: Op, e: Expr, p1: Path, p2: Path, rel: (Expr, Expr) -> bool) {
    forall a: Path, b: Path | OperandUnder(op, e, p1, a) && Under(op, e, p2, b) && a != b ::
      rel(Get(e, a), Get(e, b))
  }

  /** What a `dups1` call that counted nothing has established for the operands it visited. */
  ghost function JoinFree(op: Op): (Expr, Expr) -> bool {
    (x: Expr, y: Expr) => IsBin(y, op) || (Join(op, x, y).None? && Joinless(x))
  }

  /** The same for `dups2`. */
  ghost function ConflictFree(op: Op): (Expr, Expr) -> bool {
    (x: Expr, y: Expr) => x.Bin? ==> !Contradicts(op, x, y) && Consistent(x)
  }

  lemma {:induction false} PairAt(op: Op, e: Expr, p1: Path, p2: Path, rel: (Expr, Expr) -> bool, a: Path, b: Path)
    requires AllPairs(op, e, p1, p2, rel)
    requires OperandUnder(op, e, p1, a) && Under(op, e, p2, b) && a != b
    ensures rel(Get(e, a), Get(e, b))
  {
  }

  lemma {:induction false} SplitFirst(op: Op, e: Expr, p1: Path, p2: Path, rel: (Expr, Expr) -> bool)
    requires Valid(e, p1) && IsBin(Get(e, p1), op)
    requires AllPairs(op, e, p1 + [Left], p2, rel) && AllPairs(op, e, p1 + [Right], p2, rel)
    ensures AllPairs(op, e, p1, p2, rel)
  {
    forall a: Path, b: Path | OperandUnder(op, e, p1, a) && Under(op, e, p2, b) && a != b
      ensures rel(Get(e, a), Get(e, b))
    {
      UnderChild(op, e, p1, a);
      if a[|p1|] == Left {
        PairAt(op, e, p1 + [Left], p2, rel, a, b);
      } else {
        PairAt(op, e, p1 + [Right], p2, rel, a, b);
      }
    }
  }

  lemma {:induction false} SplitSecond(op: Op, e: Expr, p1: Path, p2: Path, rel: (Expr, Expr) -> bool)
    requires OperandUnder(op, e, p1, p1) && Valid(e, p2) && IsBin(Get(e, p2), op)
    requires AllPairs(op, e, p1, p2 + [Left], rel) && AllPairs(op, e, p1, p2 + [Right], rel)
    requires rel(Get(e, p1), Get(e, p2))
    ensures AllPairs(op, e, p1, p2, rel)
  {
    OnlyItself(op, e, p1);
    forall a: Path, b: Path | OperandUnder(op, e, p1, a) && Under(op, e, p2, b) && a != b
      ensures rel(Get(e, a), Get(e, b))
    {
      if b != p2 {
        UnderChild(op, e, p2, b);
      }
    }
  }

  /** Reading `AllPairs` relative to the subtree at `p`. */
  lemma {:induction false} PairsWithin(op: Op, e: Expr, p: Path, rel: (Expr, Expr) -> bool, a: Path, b: Path)
    requires Valid(e, p) && AllPairs(op, e, p, p, rel)
    requires IsOperand(op, Get(e, p), a) && OnSpine(op, Get(e, p), b) && a != b
    ensures rel(Get(Get(e, p), a), Get(Get(e, p), b))
  {
    assert (p + a)[|p|..] == a && (p + b)[|p|..] == b;
    UnderIsPath(op, e, p, p + a);
    UnderIsPath(op, e, p, p + b);
    assert p + a != p + b;
  }

  lemma {:induction false} PairsGiveJoinless(op: Op, e: Expr, p: Path)
    requires Valid(e, p) && IsBin(Get(e, p), op) && AllPairs(op, e, p, p, JoinFree(op))
    ensures Joinless(Get(e, p))
  {
    var x := Get(e, p);
    forall a: Path, b: Path | IsOperand(op, x, a) && IsOperand(op, x, b) && a != b
      ensures Join(op, Get(x, a), Get(x, b)).None? && Joinless(Get(x, a))
    {
      PairsWithin(op, e, p, JoinFree(op), a, b);
    }
  }

  lemma {:induction false} PairsGiveConsistent(op: Op, e: Expr, p: Path)
    requires Valid(e, p) && IsBin(Get(e, p), op) && AllPairs(op, e, p, p, ConflictFree(op))
    ensures Consistent(Get(e, p))
  {
    var x := Get(e, p);
    forall a: Path, b: Path | IsOperand(op, x, a) && Get(x, a).Bin? && OnSpine(op, x, b) && a != b
      ensures !Contradicts(op, Get(x, a), Get(x, b)) && Consistent(Get(x, a))
    {
      PairsWithin(op, e, p, ConflictFree(op), a, b);
    }
  }

  /** Below an operand there is no other position of the chain. */
  lemma {:induction false} OnlyItself(op: Op, e: Expr, p: Path)
    requires Valid(e, p) && !IsBin(Get(e, p), op)
    ensures forall a: Path | Under(op, e, p, a) :: a == p
  {
    forall a: Path | Under(op, e, p, a) ensures a == p {
      if a != p {
        UnderChild(op, e, p, a);
      }
    }
  }

  // Trees in which the passes find nothing

  lemma {:induction false} UnderTrans(op: Op, e: Expr, s: Path, p: Path, a: Path)
    requires Under(op, e, s, p) && Under(op, e, p, a)
    ensures Under(op, e, s, a)
  {
    var q, b := p[|s|..], a[|p|..];
    UnderIsPath(op, e, s, p);
    SpineConcat(op, Get(e, s), q, b);
    assert a[|s|..] == q + b;
  }

  lemma {:induction false} PairsBelow(op: Op, e: Expr, p1: Path, p2: Path, rel: (Expr, Expr) -> bool, q1: Path, q2: Path)
    requires AllPairs(op, e, p1, p2, rel) && Under(op, e, p1, q1) && Under(op, e, p2, q2)
    ensures AllPairs(op, e, q1, q2, rel)
  {
    forall a: Path, b: Path | OperandUnder(op, e, q1, a) && Under(op, e, q2, b) && a != b
      ensures rel(Get(e, a), Get(e, b))
    {
      UnderTrans(op, e, p1, q1, a);
      UnderTrans(op, e, p2, q2, b);
      PairAt(op, e, p1, p2, rel, a, b);
    }
  }

  /** A pair below a child of an `op` node is a pair below the node. */
  lemma {:induction false} DescendFirst(op: Op, e: Expr, p1: Path, p2: Path, rel: (Expr, Expr) -> bool)
    requires Valid(e, p1) && IsBin(Get(e, p1), op) && Valid(e, p2)
    ensures AllPairs(op, e, p1, p2, rel) ==>
              AllPairs(op, e, p1 + [Left], p2, rel) && AllPairs(op, e, p1 + [Right], p2, rel)
  {
    SpineStep(op, e, p1, p1, Left);
    SpineStep(op, e, p1, p1, Right);
    if AllPairs(op, e, p1, p2, rel) {
      PairsBelow(op, e, p1, p2, rel, p1 + [Left], p2);
      PairsBelow(op, e, p1, p2, rel, p1 + [Right], p2);
    }
  }

  lemma {:induction false} DescendSecond(op: Op, e: Expr, p1: Path, p2: Path, rel: (Expr, Expr) -> bool)
    requires Valid(e, p2) && IsBin(Get(e, p2), op) && Valid(e, p1)
    ensures AllPairs(op, e, p1, p2, rel) ==>
              AllPairs(op, e, p1, p2 + [Left], rel) && AllPairs(op, e, p1, p2 + [Right], rel)
  {
    SpineStep(op, e, p2, p2, Left);
    SpineStep(op, e, p2, p2, Right);
    if AllPairs(op, e, p1, p2, rel) {
      PairsBelow(op, e, p1, p2, rel, p1, p2 + [Left]);
      PairsBelow(op, e, p1, p2, rel, p1, p2 + [Right]);
    }
  }

  /** The first pass counts something exactly if there is a pair to join. */
  ghost predicate JoinResult(op: Op, e: Expr, f: Expr, counted: bool, p1: Path, p2: Path) {
    && (!counted ==> f == e)
    && (counted <==> !AllPairs(op, e, p1, p2, JoinFree(op)))
  }

  lemma {:induction false} JoinFirst(op: Op, e: Expr, m: Expr, f: Expr, c: bool, d: bool, p1: Path, p2: Path)
    requires Valid(e, p1) && IsBin(Get(e, p1), op) && Valid(e, p2)
    requires JoinResult(op, e, m, c, p1 + [Left], p2) && JoinResult(op, m, f, d, p1 + [Right], p2)
    ensures JoinResult(op, e, f, c || d, p1, p2)
  {
    DescendFirst(op, e, p1, p2, JoinFree(op));
    if !c && !d {
      SplitFirst(op, e, p1, p2, JoinFree(op));
    }
  }

  lemma {:induction false} JoinSecond(op: Op, e: Expr, m: Expr, f: Expr, c: bool, d: bool, p1: Path, p2: Path)
    requires Valid(e, p1) && !IsBin(Get(e, p1), op) && Valid(e, p2) && IsBin(Get(e, p2), op)
    requires JoinResult(op, e, m, c, p1, p2 + [Left]) && JoinResult(op, m, f, d, p1, p2 + [Right])
    ensures JoinResult(op, e, f, c || d, p1, p2)
  {
    DescendSecond(op, e, p1, p2, JoinFree(op));
    if !c && !d {
      assert OperandUnder(op, e, p1, p1);
      SplitSecond(op, e, p1, p2, JoinFree(op));
    }
  }

  lemma {:induction false} JoinPair(op: Op, e: Expr, f: Expr, counted: bool, p1: Path, p2: Path)
    requires Valid(e, p1) && !IsBin(Get(e, p1), op) && Valid(e, p2) && !IsBin(Get(e, p2), op)
    requires !counted ==> f == e
    requires counted <==> p1 != p2 && !(Join(op, Get(e, p1), Get(e, p2)).None? && Joinless(Get(e, p1)))
    ensures JoinResult(op, e, f, counted, p1, p2)
  {
    OnlyItself(op, e, p1);
    OnlyItself(op, e, p2);
    if p1 != p2 && AllPairs(op, e, p1, p2, JoinFree(op)) {
      PairAt(op, e, p1, p2, JoinFree(op), p1, p2);
    }
  }

  /** A pair of positions below `p` is one of the subtree at `p`. */
  lemma {:induction false} PairBelow(op: Op, e: Expr, p: Path, a: Path, b: Path)
    requires OperandUnder(op, e, p, a) && Under(op, e, p, b) && a != b
    ensures IsOperand(op, Get(e, p), a[|p|..]) && Get(e, a) == Get(Get(e, p), a[|p|..])
    ensures OnSpine(op, Get(e, p), b[|p|..]) && Get(e, b) == Get(Get(e, p), b[|p|..])
    ensures a[|p|..] != b[|p|..]
  {
    UnderIsPath(op, e, p, a);
    UnderIsPath(op, e, p, b);
    assert a == p + a[|p|..] && b == p + b[|p|..];
  }

  lemma {:induction false} JoinlessGivesPairs(op: Op, e: Expr, p: Path)
    requires Valid(e, p) && IsBin(Get(e, p), op) && Joinless(Get(e, p))
    ensures AllPairs(op, e, p, p, JoinFree(op))
  {
    forall a: Path, b: Path | OperandUnder(op, e, p, a) && Under(op, e, p, b) && a != b
      ensures JoinFree(op)(Get(e, a), Get(e, b))
    {
      PairBelow(op, e, p, a, b);
    }
  }

  lemma {:induction false} ConsistentGivesPairs(op: Op, e: Expr, p: Path)
    requires Valid(e, p) && IsBin(Get(e, p), op) && Consistent(Get(e, p))
    ensures AllPairs(op, e, p, p, ConflictFree(op))
  {
    forall a: Path, b: Path | OperandUnder(op, e, p, a) && Under(op, e, p, b) && a != b
      ensures ConflictFree(op)(Get(e, a), Get(e, b))
    {
      PairBelow(op, e, p, a, b);
    }
  }

  // What the second pass does when one operand is a chain itself

  /** Another part of the chain below `p2` contradicts the operand at `a`. */
  ghost predicate Conflict(op: Op, e: Expr, a: Path, p2: Path)
    requires Valid(e, a)
  {
    exists b: Path :: ConflictAt(op, e, a, p2, b)
  }

  ghost predicate ConflictAt(op: Op, e: Expr, a: Path, p2: Path, b: Path)
    requires Valid(e, a)
  {
    Under(op, e, p2, b) && b != a && Contradicts(op, Get(e, a), Get(e, b))
  }

  ghost predicate NoChain(op: Op, e: Expr, p: Path) {
    forall a: Path | OperandUnder(op, e, p, a) :: !Get(e, a).Bin?
  }

  /** The operand at `a` is the only one below `p` that is a chain itself. */
  ghost predicate Lone(op: Op, e: Expr, p: Path, a: Path) {
    && OperandUnder(op, e, p, a) && Get(e, a).Bin?
    && forall b: Path | OperandUnder(op, e, p, b) && Get(e, b).Bin? :: b == a
  }

  function Strikes(op: Op, e: Expr, a: Path): Expr
    requires Valid(e, a)
  {
    Put(e, a, Sym(Absorbing(op)))
  }

  /** The operand at `p1`, if it is a consistent chain, is struck out exactly in case of `conflict`. */
  ghost predicate OperandResult(op: Op, e: Expr, f: Expr, counted: bool, p1: Path, conflict: bool)
    requires Valid(e, p1)
  {
    && (!counted ==> f == e)
    && (Get(e, p1).Bin? && Consistent(Get(e, p1)) ==>
          (counted <==> conflict) && f == if conflict then Strikes(op, e, p1) else e)
    && (!Get(e, p1).Bin? ==> !counted)
  }

  ghost predicate LoneResult(op: Op, e: Expr, f: Expr, counted: bool, a: Path, p2: Path)
    requires Valid(e, a)
  {
    (counted <==> Conflict(op, e, a, p2)) && f == if Conflict(op, e, a, p2) then Strikes(op, e, a) else e
  }

  /**
   * The second pass counts something exactly if there is a conflict; and where one operand alone is a chain, and consistent,
   * it is struck out exactly if another part of the chain contradicts it, and nothing else changes.
   */
  ghost predicate PassResult(op: Op, e: Expr, f: Expr, counted: bool, p1: Path, p2: Path) {
    && (!counted ==> f == e)
    && (counted <==> !AllPairs(op, e, p1, p2, ConflictFree(op)))
    && forall a: Path {:trigger Lone(op, e, p1, a)} | Lone(op, e, p1, a) && Consistent(Get(e, a)) ::
         LoneResult(op, e, f, counted, a, p2)
  }

  lemma {:induction false} NoChainNoPairs(op: Op, e: Expr, p1: Path, p2: Path)
    requires NoChain(op, e, p1)
    ensures AllPairs(op, e, p1, p2, ConflictFree(op))
  {
  }

  lemma {:induction false} OperandGivesPass(op: Op, e: Expr, f: Expr, counted: bool, p1: Path, p2: Path)
    requires Valid(e, p1) && Valid(e, p2) && !IsBin(Get(e, p1), op) && (p1 == p2 ==> !counted)
    requires OperandResult(op, e, f, counted, p1, Conflict(op, e, p1, p2))
    requires !counted ==> AllPairs(op, e, p1, p2, ConflictFree(op))
    ensures PassResult(op, e, f, counted, p1, p2)
  {
    OnlyItself(op, e, p1);
    if AllPairs(op, e, p1, p2, ConflictFree(op)) && p1 != p2 && Get(e, p1).Bin? {
      PairAt(op, e, p1, p2, ConflictFree(op), p1, p2);
      forall b: Path | Under(op, e, p2, b) && b != p1 ensures !ConflictAt(op, e, p1, p2, b) {
        PairAt(op, e, p1, p2, ConflictFree(op), p1, b);
      }
    }
  }

  lemma {:induction false} PassGivesOperand(op: Op, e: Expr, f: Expr, counted: bool, p1: Path, p2: Path)
    requires Valid(e, p1) && !IsBin(Get(e, p1), op) && PassResult(op, e, f, counted, p1, p2)
    ensures OperandResult(op, e, f, counted, p1, Conflict(op, e, p1, p2))
  {
    OnlyItself(op, e, p1);
    if Get(e, p1).Bin? {
      assert Lone(op, e, p1, p1);
    } else {
      assert NoChain(op, e, p1);
      NoChainNoPairs(op, e, p1, p2);
    }
  }

  lemma {:induction false} OperandPairs(op: Op, e: Expr, p1: Path, p2: Path)
    requires Valid(e, p1) && !IsBin(Get(e, p1), op) && Valid(e, p2)
    requires p1 == p2 || ConflictFree(op)(Get(e, p1), Get(e, p2))
    requires IsBin(Get(e, p2), op) ==>
               AllPairs(op, e, p1, p2 + [Left], ConflictFree(op)) && AllPairs(op, e, p1, p2 + [Right], ConflictFree(op))
    ensures AllPairs(op, e, p1, p2, ConflictFree(op))
  {
    OnlyItself(op, e, p1);
    if IsBin(Get(e, p2), op) {
      SplitSecond(op, e, p1, p2, ConflictFree(op));
    } else {
      OnlyItself(op, e, p2);
    }
  }

  /** Two looks at one operand, the second of which finds it as it was or struck out. */
  lemma {:induction false} OperandThen(op: Op, e: Expr, m: Expr, f: Expr, c: bool, d: bool, p1: Path, first: bool, second: bool)
    requires Valid(e, p1) && Valid(m, p1)
    requires OperandResult(op, e, m, c, p1, first)
    requires m == e || !Get(m, p1).Bin? ==> OperandResult(op, m, f, d, p1, second)
    requires !d ==> f == m
    requires !Get(e, p1).Bin? ==> !Get(m, p1).Bin?
    ensures OperandResult(op, e, f, c || d, p1, first || second)
  {
    GetPut(e, p1, Sym(Absorbing(op)));
  }

  /** Below a child of the chain at `p2` there is a conflict. */
  ghost predicate ConflictInside(op: Op, e: Expr, a: Path, p2: Path)
    requires Valid(e, a) && Valid(e, p2)
  {
    IsBin(Get(e, p2), op) && (Conflict(op, e, a, p2 + [Left]) || Conflict(op, e, a, p2 + [Right]))
  }

  lemma {:induction false} ConflictOf(op: Op, e: Expr, a: Path, p2: Path)
    requires Valid(e, a) && Valid(e, p2)
    ensures Conflict(op, e, a, p2)
            <==> ConflictInside(op, e, a, p2) || (a != p2 && Contradicts(op, Get(e, a), Get(e, p2)))
  {
    if a != p2 && Contradicts(op, Get(e, a), Get(e, p2)) {
      assert ConflictAt(op, e, a, p2, p2);
    }
    if IsBin(Get(e, p2), op) {
      ConflictAbove(op, e, a, p2, Left);
      ConflictAbove(op, e, a, p2, Right);
    }
    if b :| ConflictAt(op, e, a, p2, b) && b != p2 {
      ConflictBelow(op, e, a, p2, b);
    }
  }

  lemma {:induction false} ConflictBelow(op: Op, e: Expr, a: Path, p2: Path, b: Path)
    requires Valid(e, a) && ConflictAt(op, e, a, p2, b) && b != p2
    ensures Valid(e, p2) && ConflictInside(op, e, a, p2)
  {
    UnderChild(op, e, p2, b);
    assert ConflictAt(op, e, a, p2 + [b[|p2|]], b);
  }

  lemma {:induction false} ConflictAbove(op: Op, e: Expr, a: Path, p2: Path, d: Side)
    requires Valid(e, a) && Valid(e, p2) && IsBin(Get(e, p2), op)
    ensures Conflict(op, e, a, p2 + [d]) ==> Conflict(op, e, a, p2)
  {
    SpineStep(op, e, p2, p2, d);
    if b :| ConflictAt(op, e, a, p2 + [d], b) {
      UnderTrans(op, e, p2, p2 + [d], b);
      assert ConflictAt(op, e, a, p2, b);
    }
  }

  /** The lone chain lies on one side; the other side has none. */
  lemma {:induction false} LoneBelow(op: Op, e: Expr, p: Path, a: Path)
    requires Valid(e, p) && IsBin(Get(e, p), op) && Lone(op, e, p, a)
    ensures a != p && |a| > |p| && Lone(op, e, p + [a[|p|]], a)
    ensures forall d: Side | d != a[|p|] :: NoChain(op, e, p + [d])
  {
    UnderChild(op, e, p, a);
    forall d: Side, b: Path | OperandUnder(op, e, p + [d], b) && Get(e, b).Bin? ensures b == a && d == a[|p|] {
      SpineStep(op, e, p, p, d);
      UnderTrans(op, e, p, p + [d], b);
      assert (p + [d])[|p|] == b[|p|];
    }
  }

  /** Striking out an operand on one side leaves the other side as it is. */
  lemma {:induction false} OtherSide(op: Op, e: Expr, a: Path, q: Path, x: Expr)
    requires Valid(e, a) && Valid(e, q) && NoChain(op, e, q) && !(a <= q) && !(q <= a)
    ensures NoChain(op, Put(e, a, x), q)
  {
    var f := Put(e, a, x);
    PutElsewhere(e, a, q, x);
    forall b: Path | OperandUnder(op, f, q, b) ensures !Get(f, b).Bin? {
      GetConcat(f, q, b[|q|..]);
      GetConcat(e, q, b[|q|..]);
      assert b == q + b[|q|..];
      assert OperandUnder(op, e, q, b);
    }
  }

  lemma {:induction false} PassTogether(op: Op, e: Expr, m: Expr, f: Expr, c: bool, d: bool, p1: Path, p2: Path)
    requires Valid(e, p1) && IsBin(Get(e, p1), op) && Valid(e, p2)
    requires PassResult(op, e, m, c, p1 + [Left], p2) && PassResult(op, m, f, d, p1 + [Right], p2)
    ensures PassResult(op, e, f, c || d, p1, p2)
  {
    DescendFirst(op, e, p1, p2, ConflictFree(op));
    if !c && !d {
      SplitFirst(op, e, p1, p2, ConflictFree(op));
    }
    forall a: Path | Lone(op, e, p1, a) && Consistent(Get(e, a)) ensures LoneResult(op, e, f, c || d, a, p2) {
      LoneTogether(op, e, m, f, c, d, p1, p2, a);
    }
  }

  lemma {:induction false} LoneTogether(op: Op, e: Expr, m: Expr, f: Expr, c: bool, d: bool, p1: Path, p2: Path, a: Path)
    requires Valid(e, p1) && IsBin(Get(e, p1), op) && Lone(op, e, p1, a) && Consistent(Get(e, a))
    requires PassResult(op, e, m, c, p1 + [Left], p2) && PassResult(op, m, f, d, p1 + [Right], p2)
    ensures LoneResult(op, e, f, c || d, a, p2)
  {
    LoneBelow(op, e, p1, a);
    SpineStep(op, e, p1, p1, Right);
    if a[|p1|] == Left {
      assert LoneResult(op, e, m, c, a, p2);
      assert (p1 + [Right])[|p1|] == Right;
      OtherSide(op, e, a, p1 + [Right], Sym(Absorbing(op)));
      NoChainNoPairs(op, m, p1 + [Right], p2);
    } else {
      NoChainNoPairs(op, e, p1 + [Left], p2);
      assert m == e;
    }
  }

  // Rounds of both passes

  /** Nothing can be joined and nothing contradicts. */
  ghost predicate Stable(e: Expr) {
    Joinless(e) && Consistent(e)
  }

  /**
   * Nothing in `e` can be joined, and one operand is a chain, consistent and contradicted by the rest; `f` is left of
   * `e` once that operand is struck out and constants are folded away.
   */
  ghost predicate StruckOnce(e: Expr, f: Expr) {
    e.Bin? && Joinless(e) && exists a: Path :: StruckAt(e, f, a)
  }

  ghost predicate StruckAt(e: Expr, f: Expr, a: Path)
    requires e.Bin?
  {
    Lone(e.op, e, [], a) && Consistent(Get(e, a)) && Conflict(e.op, e, a, []) && f == EliminateYN(Strikes(e.op, e, a))
  }

  /** Both passes over `e`: anything is counted unless `e` is stable, and the lone chain is struck out. */
  ghost predicate RoundResult(e: Expr, f: Expr, counted: bool) {
    && (!counted ==> f == e)
    && (counted <==> !Stable(e))
    && forall g: Expr {:trigger StruckOnce(e, g)} | StruckOnce(e, g) :: counted && EliminateYN(f) == g
  }

  lemma {:induction false} RoundOfBoth(e: Expr, m: Expr, f: Expr, c: bool, d: bool)
    requires e.Bin? && JoinResult(e.op, e, m, c, [], []) && IsBin(m, e.op) && PassResult(e.op, m, f, d, [], [])
    ensures RoundResult(e, f, c || d)
  {
    var op := e.op;
    StableMeansPairs(e);
    forall g | StruckOnce(e, g) ensures (c || d) && EliminateYN(f) == g {
      var a: Path :| StruckAt(e, g, a);
      assert m == e;
      assert LoneResult(op, e, f, d, a, []);
    }
  }

  lemma {:induction false} StableMeansPairs(e: Expr)
    requires e.Bin?
    ensures Joinless(e) <==> AllPairs(e.op, e, [], [], JoinFree(e.op))
    ensures Consistent(e) <==> AllPairs(e.op, e, [], [], ConflictFree(e.op))
  {
    if Joinless(e) {
      JoinlessGivesPairs(e.op, e, []);
    }
    if AllPairs(e.op, e, [], [], JoinFree(e.op)) {
      PairsGiveJoinless(e.op, e, []);
    }
    if Consistent(e) {
      ConsistentGivesPairs(e.op, e, []);
    }
    if AllPairs(e.op, e, [], [], ConflictFree(e.op)) {
      PairsGiveConsistent(e.op, e, []);
    }
  }
}
