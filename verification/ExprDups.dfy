/** `expr_eliminate_dups`: joining and striking out operands in place. */
module ExprDups {
  import opened Tristate
  import opened KconfigExpr
  import opened ExprEliminate
  import opened ExprTransform
  import opened ExprJoin
  import opened Wrappers
  import opened ExprExtract
  import opened ExprPaths
  import opened ExprMeasures
  import opened ExprPairs

  ghost predicate SameValue(e: Expr, f: Expr) {
    forall env: Env | WellFormed(env) :: Value(f, env) == Value(e, env)
  }

  /** Whatever `e` decides, `f` decides the same way; only an `m` may be resolved. */
  ghost predicate Resolves(e: Expr, f: Expr) {
    forall env: Env | WellFormed(env) :: Decides(Value(e, env), Value(f, env))
  }

  /** One pass over a chain of `op` nodes; `counted` says whether it changed anything. */
  ghost predicate Shrinks(op: Op, e: Expr, f: Expr, counted: bool) {
    && SameSpine(op, e, f)
    && Kept(op, f) <= Kept(op, e)
    && (counted ==> Kept(op, f) < Leaves(e))
    && (!counted ==> f == e)
    && Alternations(op, f) <= Alternations(op, e)
    && (Normal(e) ==> Normal(f))
  }

  /** The same for the chain at position `s` of a tree that is otherwise unchanged. */
  ghost predicate Step(op: Op, s: Path, before: Expr, after: Expr, counted: bool) {
    && Valid(before, s) && Valid(after, s)
    && after == Put(before, s, Get(after, s))
    && Shrinks(op, Get(before, s), Get(after, s), counted)
  }

  lemma {:induction false} StepRefl(op: Op, s: Path, e: Expr)
    requires Valid(e, s)
    ensures Step(op, s, e, e, false)
  {
    GetPut(e, s, e);
    SameSpineRefl(op, Get(e, s));
  }

  lemma {:induction false} StepTrans(op: Op, s: Path, e: Expr, f: Expr, g: Expr, c: bool, d: bool)
    requires Step(op, s, e, f, c) && Step(op, s, f, g, d)
    ensures Step(op, s, e, g, c || d)
    ensures !c && !d ==> e == f == g
  {
    SameSpineTrans(op, Get(e, s), Get(f, s), Get(g, s));
    PutPut(e, s, Get(f, s), Get(g, s));
    GetPut(e, s, Get(e, s));
  }

  /** Positions on the chain stay on the chain. */
  lemma {:induction false} StepUnder(op: Op, s: Path, e: Expr, f: Expr, counted: bool, p: Path)
    requires Step(op, s, e, f, counted) && Under(op, e, s, p)
    ensures Under(op, f, s, p)
    ensures SpineSize(op, Get(f, p)) == SpineSize(op, Get(e, p))
    ensures IsBin(Get(f, p), op) == IsBin(Get(e, p), op)
  {
    var q := p[|s|..];
    SameSpinePaths(op, Get(e, s), Get(f, s), q);
    UnderIsPath(op, e, s, p);
    UnderIsPath(op, f, s, p);
    SameSpineSize(op, Get(e, p), Get(f, p));
  }

  lemma {:induction false} StepAt(op: Op, s: Path, e: Expr, p: Path, x: Expr)
    requires Under(op, e, s, p)
    ensures IsBin(Get(e, p), op) || IsOperand(op, Get(e, s), p[|s|..])
    ensures Valid(Put(e, p, x), s)
    ensures Get(Put(e, p, x), s) == Put(Get(e, s), p[|s|..], x)
    ensures Put(e, p, x) == Put(e, s, Get(Put(e, p, x), s))
  {
    var q := p[|s|..];
    UnderIsPath(op, e, s, p);
    assert p == s + q;
    PutConcat(e, s, q, x);
    GetPut(e, s, Put(Get(e, s), q, x));
  }

  /** A pass inside one operand is a pass over the chain. */
  lemma {:induction false} StepLift(op: Op, s: Path, p: Path, e: Expr, f: Expr, counted: bool)
    requires OperandUnder(op, e, s, p) && Get(e, p).Bin?
    requires Step(Dual(op), p, e, f, counted)
    ensures Step(op, s, e, f, counted)
  {
    var q, x := p[|s|..], Get(f, p);
    StepAt(op, s, e, p, x);
    var t := Get(e, s);
    UnderIsPath(op, e, s, p);
    PutOperand(op, t, q, x);
    OperandCounts(op, t, q);
    KeptAtMostLeaves(Dual(op), Get(e, p));
    if Normal(t) {
      PutNormal(t, q, x);
    }
    if !counted {
      GetPut(t, q, x);
    }
  }

  /** Two operands give way to their join. */
  lemma {:induction false} StepJoin(op: Op, s: Path, e: Expr, p1: Path, p2: Path)
    requires OperandUnder(op, e, s, p1) && OperandUnder(op, e, s, p2) && p1 != p2
    requires Join(op, Get(e, p1), Get(e, p2)).Some?
    ensures var f := Put(e, p1, Sym(Neutral(op)));
            && Valid(f, p2)
            && Step(op, s, e, Put(f, p2, Join(op, Get(e, p1), Get(e, p2)).value), true)
            && SameValue(e, Put(f, p2, Join(op, Get(e, p1), Get(e, p2)).value))
  {
    var neutral, joined := Sym(Neutral(op)), Join(op, Get(e, p1), Get(e, p2)).value;
    var t, q1, q2 := Get(e, s), p1[|s|..], p2[|s|..];
    UnderIsPath(op, e, s, p1);
    UnderIsPath(op, e, s, p2);
    assert p1 == s + q1 && p2 == s + q2;
    OperandsAreDisjoint(op, t, q1, q2);
    OperandsAreDisjoint(op, t, q2, q1);
    PutElsewhere(t, q1, q2, neutral);
    StepAt(op, s, e, p1, neutral);
    var f, t1 := Put(e, p1, neutral), Put(t, q1, neutral);
    PutOperand(op, t, q1, neutral);
    SameSpinePaths(op, t, t1, q2);
    UnderIsPath(op, f, s, p2);
    StepAt(op, s, f, p2, joined);
    var g, t2 := Put(f, p2, joined), Put(t1, q2, joined);
    PutPut(e, s, t1, t2);
    JoinCounts(op, t, q1, q2, joined);
    forall env: Env | WellFormed(env) ensures Value(g, env) == Value(e, env) {
      JoinValue(op, t, q1, q2, env);
      PutContext(e, s, t2, env);
    }
  }

  lemma {:induction false} JoinShape(op: Op, e1: Expr, e2: Expr)
    requires !IsBin(e1, op) && Join(op, e1, e2).Some?
    ensures var joined := Join(op, e1, e2).value;
            && !IsBin(joined, op)
            && Kept(op, joined) <= Kept(op, e1)
            && Alternations(op, joined) <= Alternations(op, e1)
  {
    if !ExprEq(e1, e2) {
      assert SameSubject(e1, e2);
      assert Kept(op, e1) == 1;
      assert !Join(op, e1, e2).value.Bin?;
    }
  }

  lemma {:induction false} JoinCounts(op: Op, t: Expr, q1: Path, q2: Path, joined: Expr)
    requires IsOperand(op, t, q1) && IsOperand(op, t, q2) && q1 != q2
    requires Join(op, Get(t, q1), Get(t, q2)) == Some(joined)
    requires var t1 := Put(t, q1, Sym(Neutral(op))); IsOperand(op, t1, q2) && Get(t1, q2) == Get(t, q2)
    ensures Shrinks(op, t, Put(Put(t, q1, Sym(Neutral(op))), q2, joined), true)
  {
    var neutral := Sym(Neutral(op));
    var t1 := Put(t, q1, neutral);
    JoinShape(op, Get(t, q1), Get(t, q2));
    PutOperand(op, t, q1, neutral);
    PutOperand(op, t1, q2, joined);
    SameSpineTrans(op, t, t1, Put(t1, q2, joined));
    OperandCounts(op, t, q2);
    KeptAtMostLeaves(op, t);
    if Normal(t) {
      PutNormal(t, q1, neutral);
      PutNormal(t, q2, neutral);
      JoinNormal(op, Get(t, q1), Get(t, q2));
      PutNormal(t1, q2, joined);
    }
  }

  lemma {:induction false} JoinValue(op: Op, t: Expr, q1: Path, q2: Path, env: Env)
    requires WellFormed(env)
    requires IsOperand(op, t, q1) && IsOperand(op, t, q2)
    requires Join(op, Get(t, q1), Get(t, q2)).Some?
    requires var t1 := Put(t, q1, Sym(Neutral(op))); IsOperand(op, t1, q2) && Get(t1, q2) == Get(t, q2)
    ensures var joined := Join(op, Get(t, q1), Get(t, q2)).value;
            Value(Put(Put(t, q1, Sym(Neutral(op))), q2, joined), env) == Value(t, env)
  {
    var t1, joined := Put(t, q1, Sym(Neutral(op))), Join(op, Get(t, q1), Get(t, q2)).value;
    PutValue(op, t, q1, Sym(Neutral(op)), env);
    PutValue(op, t1, q2, joined, env);
    JoinSound(op, Get(t, q1), Get(t, q2), env);
    Reassociate(op, Value(Get(t, q1), env), Value(Get(t, q2), env), Rest(op, t1, q2, env));
  }

  /** x op y cannot have the value opposite to the absorbing one. */
  lemma {:induction false} ContradictionBound(op: Op, e1: Expr, e2: Expr, env: Env)
    requires WellFormed(env) && Contradicts(op, e1, e2)
    ensures Apply(op, Value(e2, env), Complement(Value(e1, env))) == Value(e2, env)
  {
    TransformSound(Not(e1), env);
    ExtractCommonSound(op, Transform(Not(e1)), e2, env);
  }

  lemma {:induction false} DecidedValue(op: Op, a: Tri, b: Tri, whole: Tri, absorbing: Tri)
    requires Apply(op, a, whole) == whole && Apply(op, b, whole) == whole
    requires Apply(op, b, Complement(a)) == b
    requires absorbing == if op.AndOp? then NO else YES
    ensures Decides(whole, absorbing)
    ensures whole == absorbing <==> whole != MOD
  {
  }

  lemma {:induction false} PartOfWhole(op: Op, e: Expr, q: Path, env: Env)
    requires ConstantsFixed(env) && OnSpine(op, e, q)
    ensures Apply(op, Value(Get(e, q), env), Value(e, env)) == Value(e, env)
  {
    PutValue(op, e, q, Get(e, q), env);
    Reassociate(op, Value(Get(e, q), env), Value(Get(e, q), env), Rest(op, e, q, env));
  }

  /** Striking out an operand another one contradicts fixes the chain to the absorbing constant. */
  lemma {:induction false} StrikeValue(op: Op, t: Expr, q1: Path, q2: Path, env: Env)
    requires WellFormed(env)
    requires IsOperand(op, t, q1) && OnSpine(op, t, q2) && Contradicts(op, Get(t, q1), Get(t, q2))
    ensures var after := Value(Put(t, q1, Sym(Absorbing(op))), env);
            && Decides(Value(t, env), after)
            && (after == Value(t, env) <==> Value(t, env) != MOD)
  {
    PartOfWhole(op, t, q1, env);
    PartOfWhole(op, t, q2, env);
    ContradictionBound(op, Get(t, q1), Get(t, q2), env);
    PutValue(op, t, q1, Sym(Absorbing(op)), env);
    DecidedValue(op, Value(Get(t, q1), env), Value(Get(t, q2), env), Value(t, env), env(Absorbing(op)).tri);
  }

  lemma {:induction false} StepStrike(op: Op, s: Path, e: Expr, p1: Path, p2: Path)
    requires OperandUnder(op, e, s, p1) && Get(e, p1).Bin? && Under(op, e, s, p2)
    requires Contradicts(op, Get(e, p1), Get(e, p2))
    ensures var f := Put(e, p1, Sym(Absorbing(op)));
            Step(op, s, e, f, true) && Resolves(e, f)
  {
    var x := Sym(Absorbing(op));
    var t, q1, q2 := Get(e, s), p1[|s|..], p2[|s|..];
    UnderIsPath(op, e, s, p1);
    UnderIsPath(op, e, s, p2);
    StepAt(op, s, e, p1, x);
    PutOperand(op, t, q1, x);
    OperandCounts(op, t, q1);
    KeptAtMostLeaves(op, t);
    KeptAtMostLeaves(op, Get(e, p1));
    if Normal(t) {
      PutNormal(t, q1, x);
    }
    forall env: Env | WellFormed(env) ensures Decides(Value(e, env), Value(Put(e, p1, x), env)) {
      StrikeValue(op, t, q1, q2, env);
      PutContext(e, s, Put(t, q1, x), env);
    }
  }

  lemma {:induction false} ResolvesTrans(e: Expr, f: Expr, g: Expr)
    requires Resolves(e, f) || SameValue(e, f)
    requires Resolves(f, g) || SameValue(f, g)
    ensures Resolves(e, g)
  {
    forall env: Env | WellFormed(env) ensures Decides(Value(e, env), Value(g, env)) {
      assert Decides(Value(e, env), Value(f, env)) && Decides(Value(f, env), Value(g, env));
    }
  }

  /** Each counted round of both passes and constant folding costs a leaf. */
  lemma {:induction false} FoldAfterPass(op: Op, before: Expr, after: Expr)
    requires IsBin(before, op) && Step(op, [], before, after, true)
    ensures Leaves(EliminateYN(after)) < Leaves(before)
    ensures SameValue(after, EliminateYN(after))
    ensures Normal(before) ==> Normal(EliminateYN(after))
  {
    FoldedLeaves(op, after);
    EliminateYNNormal(after);
    forall env: Env | WellFormed(env) ensures Value(EliminateYN(after), env) == Value(after, env) {
      EliminateYNSound(after, env);
    }
  }

  lemma {:induction false} OperandAlternations(op: Op, e: Expr, s: Path, p: Path)
    requires OperandUnder(op, e, s, p) && Get(e, p).Bin?
    ensures Alternations(Dual(op), Get(e, p)) < Alternations(op, Get(e, s))
    ensures Under(Dual(op), e, p, p)
  {
    UnderIsPath(op, e, s, p);
    PutOperand(op, Get(e, s), p[|s|..], Get(e, p));
  }

  /** The tree the passes work on in place, and the global change counter. */
  class Rewriter {
    var root: Expr
    var transCount: nat

    constructor (e: Expr, count: nat)
      ensures root == e && transCount == count
    {
      root := e;
      transCount := count;
    }

    /** `expr_eliminate_dups1(op, &p1, &p2)`; both positions lie on one chain of `op` nodes below `s`. */
    method Dups1(op: Op, p1: Path, p2: Path, ghost s: Path)
      requires Under(op, root, s, p1) && Under(op, root, s, p2)
      modifies this
      ensures transCount >= old(transCount)
      ensures Step(op, s, old(root), root, transCount > old(transCount))
      ensures SameValue(old(root), root)
      ensures JoinResult(op, old(root), root, transCount > old(transCount), p1, p2)
      decreases Alternations(op, Get(root, s)), SpineSize(op, Get(root, p1)) + SpineSize(op, Get(root, p2)), 2
    {
      ghost var before := root;
      if IsBin(Get(root, p1), op) {
        SpineStep(op, root, s, p1, Left);
        SpineStep(op, root, s, p1, Right);
        Dups1(op, p1 + [Left], p2, s);
        ghost var middle, count := root, transCount;
        StepUnder(op, s, before, middle, count > old(transCount), p1 + [Right]);
        StepUnder(op, s, before, middle, count > old(transCount), p2);
        Dups1(op, p1 + [Right], p2, s);
        StepTrans(op, s, before, middle, root, count > old(transCount), transCount > count);
        JoinFirst(op, before, middle, root, count > old(transCount), transCount > count, p1, p2);
      } else if IsBin(Get(root, p2), op) {
        Dups1Second(op, p1, p2, s);
      } else if p1 != p2 {
        Dups1Pair(op, p1, p2, s);
      } else {
        StepRefl(op, s, before);
        JoinPair(op, before, root, false, p1, p2);
      }
    }

    /** The two recursive calls for the operands of `p2`. */
    method Dups1Second(op: Op, p1: Path, p2: Path, ghost s: Path)
      requires OperandUnder(op, root, s, p1) && Under(op, root, s, p2) && IsBin(Get(root, p2), op)
      modifies this
      ensures transCount >= old(transCount)
      ensures Step(op, s, old(root), root, transCount > old(transCount))
      ensures SameValue(old(root), root)
      ensures JoinResult(op, old(root), root, transCount > old(transCount), p1, p2)
      decreases Alternations(op, Get(root, s)), SpineSize(op, Get(root, p1)) + SpineSize(op, Get(root, p2)), 1
    {
      ghost var before := root;
      SpineStep(op, root, s, p2, Left);
      SpineStep(op, root, s, p2, Right);
      Dups1(op, p1, p2 + [Left], s);
      ghost var middle, count := root, transCount;
      StepUnder(op, s, before, middle, count > old(transCount), p1);
      StepUnder(op, s, before, middle, count > old(transCount), p2 + [Right]);
      Dups1(op, p1, p2 + [Right], s);
      StepTrans(op, s, before, middle, root, count > old(transCount), transCount > count);
      JoinSecond(op, before, middle, root, count > old(transCount), transCount > count, p1, p2);
    }

    /** Two different operands: clean up the first one, then try to join them. */
    method Dups1Pair(op: Op, p1: Path, p2: Path, ghost s: Path)
      requires OperandUnder(op, root, s, p1) && OperandUnder(op, root, s, p2) && p1 != p2
      modifies this
      ensures transCount >= old(transCount)
      ensures Step(op, s, old(root), root, transCount > old(transCount))
      ensures SameValue(old(root), root)
      ensures JoinResult(op, old(root), root, transCount > old(transCount), p1, p2)
      decreases Alternations(op, Get(root, s)), SpineSize(op, Get(root, p1)) + SpineSize(op, Get(root, p2)), 1
    {
      ghost var before := root;
      CleanOperand(op, p1, s);
      ghost var middle, count := root, transCount;
      StepUnder(op, s, before, middle, count > old(transCount), p1);
      StepUnder(op, s, before, middle, count > old(transCount), p2);
      OnlyItself(op, root, p1);
      OnlyItself(op, root, p2);
      var joined := Join(op, Get(root, p1), Get(root, p2));
      if joined.Some? {
        StepJoin(op, s, root, p1, p2);
        root := Put(root, p1, Sym(Neutral(op)));
        root := Put(root, p2, joined.value);
        transCount := transCount + 1;
        StepTrans(op, s, before, middle, root, count > old(transCount), true);
      }
      JoinPair(op, before, root, transCount > old(transCount), p1, p2);
    }

    /** The switch on the type of the first operand. */
    method CleanOperand(op: Op, p1: Path, ghost s: Path)
      requires OperandUnder(op, root, s, p1)
      modifies this
      ensures transCount >= old(transCount)
      ensures Step(op, s, old(root), root, transCount > old(transCount))
      ensures SameValue(old(root), root)
      ensures transCount == old(transCount) <==> Joinless(Get(old(root), p1))
      ensures transCount == old(transCount) ==> root == old(root)
      decreases Alternations(op, Get(root, s)), 0, 0
    {
      ghost var before := root;
      StepRefl(op, s, before);
      if Get(root, p1).Bin? {
        OperandAlternations(op, root, s, p1);
        Dups1(Get(root, p1).op, p1, p1, p1);
        StepLift(op, s, p1, before, root, transCount > old(transCount));
        if Joinless(Get(before, p1)) {
          JoinlessGivesPairs(Dual(op), before, p1);
        }
        if transCount == old(transCount) {
          PairsGiveJoinless(Dual(op), before, p1);
        }
      }
    }

    /** `expr_eliminate_dups2(op, &p1, &p2)`. There is no return after the second descent. */
    method Dups2(op: Op, p1: Path, p2: Path, ghost s: Path)
      requires Under(op, root, s, p1) && Under(op, root, s, p2)
      modifies this
      ensures transCount >= old(transCount)
      ensures Step(op, s, old(root), root, transCount > old(transCount))
      ensures Resolves(old(root), root)
      ensures PassResult(op, old(root), root, transCount > old(transCount), p1, p2)
      decreases Alternations(op, Get(root, s)), SpineSize(op, Get(root, p1)) + SpineSize(op, Get(root, p2)), 3
    {
      ghost var before := root;
      if IsBin(Get(root, p1), op) {
        SpineStep(op, root, s, p1, Left);
        SpineStep(op, root, s, p1, Right);
        Dups2(op, p1 + [Left], p2, s);
        ghost var middle, count := root, transCount;
        StepUnder(op, s, before, middle, count > old(transCount), p1 + [Right]);
        StepUnder(op, s, before, middle, count > old(transCount), p2);
        Dups2(op, p1 + [Right], p2, s);
        StepTrans(op, s, before, middle, root, count > old(transCount), transCount > count);
        PassTogether(op, before, middle, root, count > old(transCount), transCount > count, p1, p2);
        return;
      }
      Dups2Operand(op, p1, p2, s);
      OperandGivesPass(op, before, root, transCount > old(transCount), p1, p2);
    }

    /** One operand against the part of the chain at `p2`. */
    method Dups2Operand(op: Op, p1: Path, p2: Path, ghost s: Path)
      requires OperandUnder(op, root, s, p1) && Under(op, root, s, p2)
      modifies this
      ensures transCount >= old(transCount)
      ensures Step(op, s, old(root), root, transCount > old(transCount))
      ensures Resolves(old(root), root)
      ensures transCount == old(transCount) ==> AllPairs(op, root, p1, p2, ConflictFree(op))
      ensures p1 == p2 ==> transCount == old(transCount)
      ensures OperandResult(op, old(root), root, transCount > old(transCount), p1, Conflict(op, old(root), p1, p2))
      decreases Alternations(op, Get(root, s)), SpineSize(op, Get(root, p1)) + SpineSize(op, Get(root, p2)), 2
    {
      ghost var before := root;
      StepRefl(op, s, before);
      if IsBin(Get(root, p2), op) {
        Descend(op, p1, p2, s);
      }
      ghost var middle, count := root, transCount;
      StepUnder(op, s, before, middle, count > old(transCount), p1);
      StepUnder(op, s, before, middle, count > old(transCount), p2);
      Strike(op, p1, p2, s);
      StepTrans(op, s, before, middle, root, count > old(transCount), transCount > count);
      ConflictOf(op, before, p1, p2);
      OperandThen(op, before, middle, root, count > old(transCount), transCount > count, p1,
                  ConflictInside(op, before, p1, p2), p1 != p2 && Contradicts(op, Get(before, p1), Get(before, p2)));
      if transCount == old(transCount) {
        OperandPairs(op, root, p1, p2);
      }
    }

    /** The two recursive calls for the operands of `p2`. */
    method Descend(op: Op, p1: Path, p2: Path, ghost s: Path)
      requires OperandUnder(op, root, s, p1) && Under(op, root, s, p2) && IsBin(Get(root, p2), op)
      modifies this
      ensures transCount >= old(transCount)
      ensures Step(op, s, old(root), root, transCount > old(transCount))
      ensures Resolves(old(root), root)
      ensures transCount == old(transCount) ==>
                AllPairs(op, root, p1, p2 + [Left], ConflictFree(op)) && AllPairs(op, root, p1, p2 + [Right], ConflictFree(op))
      ensures OperandResult(op, old(root), root, transCount > old(transCount), p1, ConflictInside(op, old(root), p1, p2))
      decreases Alternations(op, Get(root, s)), SpineSize(op, Get(root, p1)) + SpineSize(op, Get(root, p2)), 0
    {
      ghost var before := root;
      SpineStep(op, root, s, p2, Left);
      SpineStep(op, root, s, p2, Right);
      Dups2(op, p1, p2 + [Left], s);
      ghost var middle, count := root, transCount;
      StepUnder(op, s, before, middle, count > old(transCount), p1);
      StepUnder(op, s, before, middle, count > old(transCount), p2 + [Right]);
      PassGivesOperand(op, before, middle, count > old(transCount), p1, p2 + [Left]);
      Dups2(op, p1, p2 + [Right], s);
      StepTrans(op, s, before, middle, root, count > old(transCount), transCount > count);
      PassGivesOperand(op, middle, root, transCount > count, p1, p2 + [Right]);
      OperandThen(op, before, middle, root, count > old(transCount), transCount > count, p1,
                  Conflict(op, before, p1, p2 + [Left]), Conflict(op, before, p1, p2 + [Right]));
    }

    /** The comparison of the positions and the switch on the type of the first operand. */
    method Strike(op: Op, p1: Path, p2: Path, ghost s: Path)
      requires OperandUnder(op, root, s, p1) && Under(op, root, s, p2)
      modifies this
      ensures transCount >= old(transCount)
      ensures Step(op, s, old(root), root, transCount > old(transCount))
      ensures Resolves(old(root), root)
      ensures Valid(root, p1) && Valid(root, p2)
      ensures p1 == p2 ==> transCount == old(transCount)
      ensures transCount == old(transCount) ==> p1 == p2 || ConflictFree(op)(Get(root, p1), Get(root, p2))
      ensures OperandResult(op, old(root), root, transCount > old(transCount), p1,
                            p1 != p2 && Contradicts(op, Get(old(root), p1), Get(old(root), p2)))
      decreases Alternations(op, Get(root, s)), SpineSize(op, Get(root, p1)) + SpineSize(op, Get(root, p2)), 1
    {
      StepRefl(op, s, root);
      if p1 != p2 && Get(root, p1).Bin? {
        StrikeChain(op, p1, p2, s);
      }
    }

    method StrikeChain(op: Op, p1: Path, p2: Path, ghost s: Path)
      requires OperandUnder(op, root, s, p1) && Under(op, root, s, p2) && p1 != p2 && Get(root, p1).Bin?
      modifies this
      ensures transCount >= old(transCount)
      ensures Step(op, s, old(root), root, transCount > old(transCount))
      ensures Resolves(old(root), root)
      ensures Valid(root, p1) && Valid(root, p2)
      ensures transCount == old(transCount) ==> ConflictFree(op)(Get(root, p1), Get(root, p2))
      ensures OperandResult(op, old(root), root, transCount > old(transCount), p1,
                            Contradicts(op, Get(old(root), p1), Get(old(root), p2)))
      decreases Alternations(op, Get(root, s)), SpineSize(op, Get(root, p1)) + SpineSize(op, Get(root, p2)), 0
    {
      ghost var before := root;
      OperandAlternations(op, root, s, p1);
      if Consistent(Get(root, p1)) {
        ConsistentGivesPairs(Dual(op), root, p1);
      }
      Dups2(Get(root, p1).op, p1, p1, p1);
      ghost var middle, count := root, transCount;
      StepLift(op, s, p1, before, middle, count > old(transCount));
      StepUnder(op, s, before, middle, count > old(transCount), p1);
      StepUnder(op, s, before, middle, count > old(transCount), p2);
      if transCount == old(transCount) {
        PairsGiveConsistent(Dual(op), root, p1);
      }
      if Contradicts(op, Get(root, p1), Get(root, p2)) {
        StepStrike(op, s, root, p1, p2);
        root := Put(root, p1, Sym(Absorbing(op)));
        transCount := transCount + 1;
        StepTrans(op, s, before, middle, root, count > old(transCount), true);
        StepUnder(op, s, before, root, true, p1);
        StepUnder(op, s, before, root, true, p2);
      }
    }

    /** The switch in the loop below. */
    method BothPasses()
      requires root.Bin? && transCount == 0
      modifies this
      ensures Step(old(root).op, [], old(root), root, transCount > 0)
      ensures Resolves(old(root), root)
      ensures RoundResult(old(root), root, transCount > 0)
    {
      ghost var op, before := root.op, root;
      Dups1(root.op, [], [], []);
      ghost var middle, count := root, transCount;
      assert IsBin(middle, op);
      Dups2(root.op, [], [], []);
      StepTrans(op, [], before, middle, root, count > 0, transCount > count);
      ResolvesTrans(before, middle, root);
      RoundOfBoth(before, middle, root, count > 0, transCount > count);
    }

    /** `expr_eliminate_dups`: both passes until neither counts a change. */
    method EliminateDups()
      modifies this
      ensures transCount == old(transCount)
      ensures Resolves(old(root), root)
      ensures Normal(old(root)) ==> Normal(root)
      ensures Stable(root) && (root == old(root) <==> Stable(old(root)))
      ensures NoRepeats(root)
      ensures forall f | StruckOnce(old(root), f) && Stable(f) :: root == f
    {
      var oldCount := transCount;
      while true
        invariant Resolves(old(root), root)
        invariant Normal(old(root)) ==> Normal(root)
        invariant Stable(old(root)) ==> root == old(root)
        invariant forall f | StruckOnce(old(root), f) && Stable(f) :: root == old(root) || root == f
        decreases Leaves(root)
      {
        transCount := 0;
        ghost var before := root;
        if root.Bin? {
          BothPasses();
        }
        if transCount == 0 {
          break;
        }
        FoldAfterPass(before.op, before, root);
        ResolvesTrans(before, root, EliminateYN(root));
        ResolvesTrans(old(root), before, EliminateYN(root));
        root := EliminateYN(root);
      }
      transCount := oldCount;
      JoinlessHasNoRepeats(root);
    }
  }

  /** Rewriting a copy of `e`, as the callers of `expr_eliminate_dups` do. */
  method EliminateDupsOf(e: Expr) returns (r: Expr)
    ensures Resolves(e, r)
    ensures Normal(e) ==> Normal(r)
    ensures Stable(r) && (r == e <==> Stable(e))
    ensures NoRepeats(r)
    ensures forall f | StruckOnce(e, f) && Stable(f) :: r == f
  {
    var w := new Rewriter(e, 0);
    w.EliminateDups();
    r := w.root;
  }

  /** The constant `m` does not stand alone in the expression. */
  predicate WithoutMod(e: Expr) {
    match e
    case Sym(s) => s != SYMBOL_MOD
    case Not(x) => WithoutMod(x)
    case Bin(_, l, r) => WithoutMod(l) && WithoutMod(r)
    case Cmp(_, _, _) => true
  }

  lemma {:induction false} TwoValuedDefinite(e: Expr, env: Env)
    requires TwoValued(env) && WithoutMod(e)
    ensures Value(e, env) != MOD
  {
    match e
    case Not(x) => TwoValuedDefinite(x, env);
    case Bin(_, l, r) =>
      TwoValuedDefinite(l, env);
      TwoValuedDefinite(r, env);
    case _ =>
  }

  /**
   * A resolving rewrite keeps every definite value, and so it is exact on two-valued environments for expressions in
   * which the constant `m` does not stand alone.
   */
  lemma {:induction false} ResolvesIsExact(e: Expr, f: Expr, env: Env)
    requires Resolves(e, f) && WellFormed(env)
    ensures Value(e, env) != MOD ==> Value(f, env) == Value(e, env)
    ensures TwoValued(env) && WithoutMod(e) ==> Value(f, env) == Value(e, env)
  {
    assert Decides(Value(e, env), Value(f, env));
    if TwoValued(env) && WithoutMod(e) {
      TwoValuedDefinite(e, env);
    }
  }

  /** The two operands of the example below. */
  function Either(a: Symbol, b: Symbol): Expr {
    Bin(OrOp, Sym(a), Sym(b))
  }

  function Neither(a: Symbol, b: Symbol): Expr {
    Bin(AndOp, Not(Sym(a)), Not(Sym(b)))
  }

  lemma {:induction false} TransformNegation(a: Symbol)
    requires !IsTriConst(a)
    ensures Transform(Not(Sym(a))) == Not(Sym(a))
  {
    NormalIsFixed(Not(Sym(a)));
  }

  lemma {:induction false} NotEitherIsNeither(a: Symbol, b: Symbol)
    requires !IsTriConst(a) && !IsTriConst(b)
    ensures Transform(Not(Either(a, b))) == Neither(a, b)
  {
    TransformNegation(a);
    TransformNegation(b);
    NormalIsFixed(Either(a, b));
    NormalIsFixed(Neither(a, b));
    assert Transform(Not(Either(a, b))) == Transform(PushDown(OrOp, Sym(a), Sym(b)));
    assert PushDown(OrOp, Sym(a), Sym(b)) == Neither(a, b);
  }

  predicate IsNegated(x: Expr) {
    x.Not? && x.e.Sym?
  }

  /** The first operand of a conjunction comes out of both sides. */
  lemma {:induction false} ExtractFirst(x: Expr, y: Expr)
    requires IsNegated(x) && IsNegated(y) && !ExprEq(x, y)
    ensures ExtractEq(AndOp, None, x, Bin(AndOp, x, y))
            == Extraction(Some(x), Sym(SYMBOL_YES), Bin(AndOp, Sym(SYMBOL_YES), y))
  {
    var yes := Sym(SYMBOL_YES);
    ExprEqReflexive(x);
    assert ExtractEq(AndOp, None, x, x) == Extraction(Some(x), yes, yes);
    assert ExtractEq(AndOp, Some(x), yes, y) == Extraction(Some(x), yes, y);
  }

  lemma {:induction false} ExtractSecond(x: Expr, y: Expr)
    requires IsNegated(x) && IsNegated(y)
    ensures ExtractEq(AndOp, Some(x), y, Bin(AndOp, Sym(SYMBOL_YES), y)).first == Sym(SYMBOL_YES)
    ensures ExtractEq(AndOp, Some(x), y, Bin(AndOp, Sym(SYMBOL_YES), y)).common.Some?
  {
    var yes := Sym(SYMBOL_YES);
    ExprEqReflexive(y);
    assert ExtractEq(AndOp, Some(x), y, yes) == Extraction(Some(x), y, yes);
    assert ExtractEq(AndOp, Some(x), y, y) == Extraction(Some(Bin(AndOp, x, y)), yes, yes);
  }

  lemma {:induction false} ExprEqReflexive(x: Expr)
    requires IsNegated(x)
    ensures ExprEq(x, x)
  {
    assert ExprEq(x.e, x.e);
  }

  lemma {:induction false} NothingLeft(x: Expr, y: Expr)
    requires IsNegated(x) && IsNegated(y) && !ExprEq(x, y)
    ensures ExtractCommon(AndOp, Bin(AndOp, x, y), Bin(AndOp, x, y)).first == Sym(SYMBOL_YES)
  {
    var both, yes := Bin(AndOp, x, y), Sym(SYMBOL_YES);
    ExtractFirst(x, y);
    ExtractSecond(x, y);
    var all := ExtractEq(AndOp, None, both, both);
    assert all.first == Bin(AndOp, yes, yes) && all.common.Some?;
    assert EliminateYN(Bin(AndOp, yes, yes)) == yes;
  }

  /** Either of a and b, but neither. */
  function Both(a: Symbol, b: Symbol): Expr {
    Bin(AndOp, Either(a, b), Neither(a, b))
  }

  lemma {:induction false} ModValues(a: Symbol, b: Symbol, env: Env)
    requires env(a).tri == MOD && env(b).tri == MOD
    ensures Value(Both(a, b), env) == MOD
  {
    assert Value(Not(Sym(a)), env) == MOD && Value(Not(Sym(b)), env) == MOD;
    assert Value(Either(a, b), env) == MOD && Value(Neither(a, b), env) == MOD;
  }

  lemma {:induction false} OperandsOfPair(op: Op, l: Expr, r: Expr, p: Path)
    requires IsOperand(op, Bin(op, l, r), p) && !IsBin(l, op) && !IsBin(r, op)
    ensures (p == [Left] && Get(Bin(op, l, r), p) == l) || (p == [Right] && Get(Bin(op, l, r), p) == r)
  {
    var e := Bin(op, l, r);
    assert OnSpine(op, Child(e, p[0]), p[1..]);
    assert p == [p[0]] + p[1..];
  }

  lemma {:induction false} EitherStable(a: Symbol, b: Symbol)
    requires a != b
    ensures Stable(Either(a, b))
  {
    var e := Either(a, b);
    forall p: Path | IsOperand(OrOp, e, p) ensures (p == [Left] && Get(e, p) == Sym(a)) || (p == [Right] && Get(e, p) == Sym(b)) {
      OperandsOfPair(OrOp, Sym(a), Sym(b), p);
    }
  }

  /** The operands are a || b, !a and !b. */
  lemma {:induction false} OperandsOfBoth(a: Symbol, b: Symbol, p: Path)
    requires IsOperand(AndOp, Both(a, b), p)
    ensures (p == [Left] && Get(Both(a, b), p) == Either(a, b))
            || (p == [Right, Left] && Get(Both(a, b), p) == Not(Sym(a)))
            || (p == [Right, Right] && Get(Both(a, b), p) == Not(Sym(b)))
  {
    var e := Both(a, b);
    assert OnSpine(AndOp, Child(e, p[0]), p[1..]);
    assert p == [p[0]] + p[1..];
    if p[0] == Right {
      OperandsOfPair(AndOp, Not(Sym(a)), Not(Sym(b)), p[1..]);
    }
  }

  lemma {:induction false} NoJoins(a: Symbol, b: Symbol)
    requires a != b
    ensures Join(AndOp, Not(Sym(a)), Not(Sym(b))).None?
    ensures Join(AndOp, Either(a, b), Not(Sym(a))).None? && Join(AndOp, Either(a, b), Not(Sym(b))).None?
    ensures Join(AndOp, Not(Sym(a)), Either(a, b)).None? && Join(AndOp, Not(Sym(b)), Either(a, b)).None?
  {
    assert !ExprEq(Not(Sym(a)), Not(Sym(b)));
  }

  lemma {:induction false} BothJoinless(a: Symbol, b: Symbol)
    requires a != b
    ensures Joinless(Both(a, b))
  {
    var e := Both(a, b);
    EitherStable(a, b);
    NoJoins(a, b);
    NoJoins(b, a);
    forall p: Path, q: Path | IsOperand(AndOp, e, p) && IsOperand(AndOp, e, q) && p != q
      ensures Join(AndOp, Get(e, p), Get(e, q)).None? && Joinless(Get(e, p))
    {
      OperandsOfBoth(a, b, p);
      OperandsOfBoth(a, b, q);
    }
  }

  lemma {:induction false} BothContradicts(a: Symbol, b: Symbol)
    requires a != b && !IsTriConst(a) && !IsTriConst(b)
    ensures Contradicts(AndOp, Either(a, b), Neither(a, b))
  {
    NotEitherIsNeither(a, b);
    assert !ExprEq(Not(Sym(a)), Not(Sym(b)));
    NothingLeft(Not(Sym(a)), Not(Sym(b)));
  }

  /** The first round strikes out a || b, and n is left. */
  lemma {:induction false} BothIsStruck(a: Symbol, b: Symbol)
    requires a != b && !IsTriConst(a) && !IsTriConst(b)
    ensures StruckOnce(Both(a, b), Sym(SYMBOL_NO))
  {
    var e := Both(a, b);
    BothJoinless(a, b);
    EitherStable(a, b);
    BothContradicts(a, b);
    forall p: Path | OperandUnder(AndOp, e, [], p) && Get(e, p).Bin? ensures p == [Left] {
      OperandsOfBoth(a, b, p);
    }
    BothPaths(a, b);
    assert ConflictAt(AndOp, e, [Left], [], [Right]);
    assert Strikes(AndOp, e, [Left]) == Bin(AndOp, Sym(SYMBOL_NO), Neither(a, b));
    assert StruckAt(e, Sym(SYMBOL_NO), [Left]);
  }

  lemma {:induction false} BothPaths(a: Symbol, b: Symbol)
    ensures OperandUnder(AndOp, Both(a, b), [], [Left]) && Get(Both(a, b), [Left]) == Either(a, b)
    ensures Under(AndOp, Both(a, b), [], [Right]) && Get(Both(a, b), [Right]) == Neither(a, b)
    ensures Strikes(AndOp, Both(a, b), [Left]) == Bin(AndOp, Sym(Absorbing(AndOp)), Neither(a, b))
  {
    var l: Path, r: Path := [Left], [Right];
    var e, n := Both(a, b), Sym(Absorbing(AndOp));
    assert l[1..] == [] && r[1..] == [] && l[0..] == l && r[0..] == r;
    assert Get(e, l) == Get(e.l, l[1..]) && Get(e, r) == Get(e.r, r[1..]);
    assert Put(e, l, n) == Bin(AndOp, Put(e.l, l[1..], n), e.r);
  }

  /** With `m` the passes are not exact: with a and b at m, (a || b) && (!a && !b) has the value m and comes out as n. */
  method StrikingLosesMod(a: Symbol, b: Symbol, ghost env: Env) returns (r: Expr)
    requires WellFormed(env) && a != b && !IsTriConst(a) && !IsTriConst(b)
    requires env(a).tri == MOD && env(b).tri == MOD
    ensures Value(Both(a, b), env) == MOD
    ensures r == Sym(SYMBOL_NO) && Value(r, env) == NO
  {
    BothIsStruck(a, b);
    ModValues(a, b, env);
    r := EliminateDupsOf(Both(a, b));
    assert ConstantsFixed(env) && r == Sym(SYMBOL_NO);
  }
}
