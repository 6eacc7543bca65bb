/** `expr_transform`: negation push-down and rewriting of boolean comparisons. */
module ExprTransform {
  import opened Tristate
  import opened KconfigExpr

  /** Strictly falls in every De Morgan step, although the node count grows. */
  function Weight(e: Expr): (w: nat)
    ensures w >= 1
  {
    match e
    case Sym(_) => 1
    case Not(x) => 2 * Weight(x)
    case Bin(_, l, r) => 1 + Weight(l) + Weight(r)
    case Cmp(_, _, _) => 2
  }

  /** The E_EQUAL and E_UNEQUAL cases. */
  function TransformComparison(rel: Rel, lhs: Symbol, rhs: Symbol): (r: Expr)
    ensures Weight(r) <= 2 && Normal(r)
  {
    if lhs.typ != Boolean then Cmp(rel, lhs, rhs)
    else if rhs == SYMBOL_NO then
      if rel.Equal? then Not(Sym(lhs)) else Sym(lhs)
    else if rhs == SYMBOL_MOD then
      Sym(if rel.Equal? then SYMBOL_NO else SYMBOL_YES)
    else if rhs == SYMBOL_YES then
      if rel.Equal? then Sym(lhs) else Not(Sym(lhs))
    else Cmp(rel, lhs, rhs)
  }

  /** !(a op b) with the negation moved inwards. */
  function PushDown(op: Op, a: Expr, b: Expr): Expr {
    Bin(Dual(op), Not(a), Not(b))
  }

  lemma {:induction false} PushDownIsLighter(op: Op, a: Expr, b: Expr)
    ensures Weight(PushDown(op, a, b)) < 2 * Weight(Bin(op, a, b))
  {
    assert Weight(Not(a)) == 2 * Weight(a) && Weight(Not(b)) == 2 * Weight(b);
  }

  function Transform(e: Expr): (r: Expr)
    ensures Weight(r) <= Weight(e)
    ensures Normal(r)
    decreases Weight(e)
  {
    match e
    case Sym(_) => e
    case Cmp(rel, lhs, rhs) => TransformComparison(rel, lhs, rhs)
    case Bin(op, l, r) => Bin(op, Transform(l), Transform(r))
    case Not(x) =>
      match Transform(x)
      case Not(y) => Transform(y)
      case Cmp(rel, lhs, rhs) => Cmp(Flip(rel), lhs, rhs)
      case Bin(op, a, b) =>
        PushDownIsLighter(op, a, b);
        Transform(PushDown(op, a, b))
      case Sym(s) =>
        if s == SYMBOL_YES then Sym(SYMBOL_NO)
        else if s == SYMBOL_MOD then Sym(SYMBOL_MOD)
        else if s == SYMBOL_NO then Sym(SYMBOL_YES)
        else Not(Sym(s))
  }

  lemma {:induction false} NormalIsNegationNormal(e: Expr)
    requires Normal(e)
    ensures NegationNormal(e)
  {
    if e.Bin? {
      NormalIsNegationNormal(e.l);
      NormalIsNegationNormal(e.r);
    }
  }

  lemma {:induction false} TransformComparisonSound(rel: Rel, lhs: Symbol, rhs: Symbol, env: Env)
    requires WellFormed(env)
    ensures Value(TransformComparison(rel, lhs, rhs), env) == Value(Cmp(rel, lhs, rhs), env)
  {
    if lhs.typ == Boolean && IsTriConst(rhs) {
      assert IsLogical(lhs);
      TriStringInjective(env(lhs).tri, env(rhs).tri);
    }
  }

  lemma {:induction false} DeMorgan(op: Op, a: Tri, b: Tri)
    ensures Complement(Apply(op, a, b)) == Apply(Dual(op), Complement(a), Complement(b))
  {
  }

  /** The pass keeps the value in every well-formed tristate environment. */
  lemma {:induction false} TransformSound(e: Expr, env: Env)
    requires WellFormed(env)
    ensures Value(Transform(e), env) == Value(e, env)
    decreases Weight(e)
  {
    match e
    case Sym(_) =>
    case Cmp(rel, lhs, rhs) => TransformComparisonSound(rel, lhs, rhs, env);
    case Bin(op, l, r) =>
      TransformSound(l, env);
      TransformSound(r, env);
    case Not(x) =>
      TransformSound(x, env);
      match Transform(x)
      case Not(y) => TransformSound(y, env);
      case Bin(op, a, b) =>
        DeMorgan(op, Value(a, env), Value(b, env));
        PushDownIsLighter(op, a, b);
        TransformSound(PushDown(op, a, b), env);
      case _ =>
  }

  lemma {:induction false} NormalIsFixed(e: Expr)
    requires Normal(e)
    ensures Transform(e) == e
  {
    match e
    case Bin(_, l, r) =>
      NormalIsFixed(l);
      NormalIsFixed(r);
    case _ =>
  }

  /** A second run changes nothing. */
  lemma {:induction false} TransformIdempotent(e: Expr)
    ensures Transform(Transform(e)) == Transform(e)
  {
    NormalIsFixed(Transform(e));
  }

  /** The node count is no termination measure: De Morgan adds a node. */
  lemma {:induction false} NodeCountMayGrow(s: Symbol, t: Symbol)
    requires !IsTriConst(s) && !IsTriConst(t)
    ensures Size(Transform(Not(Bin(AndOp, Sym(s), Sym(t))))) > Size(Not(Bin(AndOp, Sym(s), Sym(t))))
  {
    var e := Bin(AndOp, Sym(s), Sym(t));
    assert Transform(e) == e;
    assert Transform(Not(e)) == Transform(Bin(OrOp, Not(Sym(s)), Not(Sym(t))));
    assert Transform(Not(Sym(s))) == Not(Sym(s));
    assert Transform(Not(Sym(t))) == Not(Sym(t));
  }
}
