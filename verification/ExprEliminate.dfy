/** Constant folding, common-part elimination and equality of expressions. */
module ExprEliminate {
  import opened Tristate
  import opened KconfigExpr

  /** `expr_eliminate_yn` on a node whose operands are already reduced. */
  function FoldConstants(op: Op, l: Expr, r: Expr): Expr {
    if l == Sym(Absorbing(op)) then l
    else if l == Sym(Neutral(op)) then r
    else if r == Sym(Absorbing(op)) then r
    else if r == Sym(Neutral(op)) then l
    else Bin(op, l, r)
  }

  function EliminateYN(e: Expr): Expr {
    match e
    case Bin(op, l, r) => FoldConstants(op, EliminateYN(l), EliminateYN(r))
    case _ => e
  }

  lemma {:induction false} EliminateYNSound(e: Expr, env: Env)
    requires ConstantsFixed(env)
    ensures Value(EliminateYN(e), env) == Value(e, env)
  {
    if e.Bin? {
      EliminateYNSound(e.l, env);
      EliminateYNSound(e.r, env);
    }
  }

  lemma {:induction false} EliminateYNNormal(e: Expr)
    ensures Normal(e) ==> Normal(EliminateYN(e))
  {
    if e.Bin? {
      EliminateYNNormal(e.l);
      EliminateYNNormal(e.r);
    }
  }

  lemma {:induction false} EliminateYNSize(e: Expr)
    ensures Size(EliminateYN(e)) <= Size(e)
  {
    if e.Bin? {
      EliminateYNSize(e.l);
      EliminateYNSize(e.r);
    }
  }

  /** `__expr_eliminate_eq`: strike out operands of `op` that both sides share. */
  function EliminateShared(op: Op, e1: Expr, e2: Expr): (r: (Expr, Expr))
    ensures Size(r.0) <= Size(e1) && Size(r.1) <= Size(e2)
    ensures IsBin(e1, op) <==> IsBin(r.0, op)
    ensures IsBin(e2, op) <==> IsBin(r.1, op)
    decreases Size(e1) + Size(e2), if IsBin(e1, op) || IsBin(e2, op) then 0 else 4
  {
    if IsBin(e1, op) then
      var (l, rest) := EliminateShared(op, e1.l, e2);
      var (r, rest') := EliminateShared(op, e1.r, rest);
      (Bin(op, l, r), rest')
    else if IsBin(e2, op) then
      var (rest, l) := EliminateShared(op, e1, e2.l);
      var (rest', r) := EliminateShared(op, rest, e2.r);
      (rest', Bin(op, l, r))
    else if e1 == e2 && (e1 == Sym(SYMBOL_YES) || e1 == Sym(SYMBOL_NO)) then
      (e1, e2)
    else if ExprEq(e1, e2) then
      (Sym(Neutral(op)), Sym(Neutral(op)))
    else
      (e1, e2)
  }

  /** The two phases of `expr_eliminate_eq` before constants are folded. */
  function EliminateEqPhases(e1: Expr, e2: Expr): (Expr, Expr)
    decreases Size(e1) + Size(e2), 1
  {
    var (a1, a2) := if e1.Bin? then EliminateShared(e1.op, e1, e2) else (e1, e2);
    if a2.Bin? && !IsBin(a1, a2.op) then EliminateShared(a2.op, a1, a2) else (a1, a2)
  }

  function EliminateEq(e1: Expr, e2: Expr): (Expr, Expr)
    decreases Size(e1) + Size(e2), 2
  {
    var (a1, a2) := EliminateEqPhases(e1, e2);
    (EliminateYN(a1), EliminateYN(a2))
  }

  /** `expr_eq`. */
  predicate ExprEq(e1: Expr, e2: Expr)
    decreases Size(e1) + Size(e2), 3
  {
    match (e1, e2)
    case (Cmp(_, _, _), Cmp(_, _, _)) => e1 == e2
    case (Sym(_), Sym(_)) => e1 == e2
    case (Not(x), Not(y)) => ExprEq(x, y)
    case (Bin(op1, _, _), Bin(op2, _, _)) =>
      op1 == op2 &&
      var (r1, r2) := EliminateEq(e1, e2);
      r1.Sym? && r1 == r2
    case _ => false
  }

  lemma {:induction false} InterchangeOperands(op: Op, a: Tri, v: Tri, b: Tri, w: Tri)
    ensures Apply(op, Apply(op, a, v), Apply(op, b, w)) == Apply(op, Apply(op, a, b), Apply(op, v, w))
  {
  }

  lemma {:induction false} Reassociate(op: Op, a: Tri, w: Tri, v: Tri)
    ensures Apply(op, Apply(op, a, w), v) == Apply(op, a, Apply(op, v, w))
  {
  }

  /** What the two halves of a chain give up together. */
  lemma {:induction false} Combine(op: Op, l: Tri, l': Tri, r: Tri, r': Tri, v: Tri, w: Tri,
                                   other: Tri, middle: Tri, other': Tri)
    requires l == Apply(op, l', v) && r == Apply(op, r', w)
    requires other == Apply(op, middle, v) && middle == Apply(op, other', w)
    ensures Apply(op, l, r) == Apply(op, Apply(op, l', r'), Apply(op, v, w))
    ensures other == Apply(op, other', Apply(op, v, w))
  {
    InterchangeOperands(op, l', v, r', w);
    Reassociate(op, other', w, v);
  }

  /** Striking out shared operands divides both sides by the same value. */
  lemma {:induction false} EliminateSharedSound(op: Op, e1: Expr, e2: Expr, env: Env) returns (v: Tri)
    requires ConstantsFixed(env)
    ensures Value(e1, env) == Apply(op, Value(EliminateShared(op, e1, e2).0, env), v)
    ensures Value(e2, env) == Apply(op, Value(EliminateShared(op, e1, e2).1, env), v)
    decreases Size(e1) + Size(e2), if IsBin(e1, op) || IsBin(e2, op) then 0 else 5
  {
    if IsBin(e1, op) {
      var (l, rest) := EliminateShared(op, e1.l, e2);
      var (r, rest') := EliminateShared(op, e1.r, rest);
      var v1 := EliminateSharedSound(op, e1.l, e2, env);
      var v2 := EliminateSharedSound(op, e1.r, rest, env);
      v := Apply(op, v1, v2);
      Combine(op, Value(e1.l, env), Value(l, env), Value(e1.r, env), Value(r, env), v1, v2,
              Value(e2, env), Value(rest, env), Value(rest', env));
      assert EliminateShared(op, e1, e2) == (Bin(op, l, r), rest');
    } else if IsBin(e2, op) {
      var (rest, l) := EliminateShared(op, e1, e2.l);
      var (rest', r) := EliminateShared(op, rest, e2.r);
      var v1 := EliminateSharedSound(op, e1, e2.l, env);
      var v2 := EliminateSharedSound(op, rest, e2.r, env);
      v := Apply(op, v1, v2);
      Combine(op, Value(e2.l, env), Value(l, env), Value(e2.r, env), Value(r, env), v1, v2,
              Value(e1, env), Value(rest, env), Value(rest', env));
      assert EliminateShared(op, e1, e2) == (rest', Bin(op, l, r));
    } else if e1 == e2 && (e1 == Sym(SYMBOL_YES) || e1 == Sym(SYMBOL_NO)) {
      v := env(Neutral(op)).tri;
    } else if ExprEq(e1, e2) {
      ExprEqSound(e1, e2, env);
      v := Value(e1, env);
    } else {
      v := env(Neutral(op)).tri;
    }
  }

  /** `expr_eq` answers 1 only for expressions with the same value everywhere. */
  lemma {:induction false} ExprEqSound(e1: Expr, e2: Expr, env: Env)
    requires ConstantsFixed(env)
    requires ExprEq(e1, e2)
    ensures Value(e1, env) == Value(e2, env)
    decreases Size(e1) + Size(e2), 4
  {
    match (e1, e2)
    case (Not(x), Not(y)) => ExprEqSound(x, y, env);
    case (Bin(op, _, _), Bin(_, _, _)) =>
      var _, _ := EliminateEqSound(e1, e2, env);
    case _ =>
  }

  /** What the operands struck out of one operator add to the factoring. */
  function Factors(op: Op, v: Tri, c: Tri, d: Tri): (Tri, Tri) {
    match op
    case OrOp => (Max(c, Min(v, d)), d)
    case AndOp => (c, Min(d, v))
  }

  lemma {:induction false} FactorOut(op: Op, x: Tri, rest: Tri, v: Tri, c: Tri, d: Tri)
    requires x == Apply(op, rest, v)
    ensures var f := Factors(op, v, c, d); Max(Min(x, d), c) == Max(Min(rest, f.1), f.0)
  {
  }

  /** One of the two phases of `expr_eliminate_eq`. */
  lemma {:induction false} PhaseSound(op: Op, e1: Expr, e2: Expr, env: Env, c: Tri, d: Tri) returns (c': Tri, d': Tri)
    requires ConstantsFixed(env)
    ensures Max(Min(Value(e1, env), d), c) == Max(Min(Value(EliminateShared(op, e1, e2).0, env), d'), c')
    ensures Max(Min(Value(e2, env), d), c) == Max(Min(Value(EliminateShared(op, e1, e2).1, env), d'), c')
    decreases Size(e1) + Size(e2), if IsBin(e1, op) || IsBin(e2, op) then 1 else 6
  {
    var v := EliminateSharedSound(op, e1, e2, env);
    var (rest1, rest2) := EliminateShared(op, e1, e2);
    FactorOut(op, Value(e1, env), Value(rest1, env), v, c, d);
    FactorOut(op, Value(e2, env), Value(rest2, env), v, c, d);
    c', d' := Factors(op, v, c, d).0, Factors(op, v, c, d).1;
  }

  lemma {:induction false} PhasesSound(e1: Expr, e2: Expr, env: Env) returns (c: Tri, d: Tri)
    requires ConstantsFixed(env)
    ensures Value(e1, env) == Max(Min(Value(EliminateEqPhases(e1, e2).0, env), d), c)
    ensures Value(e2, env) == Max(Min(Value(EliminateEqPhases(e1, e2).1, env), d), c)
    decreases Size(e1) + Size(e2), 2
  {
    c, d := NO, YES;
    var (a1, a2) := (e1, e2);
    if e1.Bin? {
      a1, a2 := EliminateShared(e1.op, e1, e2).0, EliminateShared(e1.op, e1, e2).1;
      c, d := PhaseSound(e1.op, e1, e2, env, c, d);
    }
    if a2.Bin? && !IsBin(a1, a2.op) {
      c, d := PhaseSound(a2.op, a1, a2, env, c, d);
    }
  }

  /** `expr_eliminate_eq` is a sound factoring: old = (new && d) || c on both sides. */
  lemma {:induction false} EliminateEqSound(e1: Expr, e2: Expr, env: Env) returns (c: Tri, d: Tri)
    requires ConstantsFixed(env)
    ensures Value(e1, env) == Max(Min(Value(EliminateEq(e1, e2).0, env), d), c)
    ensures Value(e2, env) == Max(Min(Value(EliminateEq(e1, e2).1, env), d), c)
    decreases Size(e1) + Size(e2), 3
  {
    c, d := PhasesSound(e1, e2, env);
    EliminateYNSound(EliminateEqPhases(e1, e2).0, env);
    EliminateYNSound(EliminateEqPhases(e1, e2).1, env);
  }

  /** A second residue of `y` means the first expression implies the second. */
  lemma {:induction false} ResidueYesImplies(e1: Expr, e2: Expr, env: Env)
    requires ConstantsFixed(env)
    requires EliminateEq(e1, e2).1 == Sym(SYMBOL_YES)
    ensures Value(e1, env) <= Value(e2, env)
  {
    var _, _ := EliminateEqSound(e1, e2, env);
  }
}
