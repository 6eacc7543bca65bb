/** `expr_join_or` and `expr_join_and`: one expression for two operands, when there is one. */
module ExprJoin {
  import opened Tristate
  import opened KconfigExpr
  import opened ExprEliminate
  import opened Wrappers

  predicate IsCmp(e: Expr, rel: Rel) {
    e.Cmp? && e.rel == rel
  }

  predicate IsCmpWith(e: Expr, rel: Rel, rhs: Symbol) {
    IsCmp(e, rel) && e.rhs == rhs
  }

  /** The symbol the first operand is about, if the operand is simple enough. */
  function FirstSubject(e: Expr): Option<Symbol> {
    match e
    case Sym(s) => Some(s)
    case Cmp(_, lhs, _) => Some(lhs)
    case Not(Sym(s)) => Some(s)
    case Not(Cmp(_, lhs, _)) => Some(lhs)
    case _ => None
  }

  /** The same for the second operand, where a negated comparison is turned down. */
  function SecondSubject(e: Expr): Option<Symbol> {
    match e
    case Sym(s) => Some(s)
    case Cmp(_, lhs, _) => Some(lhs)
    case Not(Sym(s)) => Some(s)
    case _ => None
  }

  /** Both operands speak of one boolean or tristate symbol. */
  predicate SameSubject(e1: Expr, e2: Expr) {
    FirstSubject(e1).Some? && FirstSubject(e1) == SecondSubject(e2) && IsLogical(FirstSubject(e1).value)
  }

  /** The operands are comparisons `rel` of one symbol with the constants `a` and `b`, in either order. */
  predicate ComparesWith(e1: Expr, e2: Expr, rel: Rel, a: Symbol, b: Symbol) {
    || (IsCmpWith(e1, rel, a) && IsCmpWith(e2, rel, b))
    || (IsCmpWith(e1, rel, b) && IsCmpWith(e2, rel, a))
  }

  /** One operand is the bare symbol, the other compares it with `c`. */
  predicate SymbolAndComparison(e1: Expr, e2: Expr, rel: Rel, c: Symbol) {
    (e1.Sym? && IsCmpWith(e2, rel, c)) || (e2.Sym? && IsCmpWith(e1, rel, c))
  }

  predicate IsNegatedSymbol(e: Expr) {
    e.Not? && e.e.Sym?
  }

  /** The rules of `expr_join_or` for operands about one symbol that are not equal. */
  function OrRules(sym: Symbol, e1: Expr, e2: Expr): Option<Expr> {
    if sym.typ == TristateType && ComparesWith(e1, e2, Equal, SYMBOL_YES, SYMBOL_MOD) then
      Some(Cmp(Unequal, sym, SYMBOL_NO))
    else if sym.typ == TristateType && ComparesWith(e1, e2, Equal, SYMBOL_YES, SYMBOL_NO) then
      Some(Cmp(Unequal, sym, SYMBOL_MOD))
    else if sym.typ == TristateType && ComparesWith(e1, e2, Equal, SYMBOL_MOD, SYMBOL_NO) then
      Some(Cmp(Unequal, sym, SYMBOL_YES))
    else if sym.typ == Boolean && ((IsNegatedSymbol(e1) && e2.Sym?) || (IsNegatedSymbol(e2) && e1.Sym?)) then
      Some(Sym(SYMBOL_YES))
    else None
  }

  /** The rules of `expr_join_and`. */
  function AndRules(sym: Symbol, e1: Expr, e2: Expr): Option<Expr> {
    if SymbolAndComparison(e1, e2, Equal, SYMBOL_YES) then Some(Cmp(Equal, sym, SYMBOL_YES))
    else if SymbolAndComparison(e1, e2, Unequal, SYMBOL_NO) then Some(Sym(sym))
    else if SymbolAndComparison(e1, e2, Unequal, SYMBOL_MOD) then Some(Cmp(Equal, sym, SYMBOL_YES))
    else if sym.typ != TristateType then None
    else if IsCmp(e1, Equal) && IsCmp(e2, Unequal) && e1.rhs.isConst && e2.rhs.isConst then
      Some(if e1.rhs != e2.rhs then Cmp(Equal, sym, e1.rhs) else Sym(SYMBOL_NO))
    else if IsCmp(e1, Unequal) && IsCmp(e2, Equal) && e1.rhs.isConst && e2.rhs.isConst then
      Some(if e1.rhs != e2.rhs then Cmp(Equal, sym, e2.rhs) else Sym(SYMBOL_NO))
    else if ComparesWith(e1, e2, Unequal, SYMBOL_YES, SYMBOL_NO) then Some(Cmp(Equal, sym, SYMBOL_MOD))
    else if ComparesWith(e1, e2, Unequal, SYMBOL_YES, SYMBOL_MOD) then Some(Cmp(Equal, sym, SYMBOL_NO))
    else if ComparesWith(e1, e2, Unequal, SYMBOL_MOD, SYMBOL_NO) then Some(Cmp(Equal, sym, SYMBOL_YES))
    else None
  }

  function JoinOr(e1: Expr, e2: Expr): Option<Expr> {
    if ExprEq(e1, e2) then Some(e1)
    else if !SameSubject(e1, e2) then None
    else OrRules(FirstSubject(e1).value, e1, e2)
  }

  function JoinAnd(e1: Expr, e2: Expr): Option<Expr> {
    if ExprEq(e1, e2) then Some(e1)
    else if !SameSubject(e1, e2) then None
    else AndRules(FirstSubject(e1).value, e1, e2)
  }

  function Join(op: Op, e1: Expr, e2: Expr): Option<Expr> {
    match op
    case OrOp => JoinOr(e1, e2)
    case AndOp => JoinAnd(e1, e2)
  }

  // Which operands are joined

  predicate AreYesModNo(a: Symbol, b: Symbol, c: Symbol) {
    IsTriConst(a) && IsTriConst(b) && IsTriConst(c) && a != b && b != c && a != c
  }

  /** Two of the three values leave the third, for a tristate symbol. */
  lemma {:induction false} TwoOfThree(s: Symbol, a: Symbol, b: Symbol, c: Symbol)
    requires s.typ == TristateType && AreYesModNo(a, b, c)
    ensures Join(OrOp, Cmp(Equal, s, a), Cmp(Equal, s, b)) == Some(Cmp(Unequal, s, c))
    ensures Join(AndOp, Cmp(Unequal, s, a), Cmp(Unequal, s, b)) == Some(Cmp(Equal, s, c))
  {
  }

  /** A value together with another one that is excluded, and a value that is excluded, in either order. */
  lemma {:induction false} ValueAndExclusion(s: Symbol, a: Symbol, b: Symbol)
    requires s.typ == TristateType && a.isConst && b.isConst
    ensures var r := Some(if a != b then Cmp(Equal, s, a) else Sym(SYMBOL_NO));
            && Join(AndOp, Cmp(Equal, s, a), Cmp(Unequal, s, b)) == r
            && Join(AndOp, Cmp(Unequal, s, b), Cmp(Equal, s, a)) == r
  {
  }

  /** The symbol itself together with a comparison. */
  lemma {:induction false} SymbolJoins(s: Symbol, e: Expr)
    requires IsLogical(s)
    ensures e == Cmp(Equal, s, SYMBOL_YES) || e == Cmp(Unequal, s, SYMBOL_MOD) ==>
              Join(AndOp, Sym(s), e) == Join(AndOp, e, Sym(s)) == Some(Cmp(Equal, s, SYMBOL_YES))
    ensures e == Cmp(Unequal, s, SYMBOL_NO) ==> Join(AndOp, Sym(s), e) == Join(AndOp, e, Sym(s)) == Some(Sym(s))
    ensures e == Not(Sym(s)) && s.typ == Boolean ==>
              Join(OrOp, Sym(s), e) == Join(OrOp, e, Sym(s)) == Some(Sym(SYMBOL_YES))
  {
  }

  /** What a comparison of a logical symbol, or of y, m or n, with y, m or n means for its tristate value. */
  lemma {:induction false} ComparisonMeaning(rel: Rel, lhs: Symbol, rhs: Symbol, env: Env)
    requires WellFormed(env) && (IsLogical(lhs) || IsTriConst(lhs)) && IsTriConst(rhs)
    ensures Value(Cmp(rel, lhs, rhs), env) == if (env(lhs).tri == env(rhs).tri) == rel.Equal? then YES else NO
  {
    TriStringInjective(env(lhs).tri, env(rhs).tri);
  }

  lemma {:induction false} ComparisonMeaningAll(rel: Rel, lhs: Symbol, env: Env)
    requires WellFormed(env) && IsLogical(lhs)
    ensures forall c | IsTriConst(c) ::
              Value(Cmp(rel, lhs, c), env) == if (env(lhs).tri == env(c).tri) == rel.Equal? then YES else NO
  {
    forall c | IsTriConst(c) { ComparisonMeaning(rel, lhs, c, env); }
  }

  lemma {:induction false} OrRulesCompare(sym: Symbol, e1: Expr, e2: Expr, env: Env)
    requires WellFormed(env) && SameSubject(e1, e2) && FirstSubject(e1) == Some(sym) && OrRules(sym, e1, e2).Some?
    requires e1.Cmp? && e2.Cmp?
    ensures Value(OrRules(sym, e1, e2).value, env) == Max(Value(e1, env), Value(e2, env))
  {
    ComparisonMeaningAll(Equal, sym, env);
    ComparisonMeaningAll(Unequal, sym, env);
  }

  lemma {:induction false} OrRulesSound(sym: Symbol, e1: Expr, e2: Expr, env: Env)
    requires WellFormed(env) && SameSubject(e1, e2) && FirstSubject(e1) == Some(sym) && OrRules(sym, e1, e2).Some?
    ensures Value(OrRules(sym, e1, e2).value, env) == Max(Value(e1, env), Value(e2, env))
  {
    if e1.Cmp? && e2.Cmp? {
      OrRulesCompare(sym, e1, e2, env);
    } else {
      assert sym.typ == Boolean && env(sym).tri != MOD;
    }
  }

  lemma {:induction false} DistinctConstants(lhs: Symbol, b: Symbol, c: Symbol, env: Env)
    requires WellFormed(env) && b.isConst && c.isConst
    ensures Min(Value(Cmp(Equal, lhs, b), env), Value(Cmp(Unequal, lhs, c), env))
            == if b != c then Value(Cmp(Equal, lhs, b), env) else NO
  {
  }

  lemma {:induction false} AndRulesSymbol(sym: Symbol, e1: Expr, e2: Expr, env: Env)
    requires WellFormed(env) && SameSubject(e1, e2) && FirstSubject(e1) == Some(sym) && AndRules(sym, e1, e2).Some?
    requires e1.Sym? || e2.Sym?
    ensures Value(AndRules(sym, e1, e2).value, env) == Min(Value(e1, env), Value(e2, env))
  {
    ComparisonMeaningAll(Equal, sym, env);
    ComparisonMeaningAll(Unequal, sym, env);
  }

  lemma {:induction false} AndRulesCompare(sym: Symbol, e1: Expr, e2: Expr, env: Env)
    requires WellFormed(env) && SameSubject(e1, e2) && FirstSubject(e1) == Some(sym) && AndRules(sym, e1, e2).Some?
    requires !e1.Sym? && !e2.Sym?
    ensures Value(AndRules(sym, e1, e2).value, env) == Min(Value(e1, env), Value(e2, env))
  {
    if IsCmp(e1, Equal) {
      DistinctConstants(sym, e1.rhs, e2.rhs, env);
    } else if IsCmp(e2, Equal) {
      DistinctConstants(sym, e2.rhs, e1.rhs, env);
    } else {
      ComparisonMeaningAll(Equal, sym, env);
      ComparisonMeaningAll(Unequal, sym, env);
    }
  }

  lemma {:induction false} JoinOrSound(e1: Expr, e2: Expr, env: Env)
    requires WellFormed(env) && JoinOr(e1, e2).Some?
    ensures Value(JoinOr(e1, e2).value, env) == Max(Value(e1, env), Value(e2, env))
  {
    if ExprEq(e1, e2) {
      ExprEqSound(e1, e2, env);
    } else {
      OrRulesSound(FirstSubject(e1).value, e1, e2, env);
    }
  }

  lemma {:induction false} JoinAndSound(e1: Expr, e2: Expr, env: Env)
    requires WellFormed(env) && JoinAnd(e1, e2).Some?
    ensures Value(JoinAnd(e1, e2).value, env) == Min(Value(e1, env), Value(e2, env))
  {
    if ExprEq(e1, e2) {
      ExprEqSound(e1, e2, env);
    } else if e1.Sym? || e2.Sym? {
      AndRulesSymbol(FirstSubject(e1).value, e1, e2, env);
    } else {
      AndRulesCompare(FirstSubject(e1).value, e1, e2, env);
    }
  }

  /** A join stands for both operands in every well-formed tristate environment. */
  lemma {:induction false} JoinSound(op: Op, e1: Expr, e2: Expr, env: Env)
    requires WellFormed(env) && Join(op, e1, e2).Some?
    ensures Value(Join(op, e1, e2).value, env) == Apply(op, Value(e1, env), Value(e2, env))
  {
    match op
    case OrOp => JoinOrSound(e1, e2, env);
    case AndOp => JoinAndSound(e1, e2, env);
  }

  lemma {:induction false} JoinNormal(op: Op, e1: Expr, e2: Expr)
    requires Normal(e1) && Normal(e2) && Join(op, e1, e2).Some?
    ensures Normal(Join(op, e1, e2).value)
  {
  }
}
