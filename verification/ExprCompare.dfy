/** `expr_trans_compare`, `expr_trans_bool`, `expr_contains_symbol` and `expr_depends_symbol`. */
module ExprCompare {
  import opened Tristate
  import opened KconfigExpr
  import opened ExprJoin
  import opened Wrappers

  function Truth(b: bool): Tri {
    if b then YES else NO
  }

  /** The value of an optional condition: no condition means `y`. */
  function ConditionValue(e: Option<Expr>, env: Env): Tri {
    match e
    case None => YES
    case Some(x) => Value(x, env)
  }

  /** `expr_trans_compare` with y or n: the condition "e rel c" as an expression. */
  function TransCompare(e: Expr, rel: Rel, c: Symbol): Expr
    requires c == SYMBOL_YES || c == SYMBOL_NO
  {
    match e
    case Sym(s) => Cmp(rel, s, c)
    case Not(x) => TransCompare(x, Flip(rel), c)
    case Bin(op, l, r) =>
      var both := Bin(if c == SYMBOL_YES then op else Dual(op), TransCompare(l, Equal, c), TransCompare(r, Equal, c));
      if rel.Equal? then both else Not(both)
    case Cmp(_, _, _) =>
      if (c == SYMBOL_YES) == rel.Equal? then e else Not(e)
  }

  function TransCompareCondition(e: Option<Expr>, rel: Rel, c: Symbol): Expr
    requires c == SYMBOL_YES || c == SYMBOL_NO
  {
    match e
    case None => if rel.Equal? then Sym(c) else Not(Sym(c))
    case Some(x) => TransCompare(x, rel, c)
  }

  /** Every symbol that stands alone is boolean, tristate, or the constant y or n. */
  predicate LogicalLeaves(e: Expr) {
    match e
    case Sym(s) => IsLogical(s) || s == SYMBOL_YES || s == SYMBOL_NO
    case Not(x) => LogicalLeaves(x)
    case Bin(_, l, r) => LogicalLeaves(l) && LogicalLeaves(r)
    case Cmp(_, _, _) => true
  }

  /** No symbol that stands alone has the value `m`. */
  predicate Definite(e: Expr, env: Env) {
    match e
    case Sym(s) => env(s).tri != MOD
    case Not(x) => Definite(x, env)
    case Bin(_, l, r) => Definite(l, env) && Definite(r, env)
    case Cmp(_, _, _) => true
  }

  /** No symbol below a negation has the value `m`. */
  predicate NegationsDefinite(e: Expr, env: Env) {
    match e
    case Not(x) => Definite(x, env)
    case Bin(_, l, r) => NegationsDefinite(l, env) && NegationsDefinite(r, env)
    case _ => true
  }

  lemma {:induction false} DefiniteValue(e: Expr, env: Env)
    requires Definite(e, env)
    ensures Value(e, env) != MOD && NegationsDefinite(e, env)
  {
    match e
    case Not(x) => DefiniteValue(x, env);
    case Bin(_, l, r) =>
      DefiniteValue(l, env);
      DefiniteValue(r, env);
    case _ =>
  }

  lemma {:induction false} TwoValuedIsDefinite(e: Expr, env: Env)
    requires TwoValued(env) && LogicalLeaves(e)
    ensures Definite(e, env)
  {
    match e
    case Not(x) => TwoValuedIsDefinite(x, env);
    case Bin(_, l, r) =>
      TwoValuedIsDefinite(l, env);
      TwoValuedIsDefinite(r, env);
    case _ =>
  }

  /** The rewritten condition says what the comparison says as long as no negated symbol is `m`. */
  lemma {:induction false} TransCompareSound(e: Expr, rel: Rel, c: Symbol, env: Env)
    requires WellFormed(env) && LogicalLeaves(e) && NegationsDefinite(e, env)
    requires c == SYMBOL_YES || c == SYMBOL_NO
    ensures Value(TransCompare(e, rel, c), env) == Truth((Value(e, env) == env(c).tri) == rel.Equal?)
  {
    match e
    case Sym(s) => ComparisonMeaning(rel, s, c, env);
    case Not(x) =>
      DefiniteValue(x, env);
      TransCompareSound(x, Flip(rel), c, env);
    case Bin(_, l, r) =>
      TransCompareSound(l, Equal, c, env);
      TransCompareSound(r, Equal, c, env);
    case Cmp(_, _, _) =>
  }

  /** The value of an expression when each negated symbol that is `m` counts as `t`. */
  function ValueCounting(e: Expr, env: Env, t: Tri): Tri {
    match e
    case Not(Sym(s)) => if env(s).tri == MOD then t else Value(e, env)
    case Bin(op, l, r) => Apply(op, ValueCounting(l, env, t), ValueCounting(r, env, t))
    case _ => Value(e, env)
  }

  /** Whether the rewritten condition says that `e` has the value of `c`. */
  lemma {:induction false} TransCompareCounts(e: Expr, rel: Rel, c: Symbol, env: Env)
    requires WellFormed(env) && LogicalLeaves(e) && NegationNormal(e)
    requires c == SYMBOL_YES || c == SYMBOL_NO
    ensures Value(TransCompare(e, rel, c), env) == Truth((ValueCounting(e, env, env(c).tri) == env(c).tri) == rel.Equal?)
  {
    match e
    case Sym(s) => ComparisonMeaning(rel, s, c, env);
    case Not(x) =>
      ComparisonMeaning(Flip(rel), x.s, c, env);
      assert Value(e, env) == Complement(env(x.s).tri);
    case Bin(_, l, r) =>
      TransCompareCounts(l, Equal, c, env);
      TransCompareCounts(r, Equal, c, env);
    case Cmp(_, _, _) =>
  }

  /**
   * On negation normal form the rewritten condition is right if and only if it makes no difference to the comparison
   * whether negated symbols that are `m` count as the value compared with.
   */
  lemma {:induction false} TransCompareExact(e: Expr, rel: Rel, c: Symbol, env: Env)
    requires WellFormed(env) && LogicalLeaves(e) && NegationNormal(e)
    requires c == SYMBOL_YES || c == SYMBOL_NO
    ensures Value(TransCompare(e, rel, c), env) == Truth((Value(e, env) == env(c).tri) == rel.Equal?)
            <==> (ValueCounting(e, env, env(c).tri) == env(c).tri <==> Value(e, env) == env(c).tri)
  {
    TransCompareCounts(e, rel, c, env);
  }

  /** A negated symbol that is `m` is such a difference: !FOO != n becomes FOO = n. */
  lemma {:induction false} NegatedSymbolExact(s: Symbol, env: Env)
    requires WellFormed(env) && IsLogical(s)
    ensures Value(TransCompare(Not(Sym(s)), Unequal, SYMBOL_NO), env) == Truth(Value(Not(Sym(s)), env) != NO)
            <==> env(s).tri != MOD
  {
    assert TransCompare(Not(Sym(s)), Unequal, SYMBOL_NO) == TransCompare(Sym(s), Equal, SYMBOL_NO);
    ComparisonMeaning(Equal, s, SYMBOL_NO, env);
  }

  /** `expr_trans_bool`: FOO != n becomes FOO for a tristate FOO. */
  function TransBool(e: Expr): Expr {
    match e
    case Sym(_) => e
    case Not(x) => Not(TransBool(x))
    case Bin(op, l, r) => Bin(op, TransBool(l), TransBool(r))
    case Cmp(rel, lhs, rhs) =>
      if rel.Unequal? && lhs.typ == TristateType && rhs == SYMBOL_NO then Sym(lhs) else e
  }

  /** On negation normal form the pass may lower `y` to `m` but never touches `n`. */
  lemma {:induction false} TransBoolKeepsNo(e: Expr, env: Env)
    requires WellFormed(env) && NegationNormal(e)
    ensures Value(TransBool(e), env) == NO <==> Value(e, env) == NO
    ensures Value(TransBool(e), env) <= Value(e, env)
  {
    match e
    case Bin(_, l, r) =>
      TransBoolKeepsNo(l, env);
      TransBoolKeepsNo(r, env);
    case Cmp(rel, lhs, rhs) =>
      if rel.Unequal? && lhs.typ == TristateType && rhs == SYMBOL_NO {
        ComparisonMeaning(rel, lhs, rhs, env);
      }
    case _ =>
  }

  /** Without negation normal form it does: !(FOO != n) with FOO = m goes from n to m. */
  lemma {:induction false} TransBoolNeedsNormalForm(s: Symbol, env: Env)
    requires WellFormed(env) && s.typ == TristateType && env(s).tri == MOD
    ensures Value(Not(Cmp(Unequal, s, SYMBOL_NO)), env) == NO
    ensures Value(TransBool(Not(Cmp(Unequal, s, SYMBOL_NO))), env) == MOD
  {
    ComparisonMeaning(Unequal, s, SYMBOL_NO, env);
  }

  /** The join of all prompt conditions of a symbol, as `sym_calc_visibility` accumulates it. */
  function PromptValue(prompts: seq<Option<Expr>>, env: Env): Tri {
    if prompts == [] then NO
    else Max(PromptValue(prompts[..|prompts| - 1], env), ConditionValue(prompts[|prompts| - 1], env))
  }

  /** The last step of the visibility: `m` counts as `y` unless the symbol is tristate and modules are on. */
  function Promote(t: Tri, typ: SymbolType, modulesVal: Tri): Tri {
    if t == MOD && (typ != TristateType || modulesVal == NO) then YES else t
  }

  function TransBoolCondition(e: Option<Expr>): Option<Expr> {
    match e
    case None => None
    case Some(x) => Some(TransBool(x))
  }

  predicate ConditionNormal(e: Option<Expr>) {
    e.None? || NegationNormal(e.value)
  }

  function TransBoolAll(prompts: seq<Option<Expr>>): seq<Option<Expr>> {
    seq(|prompts|, i requires 0 <= i < |prompts| => TransBoolCondition(prompts[i]))
  }

  lemma {:induction false} PromptNoKept(prompts: seq<Option<Expr>>, env: Env)
    requires WellFormed(env) && forall i | 0 <= i < |prompts| :: ConditionNormal(prompts[i])
    ensures PromptValue(TransBoolAll(prompts), env) == NO <==> PromptValue(prompts, env) == NO
  {
    if prompts != [] {
      var n := |prompts| - 1;
      assert TransBoolAll(prompts)[..n] == TransBoolAll(prompts[..n]);
      PromptNoKept(prompts[..n], env);
      if prompts[n].Some? {
        TransBoolKeepsNo(prompts[n].value, env);
      }
    }
  }

  /** For a symbol that is not tristate the promoted visibility is the same before and after `expr_trans_bool`. */
  lemma {:induction false} VisibilityUnchanged(prompts: seq<Option<Expr>>, typ: SymbolType, modulesVal: Tri, env: Env)
    requires WellFormed(env) && forall i | 0 <= i < |prompts| :: ConditionNormal(prompts[i])
    requires typ != TristateType
    ensures Promote(PromptValue(TransBoolAll(prompts), env), typ, modulesVal)
            == Promote(PromptValue(prompts, env), typ, modulesVal)
  {
    PromptNoKept(prompts, env);
  }

  predicate DependsSymbol(e: Expr, s: Symbol) {
    match e
    case Sym(t) => t == s
    case Bin(AndOp, l, r) => DependsSymbol(l, s) || DependsSymbol(r, s)
    case Cmp(Equal, lhs, rhs) => lhs == s && (rhs == SYMBOL_YES || rhs == SYMBOL_MOD)
    case Cmp(Unequal, lhs, rhs) => lhs == s && rhs == SYMBOL_NO
    case _ => false
  }

  /** An expression that depends on a symbol is `n` whenever the symbol is. */
  lemma {:induction false} DependsSymbolSound(e: Expr, s: Symbol, env: Env)
    requires WellFormed(env) && IsLogical(s) && DependsSymbol(e, s) && env(s).tri == NO
    ensures Value(e, env) == NO
  {
    match e
    case Bin(_, l, r) =>
      if DependsSymbol(l, s) {
        DependsSymbolSound(l, s, env);
      } else {
        DependsSymbolSound(r, s, env);
      }
    case Cmp(rel, lhs, rhs) => ComparisonMeaning(rel, lhs, rhs, env);
    case _ =>
  }

  /** Only symbols the expression contains matter for its value. */
  lemma {:induction false} OnlyContainedSymbolsMatter(e: Expr, env: Env, other: Env)
    requires forall s: Symbol | ContainsSymbol(e, s) :: env(s) == other(s)
    ensures Value(e, env) == Value(e, other)
  {
    match e
    case Sym(s) => assert ContainsSymbol(e, s);
    case Not(x) =>
      assert forall s: Symbol | ContainsSymbol(x, s) :: ContainsSymbol(e, s);
      OnlyContainedSymbolsMatter(x, env, other);
    case Bin(_, l, r) =>
      assert forall s: Symbol | ContainsSymbol(l, s) || ContainsSymbol(r, s) :: ContainsSymbol(e, s);
      OnlyContainedSymbolsMatter(l, env, other);
      OnlyContainedSymbolsMatter(r, env, other);
    case Cmp(_, lhs, rhs) => assert ContainsSymbol(e, lhs) && ContainsSymbol(e, rhs);
  }
}
