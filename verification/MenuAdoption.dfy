/** Which following entries `menu_finalize` moves into the submenu of a config symbol. */
module MenuAdoption {
  import opened Tristate
  import opened KconfigExpr
  import opened ExprEliminate
  import opened ExprTransform
  import opened Wrappers
  import opened ExprEquality
  import opened ExprPairs
  import opened ExprDups
  import opened ExprCompare

  predicate LogicalCondition(e: Option<Expr>) {
    e.None? || LogicalLeaves(e.value)
  }

  /** `r` is `y` where the condition is visible and `n` where it is not. */
  ghost predicate SaysVisible(e: Option<Expr>, r: Expr) {
    LogicalCondition(e) ==>
      forall env: Env | TwoValued(env) :: Value(r, env) == Truth(ConditionValue(e, env) != NO)
  }

  /** `expr_trans_compare(e, E_UNEQUAL, &symbol_no)`, transformed and freed of duplicates. */
  method VisibleCondition(e: Option<Expr>) returns (r: Expr)
    ensures SaysVisible(e, r)
    ensures Normal(r) && Joinless(r) && Consistent(r)
  {
    var compared := TransCompareCondition(e, Unequal, SYMBOL_NO);
    r := EliminateDupsOf(Transform(compared));
    if LogicalCondition(e) {
      forall env: Env | TwoValued(env) ensures Value(r, env) == Truth(ConditionValue(e, env) != NO) {
        TransformSound(compared, env);
        if e.Some? {
          TwoValuedIsDefinite(e.value, env);
          DefiniteValue(e.value, env);
          TransCompareSound(e.value, Unequal, SYMBOL_NO, env);
        }
        assert Decides(Value(Transform(compared), env), Value(r, env));
      }
    }
  }

  /** A condition that cannot hold while the symbol is n. */
  predicate NeedsSymbol(e: Expr, sym: Symbol) {
    || e == Sym(sym) || e == Cmp(Equal, sym, SYMBOL_YES) || e == Cmp(Equal, sym, SYMBOL_MOD)
    || e == Cmp(Unequal, sym, SYMBOL_NO)
  }

  /** `expr_depends_symbol` finds such a condition anywhere in a conjunction, and nothing else. */
  lemma {:induction false} DependsSymbolIff(e: Expr, sym: Symbol)
    ensures DependsSymbol(e, sym) <==> exists x :: NeedsSymbol(x, sym) && Leaf(x) in Operands(AndOp, e)
  {
    if IsBin(e, AndOp) {
      DependsSymbolIff(e.l, sym);
      DependsSymbolIff(e.r, sym);
      assert Operands(AndOp, e) == Operands(AndOp, e.l) + Operands(AndOp, e.r);
    } else if DependsSymbol(e, sym) {
      assert NeedsSymbol(e, sym) && Leaf(e) in Operands(AndOp, e);
    }
  }

  /** In every two-valued environment the sibling is off whenever the symbol is, which only bool and tristate ones are. */
  ghost predicate OffWithSymbol(sym: Symbol, dep: Expr) {
    IsLogical(sym) ==>
      forall env: Env | TwoValued(env) && env(sym).tri == NO :: Value(dep, env) == NO
  }

  lemma {:induction false} DependsMeansOff(sym: Symbol, dep: Expr)
    requires DependsSymbol(dep, sym)
    ensures OffWithSymbol(sym, dep)
  {
    if IsLogical(sym) {
      forall env: Env | TwoValued(env) && env(sym).tri == NO ensures Value(dep, env) == NO {
        DependsSymbolSound(dep, sym, env);
      }
    }
  }

  /** In every two-valued environment the sibling is off whenever the prompt of the symbol is invisible. */
  ghost predicate OffWithPrompt(prompt: Option<Expr>, dep: Expr) {
    LogicalCondition(prompt) && LogicalLeaves(dep) ==>
      forall env: Env | TwoValued(env) && ConditionValue(prompt, env) == NO :: Value(dep, env) == NO
  }

  /**
   * The body of the sibling loop: `base` is the visible condition of the parent prompt, `dep` that of the sibling where
   * the loop gets so far.
   */
  method AdoptsSibling(ghost prompt: Option<Expr>, base: Expr, sym: Symbol, sibling: Option<Expr>)
    returns (adopt: bool, ghost dep: Expr)
    requires SaysVisible(prompt, base)
    ensures sibling.Some? && ContainsSymbol(sibling.value, sym) && !DependsSymbol(sibling.value, sym) ==> SaysVisible(sibling, dep)
    ensures adopt <==>
              && sibling.Some? && ContainsSymbol(sibling.value, sym)
              && (DependsSymbol(sibling.value, sym) || EliminateEq(dep, base).1 == Sym(SYMBOL_YES))
    ensures adopt ==> OffWithSymbol(sym, sibling.value) || OffWithPrompt(prompt, sibling.value)
  {
    dep := base;
    if sibling.None? || !ContainsSymbol(sibling.value, sym) {
      return false, dep;
    }
    if DependsSymbol(sibling.value, sym) {
      DependsMeansOff(sym, sibling.value);
      return true, dep;
    }
    var condition := VisibleCondition(sibling);
    dep := condition;
    var residue := EliminateEq(condition, base).1;
    adopt := residue == Sym(SYMBOL_YES);
    if adopt && LogicalCondition(prompt) && LogicalLeaves(sibling.value) {
      forall env: Env | TwoValued(env) && ConditionValue(prompt, env) == NO ensures Value(sibling.value, env) == NO {
        ResidueYesImplies(dep, base, env);
        assert Value(base, env) == Truth(ConditionValue(prompt, env) != NO);
        assert Value(dep, env) == Truth(ConditionValue(sibling, env) != NO);
      }
    }
  }
}
