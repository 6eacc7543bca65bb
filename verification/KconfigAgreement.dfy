/** The C code and kconfiglib give expressions the same values. */
module KconfigAgreement {
  import opened Tristate
  import C = KconfigExpr
  import P = KconfiglibExpr

  /** The symbol that an operand of kconfiglib stands for in C, where texts are constants. */
  type Naming = P.Operand -> C.Symbol

  function Translate(e: P.KExpr, name: Naming): C.Expr
    decreases e
  {
    match e
    case Leaf(o) => C.Sym(name(o))
    case And(terms) => TranslateAll(C.AndOp, terms, name)
    case Or(terms) => TranslateAll(C.OrOp, terms, name)
    case Not(x) => C.Expr.Not(Translate(x, name))
    case Equal(l, r) => C.Cmp(C.Equal, name(l), name(r))
    case Unequal(l, r) => C.Cmp(C.Unequal, name(l), name(r))
  }

  /** A list of terms as a chain that ends in the neutral constant. */
  function TranslateAll(op: C.Op, terms: seq<P.KExpr>, name: Naming): C.Expr
    decreases terms
  {
    if terms == [] then C.Sym(C.Neutral(op)) else C.Bin(op, Translate(terms[0], name), TranslateAll(op, terms[1..], name))
  }

  /** Operands have the same tristate value and the same string on both sides. */
  ghost predicate SameOperands(name: Naming, env: C.Env, values: P.Env) {
    && C.ConstantsFixed(env)
    && forall o: P.Operand :: env(name(o)).tri == P.LeafValue(o, values) && env(name(o)).str == P.StringOf(o, values)
  }

  lemma {:induction false} SameValue(e: P.KExpr, name: Naming, env: C.Env, values: P.Env)
    requires SameOperands(name, env, values)
    ensures C.Value(Translate(e, name), env) == P.Eval(e, values)
    decreases e
  {
    match e
    case And(terms) => SameList(terms, name, env, values);
    case Or(terms) => SameList(terms, name, env, values);
    case Not(x) => SameValue(x, name, env, values);
    case _ =>
  }

  lemma {:induction false} SameList(terms: seq<P.KExpr>, name: Naming, env: C.Env, values: P.Env)
    requires SameOperands(name, env, values)
    ensures C.Value(TranslateAll(C.AndOp, terms, name), env) == P.AllOf(terms, values)
    ensures C.Value(TranslateAll(C.OrOp, terms, name), env) == P.AnyOf(terms, values)
    decreases terms
  {
    if terms != [] {
      SameValue(terms[0], name, env, values);
      SameList(terms[1..], name, env, values);
    }
  }
}
