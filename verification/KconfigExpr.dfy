/** Kconfig dependency expressions and their value (`struct expr`, `expr_calc_value`). */
module KconfigExpr {
  import opened Tristate

  datatype SymbolType = Unknown | Boolean | TristateType | Int | Hex | Str | Other

  /**
   * Two symbols are the same C object exactly when they are equal here. A constant (SYMBOL_CONST) comes from a literal
   * and never gets a type.
   */
  datatype Symbol = Constant(id: nat) | Declared(id: nat, kind: SymbolType) {
    const isConst: bool := Constant?
    const typ: SymbolType := if Constant? then Unknown else kind
  }

  const SYMBOL_NO := Constant(0)
  const SYMBOL_MOD := Constant(1)
  const SYMBOL_YES := Constant(2)

  datatype Op = AndOp | OrOp
  datatype Rel = Equal | Unequal

  datatype Expr =
    | Sym(s: Symbol)
    | Not(e: Expr)
    | Bin(op: Op, l: Expr, r: Expr)
    | Cmp(rel: Rel, lhs: Symbol, rhs: Symbol)

  datatype SymbolValue = SymbolValue(tri: Tri, str: string)

  /** What `curr.tri` and `sym_get_string_value` answer for each symbol. */
  type Env = Symbol -> SymbolValue

  predicate IsTriConst(s: Symbol) {
    s == SYMBOL_NO || s == SYMBOL_MOD || s == SYMBOL_YES
  }

  predicate IsLogical(s: Symbol) {
    s.typ == Boolean || s.typ == TristateType
  }

  ghost predicate ConstantsFixed(env: Env) {
    && env(SYMBOL_NO) == SymbolValue(NO, TriString(NO))
    && env(SYMBOL_MOD) == SymbolValue(MOD, TriString(MOD))
    && env(SYMBOL_YES) == SymbolValue(YES, TriString(YES))
  }

  /** The environments symbol evaluation produces. */
  ghost predicate WellFormed(env: Env) {
    && ConstantsFixed(env)
    && (forall s: Symbol :: s.typ == Boolean ==> env(s).tri != MOD)
    && (forall s: Symbol :: IsLogical(s) ==> env(s).str == TriString(env(s).tri))
    && (forall s: Symbol, t: Symbol :: s.isConst && t.isConst && s != t ==> env(s).str != env(t).str)
  }

  /** No symbol other than the constant `m` has the value `m`. */
  ghost predicate TwoValued(env: Env) {
    WellFormed(env) && forall s: Symbol :: s != SYMBOL_MOD ==> env(s).tri != MOD
  }

  /** The values after every symbol has been switched off. */
  function AllOff(s: Symbol): SymbolValue {
    if s.Declared? || s.id == 0 then SymbolValue(NO, "n")
    else if s.id == 1 then SymbolValue(MOD, "m")
    else if s.id == 2 then SymbolValue(YES, "y")
    else SymbolValue(NO, seq(s.id, _ => '0'))
  }

  lemma {:induction false} AllOffTwoValued()
    ensures TwoValued(AllOff)
  {
    forall s: Symbol, t: Symbol | s.isConst && t.isConst && s != t ensures AllOff(s).str != AllOff(t).str {
      if s.id <= 2 && t.id <= 2 {
        TriStringInjective(AllOff(s).tri, AllOff(t).tri);
      } else {
        assert |AllOff(s).str| != |AllOff(t).str|;
      }
    }
  }

  function Apply(op: Op, a: Tri, b: Tri): Tri {
    match op
    case AndOp => Min(a, b)
    case OrOp => Max(a, b)
  }

  function Dual(op: Op): Op {
    match op
    case AndOp => OrOp
    case OrOp => AndOp
  }

  /** The constant that leaves the other operand of `op` unchanged. */
  function Neutral(op: Op): Symbol {
    match op
    case AndOp => SYMBOL_YES
    case OrOp => SYMBOL_NO
  }

  /** The constant that decides `op` on its own. */
  function Absorbing(op: Op): Symbol {
    Neutral(Dual(op))
  }

  function Flip(rel: Rel): Rel {
    match rel
    case Equal => Unequal
    case Unequal => Equal
  }

  function Value(e: Expr, env: Env): Tri {
    match e
    case Sym(s) => env(s).tri
    case Not(x) => Complement(Value(x, env))
    case Bin(op, l, r) => Apply(op, Value(l, env), Value(r, env))
    case Cmp(rel, lhs, rhs) =>
      if (env(lhs).str == env(rhs).str) == rel.Equal? then YES else NO
  }

  /** `expr_contains_symbol`. */
  predicate ContainsSymbol(e: Expr, s: Symbol) {
    match e
    case Sym(t) => t == s
    case Not(x) => ContainsSymbol(x, s)
    case Bin(_, l, r) => ContainsSymbol(l, s) || ContainsSymbol(r, s)
    case Cmp(_, lhs, rhs) => lhs == s || rhs == s
  }

  /** Number of nodes. */
  function Size(e: Expr): (n: nat)
    ensures n >= 1
  {
    match e
    case Sym(_) => 1
    case Not(x) => 1 + Size(x)
    case Bin(_, l, r) => 1 + Size(l) + Size(r)
    case Cmp(_, _, _) => 1
  }

  predicate IsBin(e: Expr, op: Op) {
    e.Bin? && e.op == op
  }

  /** NOT stands only above symbols other than y, m and n. */
  predicate NegationNormal(e: Expr) {
    match e
    case Sym(_) => true
    case Not(x) => x.Sym? && !IsTriConst(x.s)
    case Bin(_, l, r) => NegationNormal(l) && NegationNormal(r)
    case Cmp(_, _, _) => true
  }

  /** Negation normal, and no boolean symbol is compared with y, m or n. */
  predicate Normal(e: Expr) {
    match e
    case Sym(_) => true
    case Not(x) => x.Sym? && !IsTriConst(x.s)
    case Bin(_, l, r) => Normal(l) && Normal(r)
    case Cmp(_, lhs, rhs) => !(lhs.typ == Boolean && IsTriConst(rhs))
  }
}
