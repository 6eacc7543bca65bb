/** Expressions of kconfiglib: nested tuples with lists of terms, and their value (`_eval_expr_2`). */
module KconfiglibExpr {
  import opened Wrappers
  import opened Tristate

  type Sym = nat

  /** `Stray` stands for anything that is neither a symbol nor a string. */
  datatype Operand = SymbolRef(sym: Sym) | Text(text: string) | Stray

  datatype KExpr =
    | Leaf(o: Operand)
    | And(terms: seq<KExpr>)
    | Or(terms: seq<KExpr>)
    | Not(e: KExpr)
    | Equal(l: Operand, r: Operand)
    | Unequal(l: Operand, r: Operand)

  /** Which symbols are bool or tristate, and the value of each symbol. */
  datatype Env = Env(logical: Sym -> bool, value: Sym -> string)

  function TriOf(s: string): Tri {
    if s == "y" then YES else if s == "m" then MOD else NO
  }

  function LeafValue(o: Operand, env: Env): Tri {
    match o
    case SymbolRef(s) => if env.logical(s) then TriOf(env.value(s)) else NO
    case Text(t) => TriOf(t)
    case Stray => NO
  }

  /** `_get_str_value`. */
  function StringOf(o: Operand, env: Env): string {
    match o
    case SymbolRef(s) => env.value(s)
    case Text(t) => t
    case Stray => ""
  }

  function Eval(e: KExpr, env: Env): Tri
    decreases e
  {
    match e
    case Leaf(o) => LeafValue(o, env)
    case And(terms) => AllOf(terms, env)
    case Or(terms) => AnyOf(terms, env)
    case Not(x) => Complement(Eval(x, env))
    case Equal(l, r) => if StringOf(l, env) == StringOf(r, env) then YES else NO
    case Unequal(l, r) => if StringOf(l, env) != StringOf(r, env) then YES else NO
  }

  /** The minimum of all terms; a term that is `n` ends the evaluation. */
  function AllOf(terms: seq<KExpr>, env: Env): Tri
    decreases terms
  {
    if terms == [] then YES
    else
      var first := Eval(terms[0], env);
      if first == NO then NO else Min(first, AllOf(terms[1..], env))
  }

  /** The maximum of all terms; a term that is `y` ends the evaluation. */
  function AnyOf(terms: seq<KExpr>, env: Env): Tri
    decreases terms
  {
    if terms == [] then NO
    else
      var first := Eval(terms[0], env);
      if first == YES then YES else Max(first, AnyOf(terms[1..], env))
  }

  lemma {:induction false} AllOfConcat(a: seq<KExpr>, b: seq<KExpr>, env: Env)
    ensures AllOf(a + b, env) == Min(AllOf(a, env), AllOf(b, env))
  {
    if a == [] {
      assert a + b == b;
    } else {
      assert (a + b)[1..] == a[1..] + b;
      AllOfConcat(a[1..], b, env);
    }
  }

  lemma {:induction false} AnyOfConcat(a: seq<KExpr>, b: seq<KExpr>, env: Env)
    ensures AnyOf(a + b, env) == Max(AnyOf(a, env), AnyOf(b, env))
  {
    if a == [] {
      assert a + b == b;
    } else {
      assert (a + b)[1..] == a[1..] + b;
      AnyOfConcat(a[1..], b, env);
    }
  }

  /** A missing condition counts as `y`. */
  function OptionalValue(e: Option<KExpr>, env: Env): Tri {
    if e.None? then YES else Eval(e.value, env)
  }

  predicate IsText(e: Option<KExpr>, text: string) {
    e == Some(Leaf(Text(text)))
  }

  /** `_make_and`. */
  function MakeAnd(e1: Option<KExpr>, e2: Option<KExpr>): Option<KExpr> {
    if IsText(e1, "n") || IsText(e2, "n") then Some(Leaf(Text("n")))
    else if e1.None? || IsText(e1, "y") then e2
    else if e2.None? || IsText(e2, "y") then e1
    else if e1.value.And? then
      Some(And(e1.value.terms + if e2.value.And? then e2.value.terms else [e2.value]))
    else if e2.value.And? then Some(And(e2.value.terms + [e1.value]))
    else Some(And([e1.value, e2.value]))
  }

  /** `_make_or`. */
  function MakeOr(e1: Option<KExpr>, e2: Option<KExpr>): Option<KExpr> {
    if e1.None? || e2.None? || IsText(e1, "y") || IsText(e2, "y") then Some(Leaf(Text("y")))
    else if IsText(e1, "n") then e2
    else if IsText(e2, "n") then e1
    else if e1.value.Or? then
      Some(Or(e1.value.terms + if e2.value.Or? then e2.value.terms else [e2.value]))
    else if e2.value.Or? then Some(Or(e2.value.terms + [e1.value]))
    else Some(Or([e1.value, e2.value]))
  }

  function AndList(e: KExpr): seq<KExpr> {
    if e.And? then e.terms else [e]
  }

  function OrList(e: KExpr): seq<KExpr> {
    if e.Or? then e.terms else [e]
  }

  lemma {:induction false} ListValues(e: KExpr, env: Env)
    ensures AllOf(AndList(e), env) == Eval(e, env)
    ensures AnyOf(OrList(e), env) == Eval(e, env)
  {
    assert AllOf([e][1..], env) == YES && AnyOf([e][1..], env) == NO;
  }

  lemma {:induction false} AndListConcat(e1: KExpr, e2: KExpr, env: Env)
    ensures AllOf(AndList(e1) + AndList(e2), env) == Min(Eval(e1, env), Eval(e2, env))
  {
    ListValues(e1, env);
    ListValues(e2, env);
    AllOfConcat(AndList(e1), AndList(e2), env);
  }

  lemma {:induction false} OrListConcat(e1: KExpr, e2: KExpr, env: Env)
    ensures AnyOf(OrList(e1) + OrList(e2), env) == Max(Eval(e1, env), Eval(e2, env))
  {
    ListValues(e1, env);
    ListValues(e2, env);
    AnyOfConcat(OrList(e1), OrList(e2), env);
  }

  predicate IsConstant(e: Option<KExpr>) {
    e.None? || IsText(e, "n") || IsText(e, "y")
  }

  lemma {:induction false} ConstantsSound(e1: Option<KExpr>, e2: Option<KExpr>, env: Env)
    requires IsConstant(e1) || IsConstant(e2)
    ensures OptionalValue(MakeAnd(e1, e2), env) == Min(OptionalValue(e1, env), OptionalValue(e2, env))
    ensures OptionalValue(MakeOr(e1, e2), env) == Max(OptionalValue(e1, env), OptionalValue(e2, env))
  {
  }

  /** `_make_and` gives an expression with the value of both together. */
  lemma {:induction false} MakeAndSound(e1: Option<KExpr>, e2: Option<KExpr>, env: Env)
    ensures OptionalValue(MakeAnd(e1, e2), env) == Min(OptionalValue(e1, env), OptionalValue(e2, env))
  {
    if IsConstant(e1) || IsConstant(e2) {
      ConstantsSound(e1, e2, env);
    } else if !e1.value.And? && e2.value.And? {
      AndListConcat(e2.value, e1.value, env);
    } else {
      AndListConcat(e1.value, e2.value, env);
      assert [e1.value] + [e2.value] == [e1.value, e2.value];
    }
  }

  /** `_make_or` gives an expression with the value of either. */
  lemma {:induction false} MakeOrSound(e1: Option<KExpr>, e2: Option<KExpr>, env: Env)
    ensures OptionalValue(MakeOr(e1, e2), env) == Max(OptionalValue(e1, env), OptionalValue(e2, env))
  {
    if IsConstant(e1) || IsConstant(e2) {
      ConstantsSound(e1, e2, env);
    } else if !e1.value.Or? && e2.value.Or? {
      OrListConcat(e2.value, e1.value, env);
    } else {
      OrListConcat(e1.value, e2.value, env);
      assert [e1.value] + [e2.value] == [e1.value, e2.value];
    }
  }
}
