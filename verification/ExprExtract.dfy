/** `expr_extract_eq`: pull the common operands of two expressions out of both. */
module ExprExtract {
  import opened Tristate
  import opened KconfigExpr
  import opened ExprEliminate
  import opened Wrappers

  /** The collected operands, both residues. */
  datatype Extraction = Extraction(common: Option<Expr>, first: Expr, second: Expr)

  function ExtractEq(op: Op, common: Option<Expr>, e1: Expr, e2: Expr): (x: Extraction)
    ensures Size(x.first) <= Size(e1) && Size(x.second) <= Size(e2)
    decreases Size(e1) + Size(e2)
  {
    if IsBin(e1, op) then
      var x := ExtractEq(op, common, e1.l, e2);
      var y := ExtractEq(op, x.common, e1.r, x.second);
      Extraction(y.common, Bin(op, x.first, y.first), y.second)
    else if IsBin(e2, op) then
      var x := ExtractEq(op, common, e1, e2.l);
      var y := ExtractEq(op, x.common, x.first, e2.r);
      Extraction(y.common, y.first, Bin(op, x.second, y.second))
    else if ExprEq(e1, e2) then
      var extended := if common.None? then e1 else Bin(op, common.value, e1);
      Extraction(Some(extended), Sym(Neutral(op)), Sym(Neutral(op)))
    else
      Extraction(common, e1, e2)
  }

  /** `expr_extract_eq_and` and `expr_extract_eq_or`. */
  function ExtractCommon(op: Op, e1: Expr, e2: Expr): Extraction {
    var x := ExtractEq(op, None, e1, e2);
    if x.common.None? then x
    else Extraction(x.common, EliminateYN(x.first), EliminateYN(x.second))
  }

  function CommonValue(op: Op, common: Option<Expr>, env: Env): Tri {
    match common
    case None => env(Neutral(op)).tri
    case Some(e) => Value(e, env)
  }

  lemma {:induction false} Commute(op: Op, v: Tri, w: Tri)
    ensures Apply(op, v, w) == Apply(op, w, v)
  {
  }

  /** Everything taken from either side goes, once, into the common part. */
  lemma {:induction false} ExtractEqSound(op: Op, common: Option<Expr>, e1: Expr, e2: Expr, env: Env)
    returns (v: Tri)
    requires ConstantsFixed(env)
    ensures var x := ExtractEq(op, common, e1, e2);
            && Value(e1, env) == Apply(op, Value(x.first, env), v)
            && Value(e2, env) == Apply(op, Value(x.second, env), v)
            && CommonValue(op, x.common, env) == Apply(op, CommonValue(op, common, env), v)
    decreases Size(e1) + Size(e2)
  {
    if IsBin(e1, op) {
      var x := ExtractEq(op, common, e1.l, e2);
      var y := ExtractEq(op, x.common, e1.r, x.second);
      var v1 := ExtractEqSound(op, common, e1.l, e2, env);
      var v2 := ExtractEqSound(op, x.common, e1.r, x.second, env);
      v := Apply(op, v1, v2);
      Combine(op, Value(e1.l, env), Value(x.first, env), Value(e1.r, env), Value(y.first, env), v1, v2,
              Value(e2, env), Value(x.second, env), Value(y.second, env));
      Reassociate(op, CommonValue(op, common, env), v1, v2);
      Commute(op, v1, v2);
      assert ExtractEq(op, common, e1, e2) == Extraction(y.common, Bin(op, x.first, y.first), y.second);
    } else if IsBin(e2, op) {
      var x := ExtractEq(op, common, e1, e2.l);
      var y := ExtractEq(op, x.common, x.first, e2.r);
      var v1 := ExtractEqSound(op, common, e1, e2.l, env);
      var v2 := ExtractEqSound(op, x.common, x.first, e2.r, env);
      v := Apply(op, v1, v2);
      Combine(op, Value(e2.l, env), Value(x.second, env), Value(e2.r, env), Value(y.second, env), v1, v2,
              Value(e1, env), Value(x.first, env), Value(y.first, env));
      Reassociate(op, CommonValue(op, common, env), v1, v2);
      Commute(op, v1, v2);
      assert ExtractEq(op, common, e1, e2) == Extraction(y.common, y.first, Bin(op, x.second, y.second));
    } else if ExprEq(e1, e2) {
      ExprEqSound(e1, e2, env);
      v := Value(e1, env);
    } else {
      v := env(Neutral(op)).tri;
    }
  }

  /** Both operands are their residue joined with the common part. */
  lemma {:induction false} ExtractCommonSound(op: Op, e1: Expr, e2: Expr, env: Env)
    requires ConstantsFixed(env)
    ensures var x := ExtractCommon(op, e1, e2);
            && Value(e1, env) == Apply(op, Value(x.first, env), CommonValue(op, x.common, env))
            && Value(e2, env) == Apply(op, Value(x.second, env), CommonValue(op, x.common, env))
  {
    var x := ExtractEq(op, None, e1, e2);
    var _ := ExtractEqSound(op, None, e1, e2, env);
    EliminateYNSound(x.first, env);
    EliminateYNSound(x.second, env);
  }
}
