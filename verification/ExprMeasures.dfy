/** What replacing one operand of a chain of AND or OR nodes does to sizes, shape and value. */
module ExprMeasures {
  import opened Tristate
  import opened KconfigExpr
  import opened ExprEliminate
  import opened ExprPaths

  /** Number of leaves of the AND/OR tree. */
  function Leaves(e: Expr): (n: nat)
    ensures n >= 1
  {
    match e
    case Bin(_, l, r) => Leaves(l) + Leaves(r)
    case _ => 1
  }

  /** An upper bound for the leaves that are left once neutral constants have been folded away. */
  function Kept(op: Op, e: Expr): nat
    decreases e
  {
    match e
    case Bin(o, l, r) =>
      var n := Kept(o, l) + Kept(o, r);
      if o == op then n else if n == 0 then 1 else n
    case Sym(s) => if s == Neutral(op) then 0 else 1
    case _ => 1
  }

  /** How often AND and OR alternate below a chain of `op` nodes. */
  function Alternations(op: Op, e: Expr): nat
    decreases e
  {
    match e
    case Bin(o, l, r) =>
      var a, b := Alternations(o, l), Alternations(o, r);
      (if o == op then 0 else 1) + (if a > b then a else b)
    case _ => 0
  }

  function SpineSize(op: Op, e: Expr): nat {
    if IsBin(e, op) then 1 + SpineSize(op, e.l) + SpineSize(op, e.r) else 0
  }

  /** The chains of `op` nodes at the top of both trees have the same shape. */
  predicate SameSpine(op: Op, e: Expr, f: Expr) {
    && IsBin(e, op) == IsBin(f, op)
    && (IsBin(e, op) ==> SameSpine(op, e.l, f.l) && SameSpine(op, e.r, f.r))
  }

  lemma {:induction false} SameSpineRefl(op: Op, e: Expr)
    ensures SameSpine(op, e, e)
  {
    if IsBin(e, op) {
      SameSpineRefl(op, e.l);
      SameSpineRefl(op, e.r);
    }
  }

  lemma {:induction false} SameSpineTrans(op: Op, e: Expr, f: Expr, g: Expr)
    requires SameSpine(op, e, f) && SameSpine(op, f, g)
    ensures SameSpine(op, e, g)
  {
    if IsBin(e, op) {
      SameSpineTrans(op, e.l, f.l, g.l);
      SameSpineTrans(op, e.r, f.r, g.r);
    }
  }

  lemma {:induction false} SameSpinePaths(op: Op, e: Expr, f: Expr, q: Path)
    requires SameSpine(op, e, f)
    ensures OnSpine(op, e, q) <==> OnSpine(op, f, q)
    ensures OnSpine(op, e, q) ==> SameSpine(op, Get(e, q), Get(f, q))
  {
    if q != [] && IsBin(e, op) {
      SameSpinePaths(op, Child(e, q[0]), Child(f, q[0]), q[1..]);
    }
  }

  lemma {:induction false} SameSpineSize(op: Op, e: Expr, f: Expr)
    requires SameSpine(op, e, f)
    ensures SpineSize(op, e) == SpineSize(op, f)
  {
    if IsBin(e, op) {
      SameSpineSize(op, e.l, f.l);
      SameSpineSize(op, e.r, f.r);
    }
  }

  lemma {:induction false} KeptAtMostLeaves(op: Op, e: Expr)
    ensures Kept(op, e) <= Leaves(e)
    decreases e
  {
    if e.Bin? {
      KeptAtMostLeaves(e.op, e.l);
      KeptAtMostLeaves(e.op, e.r);
    }
  }

  /** Folding constants leaves no more than what `Kept` counts. */
  lemma {:induction false} FoldedLeaves(op: Op, e: Expr)
    ensures Leaves(EliminateYN(e)) <= Kept(op, e) || (Leaves(EliminateYN(e)) == 1 && Kept(op, e) == 0)
    ensures Kept(op, e) == 0 ==> EliminateYN(e) == Sym(Neutral(op))
    decreases e
  {
    if e.Bin? {
      FoldedLeaves(e.op, e.l);
      FoldedLeaves(e.op, e.r);
    }
  }

  /** Replacing an operand changes the counts by the difference and keeps the shape. */
  lemma {:induction false} PutOperand(op: Op, e: Expr, q: Path, x: Expr)
    requires IsOperand(op, e, q) && !IsBin(x, op)
    ensures Kept(op, Put(e, q, x)) + Kept(op, Get(e, q)) == Kept(op, e) + Kept(op, x)
    ensures Leaves(Put(e, q, x)) + Leaves(Get(e, q)) == Leaves(e) + Leaves(x)
    ensures Alternations(op, Get(e, q)) <= Alternations(op, e)
    ensures Alternations(op, Put(e, q, x)) <= Alternations(op, e) || Alternations(op, Put(e, q, x)) <= Alternations(op, x)
    ensures SameSpine(op, e, Put(e, q, x))
  {
    if q != [] {
      PutOperand(op, Child(e, q[0]), q[1..], x);
      SameSpineRefl(op, e.l);
      SameSpineRefl(op, e.r);
    }
  }

  lemma {:induction false} OperandCounts(op: Op, e: Expr, q: Path)
    requires IsOperand(op, e, q)
    ensures Leaves(e) - Kept(op, e) >= Leaves(Get(e, q)) - Kept(op, Get(e, q))
  {
    if q != [] {
      OperandCounts(op, Child(e, q[0]), q[1..]);
      KeptAtMostLeaves(op, e.l);
      KeptAtMostLeaves(op, e.r);
    }
  }

  lemma {:induction false} PutNormal(e: Expr, q: Path, x: Expr)
    requires Valid(e, q) && Normal(e)
    ensures Normal(Get(e, q))
    ensures Normal(x) ==> Normal(Put(e, q, x))
  {
    if q != [] {
      PutNormal(Child(e, q[0]), q[1..], x);
    }
  }

  /** The joint value of all operands but the one at `q`. */
  function Rest(op: Op, e: Expr, q: Path, env: Env): Tri
    requires OnSpine(op, e, q)
  {
    if q == [] then env(Neutral(op)).tri
    else if q[0].Left? then Apply(op, Rest(op, e.l, q[1..], env), Value(e.r, env))
    else Apply(op, Value(e.l, env), Rest(op, e.r, q[1..], env))
  }

  lemma {:induction false} ApplyAssociates(op: Op, a: Tri, b: Tri, c: Tri)
    ensures Apply(op, Apply(op, a, b), c) == Apply(op, a, Apply(op, b, c))
  {
  }

  lemma {:induction false} Exchange(op: Op, a: Tri, b: Tri, c: Tri)
    ensures Apply(op, a, Apply(op, b, c)) == Apply(op, b, Apply(op, a, c))
  {
  }

  lemma {:induction false} PutValue(op: Op, e: Expr, q: Path, x: Expr, env: Env)
    requires ConstantsFixed(env) && OnSpine(op, e, q)
    ensures Value(Put(e, q, x), env) == Apply(op, Value(x, env), Rest(op, e, q, env))
    ensures Value(e, env) == Apply(op, Value(Get(e, q), env), Rest(op, e, q, env))
  {
    if q != [] {
      var child := Child(e, q[0]);
      PutValue(op, child, q[1..], x, env);
      var v, w, rest := Value(Get(child, q[1..]), env), Value(x, env), Rest(op, child, q[1..], env);
      if q[0].Left? {
        ApplyAssociates(op, w, rest, Value(e.r, env));
        ApplyAssociates(op, v, rest, Value(e.r, env));
      } else {
        Exchange(op, Value(e.l, env), w, rest);
        Exchange(op, Value(e.l, env), v, rest);
      }
    }
  }

  /** Equal values in a context give equal values, and more decided ones more decided ones. */
  lemma {:induction false} PutContext(e: Expr, p: Path, x: Expr, env: Env)
    requires Valid(e, p)
    ensures Value(Get(e, p), env) == Value(x, env) ==> Value(Put(e, p, x), env) == Value(e, env)
    ensures Decides(Value(Get(e, p), env), Value(x, env)) ==> Decides(Value(e, env), Value(Put(e, p, x), env))
  {
    if p != [] {
      PutContext(Child(e, p[0]), p[1..], x, env);
    }
  }
}
