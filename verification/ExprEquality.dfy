/** What `expr_eq`, `expr_eliminate_eq` and `expr_extract_eq` find: equality up to order and grouping of operands. */
module ExprEquality {
  import opened Wrappers
  import opened KconfigExpr
  import opened ExprEliminate
  import opened ExprExtract

  /** An expression in which the operands of a chain of one operator have no order and no grouping. */
  datatype Form = Leaf(e: Expr) | Negation(x: Form) | Chain(op: Op, operands: multiset<Form>)

  function FormOf(e: Expr): Form
    decreases e, 0
  {
    match e
    case Sym(_) => Leaf(e)
    case Cmp(_, _, _) => Leaf(e)
    case Not(x) => Negation(FormOf(x))
    case Bin(op, l, r) => Chain(op, Operands(op, l) + Operands(op, r))
  }

  /** The operands of the chain of `op` nodes at the top of `e`; `e` itself if there is none. */
  function Operands(op: Op, e: Expr): multiset<Form>
    decreases e, 1
  {
    if IsBin(e, op) then Operands(op, e.l) + Operands(op, e.r) else multiset{FormOf(e)}
  }

  /** Neither y nor n is an operand anywhere, as after constant folding. */
  predicate Folded(e: Expr) {
    match e
    case Sym(s) => s != SYMBOL_YES && s != SYMBOL_NO
    case Not(x) => Folded(x)
    case Bin(_, l, r) => Folded(l) && Folded(r)
    case Cmp(_, _, _) => true
  }

  /** The same for a chain some operands of which have given way to the neutral constant. */
  predicate Holed(op: Op, e: Expr) {
    if IsBin(e, op) then Holed(op, e.l) && Holed(op, e.r) else e == Sym(Neutral(op)) || Folded(e)
  }

  /** The operands that are left. */
  function Remaining(op: Op, e: Expr): multiset<Form> {
    if IsBin(e, op) then Remaining(op, e.l) + Remaining(op, e.r)
    else if e == Sym(Neutral(op)) then multiset{}
    else multiset{FormOf(e)}
  }

  lemma {:induction false} FoldedIsHoled(op: Op, e: Expr)
    requires Folded(e)
    ensures Holed(op, e) && Remaining(op, e) == Operands(op, e) && Operands(op, e) != multiset{}
  {
    if IsBin(e, op) {
      FoldedIsHoled(op, e.l);
      FoldedIsHoled(op, e.r);
    }
  }

  /** Folding leaves alone what it has folded. */
  lemma {:induction false} FoldedStays(e: Expr)
    requires Folded(e)
    ensures EliminateYN(e) == e
  {
    if e.Bin? {
      FoldedStays(e.l);
      FoldedStays(e.r);
      assert Folded(e.l) && Folded(e.r);
    }
  }

  /** What stands below a NOT is folded already, as in negation normal form. */
  predicate FoldedBelowNot(e: Expr) {
    match e
    case Not(x) => Folded(x)
    case Bin(_, l, r) => FoldedBelowNot(l) && FoldedBelowNot(r)
    case _ => true
  }

  /** Folding leaves a constant or an expression without y and n. */
  lemma {:induction false} FoldingFolds(e: Expr)
    requires FoldedBelowNot(e)
    ensures EliminateYN(e) == Sym(SYMBOL_YES) || EliminateYN(e) == Sym(SYMBOL_NO) || Folded(EliminateYN(e))
  {
    if e.Bin? {
      FoldingFolds(e.l);
      FoldingFolds(e.r);
    }
  }

  /** What folding makes of a chain with these operands left: the neutral constant if there are none. */
  predicate IsFoldOf(op: Op, e: Expr, remaining: multiset<Form>) {
    if remaining == multiset{} then e == Sym(Neutral(op)) else Folded(e) && Operands(op, e) == remaining
  }

  lemma {:induction false} FoldHoled(op: Op, e: Expr)
    requires Holed(op, e)
    ensures IsFoldOf(op, EliminateYN(e), Remaining(op, e))
  {
    if IsBin(e, op) {
      FoldHoled(op, e.l);
      FoldHoled(op, e.r);
      FoldBoth(op, EliminateYN(e.l), EliminateYN(e.r), Remaining(op, e.l), Remaining(op, e.r));
    } else if e != Sym(Neutral(op)) {
      FoldedStays(e);
    }
  }

  lemma {:induction false} FoldBoth(op: Op, l: Expr, r: Expr, a: multiset<Form>, b: multiset<Form>)
    requires IsFoldOf(op, l, a) && IsFoldOf(op, r, b)
    ensures IsFoldOf(op, FoldConstants(op, l, r), a + b)
  {
    if a == multiset{} {
      FoldNeutral(op, l, r);
      assert a + b == b;
    } else if b == multiset{} {
      FoldNeutral(op, r, l);
      assert a + b == a;
    } else {
      FoldNeither(op, l, r);
    }
  }

  lemma {:induction false} FoldNeutral(op: Op, l: Expr, r: Expr)
    requires l == Sym(Neutral(op)) && (r == l || Folded(r))
    ensures FoldConstants(op, l, r) == r && FoldConstants(op, r, l) == r
  {
  }

  lemma {:induction false} FoldNeither(op: Op, l: Expr, r: Expr)
    requires Folded(l) && Folded(r)
    ensures FoldConstants(op, l, r) == Bin(op, l, r) && Folded(Bin(op, l, r))
    ensures Operands(op, Bin(op, l, r)) == Operands(op, l) + Operands(op, r)
  {
  }

  /** A constant equals no folded expression. */
  lemma {:induction false} ConstantDiffers(op: Op, e: Expr)
    requires Folded(e)
    ensures !ExprEq(Sym(Neutral(op)), e) && !ExprEq(e, Sym(Neutral(op)))
  {
  }

  /** How many of the operands that are left have the form `f`. */
  function Count(op: Op, e: Expr, f: Form): nat {
    if IsBin(e, op) then Count(op, e.l, f) + Count(op, e.r, f)
    else if e != Sym(Neutral(op)) && FormOf(e) == f then 1
    else 0
  }

  lemma {:induction false} CountIsMultiplicity(op: Op, e: Expr, f: Form)
    ensures Count(op, e, f) == Remaining(op, e)[f]
  {
    if IsBin(e, op) {
      CountIsMultiplicity(op, e.l, f);
      CountIsMultiplicity(op, e.r, f);
    }
  }

  function Minus(a: nat, b: nat): nat {
    if a > b then a - b else 0
  }

  /** `r` is what is left of `e` without what `other` has as well. */
  ghost predicate Less(op: Op, e: Expr, other: Expr, r: Expr) {
    Holed(op, r) && forall f {:trigger Count(op, r, f)} :: Count(op, r, f) == Minus(Count(op, e, f), Count(op, other, f))
  }

  lemma {:induction false} LessIsDifference(op: Op, e: Expr, other: Expr, r: Expr)
    requires Less(op, e, other, r)
    ensures Remaining(op, r) == Remaining(op, e) - Remaining(op, other)
  {
    forall f ensures Remaining(op, r)[f] == (Remaining(op, e) - Remaining(op, other))[f] {
      CountIsMultiplicity(op, r, f);
      CountIsMultiplicity(op, e, f);
      CountIsMultiplicity(op, other, f);
    }
  }

  /** Either side has lost what it shared with the other. */
  ghost predicate Subtracted(op: Op, e1: Expr, e2: Expr, r1: Expr, r2: Expr) {
    Less(op, e1, e2, r1) && Less(op, e2, e1, r2)
  }

  lemma {:induction false} SubtractBoth(op: Op, l: Expr, r: Expr, e: Expr, l': Expr, rest: Expr, r': Expr, rest': Expr)
    requires Subtracted(op, l, e, l', rest) && Subtracted(op, r, rest, r', rest')
    ensures Subtracted(op, Bin(op, l, r), e, Bin(op, l', r'), rest')
  {
  }

  lemma {:induction false} SubtractFromBoth(op: Op, e: Expr, l: Expr, r: Expr, rest: Expr, l': Expr, rest': Expr, r': Expr)
    requires Subtracted(op, e, l, rest, l') && Subtracted(op, rest, r, rest', r')
    ensures Subtracted(op, e, Bin(op, l, r), rest', Bin(op, l', r'))
  {
    SubtractBoth(op, l, r, e, l', rest, r', rest');
  }

  /** Striking out shared operands leaves on either side what the other has not. */
  lemma {:induction false} SharedIsCommon(op: Op, e1: Expr, e2: Expr)
    requires Holed(op, e1) && Holed(op, e2)
    ensures Subtracted(op, e1, e2, EliminateShared(op, e1, e2).0, EliminateShared(op, e1, e2).1)
    decreases Size(e1) + Size(e2), if IsBin(e1, op) || IsBin(e2, op) then 1 else 6
  {
    if IsBin(e1, op) {
      ChainShared(op, e1, e2);
    } else if IsBin(e2, op) {
      SharedWithChain(op, e1, e2);
    } else {
      SharedOperands(op, e1, e2);
      OperandsSubtracted(op, e1, e2);
    }
  }

  lemma {:induction false} ChainShared(op: Op, e1: Expr, e2: Expr)
    requires Holed(op, e1) && Holed(op, e2) && IsBin(e1, op)
    ensures Subtracted(op, e1, e2, EliminateShared(op, e1, e2).0, EliminateShared(op, e1, e2).1)
    decreases Size(e1) + Size(e2), 0
  {
    var x := EliminateShared(op, e1.l, e2);
    var y := EliminateShared(op, e1.r, x.1);
    SharedIsCommon(op, e1.l, e2);
    SharedIsCommon(op, e1.r, x.1);
    SubtractBoth(op, e1.l, e1.r, e2, x.0, x.1, y.0, y.1);
    assert EliminateShared(op, e1, e2) == (Bin(op, x.0, y.0), y.1);
  }

  lemma {:induction false} SharedWithChain(op: Op, e1: Expr, e2: Expr)
    requires Holed(op, e1) && Holed(op, e2) && !IsBin(e1, op) && IsBin(e2, op)
    ensures Subtracted(op, e1, e2, EliminateShared(op, e1, e2).0, EliminateShared(op, e1, e2).1)
    decreases Size(e1) + Size(e2), 0
  {
    var x := EliminateShared(op, e1, e2.l);
    var y := EliminateShared(op, x.0, e2.r);
    SharedIsCommon(op, e1, e2.l);
    SharedIsCommon(op, x.0, e2.r);
    SubtractFromBoth(op, e1, e2.l, e2.r, x.0, x.1, y.0, y.1);
    assert EliminateShared(op, e1, e2) == (y.0, Bin(op, x.1, y.1));
  }

  predicate SameOperand(e1: Expr, e2: Expr) {
    Folded(e1) && Folded(e2) && FormOf(e1) == FormOf(e2)
  }

  lemma {:induction false} SharedOperands(op: Op, e1: Expr, e2: Expr)
    requires Holed(op, e1) && Holed(op, e2) && !IsBin(e1, op) && !IsBin(e2, op)
    ensures EliminateShared(op, e1, e2)
            == if SameOperand(e1, e2) then (Sym(Neutral(op)), Sym(Neutral(op))) else (e1, e2)
    decreases Size(e1) + Size(e2), 5
  {
    if Folded(e1) && Folded(e2) {
      ExprEqIff(e1, e2);
    } else if Folded(e1) {
      ConstantDiffers(op, e1);
    } else if Folded(e2) {
      ConstantDiffers(op, e2);
    }
  }

  lemma {:induction false} OperandsSubtracted(op: Op, e1: Expr, e2: Expr)
    requires Holed(op, e1) && Holed(op, e2) && !IsBin(e1, op) && !IsBin(e2, op)
    ensures SameOperand(e1, e2) ==> Subtracted(op, e1, e2, Sym(Neutral(op)), Sym(Neutral(op)))
    ensures !SameOperand(e1, e2) ==> Subtracted(op, e1, e2, e1, e2)
  {
    forall f
      ensures SameOperand(e1, e2) ==> Count(op, e1, f) == Count(op, e2, f)
      ensures !SameOperand(e1, e2) ==> Count(op, e1, f) == 0 || Count(op, e2, f) == 0
    {
    }
  }

  /** `expr_eq` answers 1 exactly for expressions that differ only in the order and the grouping of operands. */
  lemma {:induction false} ExprEqIff(e1: Expr, e2: Expr)
    requires Folded(e1) && Folded(e2)
    ensures ExprEq(e1, e2) <==> FormOf(e1) == FormOf(e2)
    decreases Size(e1) + Size(e2), 4
  {
    if e1.Not? && e2.Not? {
      ExprEqIff(e1.e, e2.e);
    } else if e1.Bin? && e2.Bin? && e1.op == e2.op {
      ChainEqIff(e1.op, e1, e2);
    }
  }

  lemma {:induction false} ChainEqIff(op: Op, e1: Expr, e2: Expr)
    requires Folded(e1) && Folded(e2) && IsBin(e1, op) && IsBin(e2, op)
    ensures ExprEq(e1, e2) <==> Operands(op, e1) == Operands(op, e2)
    decreases Size(e1) + Size(e2), 3
  {
    FoldedIsHoled(op, e1);
    FoldedIsHoled(op, e2);
    SharedIsCommon(op, e1, e2);
    var (a1, a2) := EliminateShared(op, e1, e2);
    LessIsDifference(op, e1, e2, a1);
    LessIsDifference(op, e2, e1, a2);
    FoldHoled(op, a1);
    FoldHoled(op, a2);
    assert EliminateEq(e1, e2) == (EliminateYN(a1), EliminateYN(a2));
    ResiduesMeet(op, e1, e2, EliminateYN(a1), EliminateYN(a2));
  }

  /** The residues are the same symbol only if they are the neutral constant. */
  lemma {:induction false} ResiduesMeet(op: Op, e1: Expr, e2: Expr, r1: Expr, r2: Expr)
    requires IsFoldOf(op, r1, Operands(op, e1) - Operands(op, e2))
    requires IsFoldOf(op, r2, Operands(op, e2) - Operands(op, e1))
    ensures r1.Sym? && r1 == r2 <==> Operands(op, e1) == Operands(op, e2)
  {
    var a, b := Operands(op, e1), Operands(op, e2);
    DifferencesMeet(a, b, FormOf(r1));
    assert a == b <==> a - b == multiset{} && b - a == multiset{};
  }

  lemma {:induction false} DifferencesMeet<T>(a: multiset<T>, b: multiset<T>, x: T)
    ensures !(a - b == multiset{x} == b - a)
    ensures (a - b == multiset{} && b - a == multiset{}) ==> a == b
  {
    assert x !in a - b || x !in b - a;
    if a - b == multiset{} && b - a == multiset{} {
      assert forall y :: a[y] <= b[y] && b[y] <= a[y];
    }
  }

  /** A single operand stays or is struck out. */
  lemma {:induction false} OperandOrHole(op: Op, e1: Expr, e2: Expr)
    requires !IsBin(e2, op)
    ensures EliminateShared(op, e1, e2).1 == e2 || EliminateShared(op, e1, e2).1 == Sym(Neutral(op))
  {
    if IsBin(e1, op) {
      OperandOrHole(op, e1.l, e2);
      OperandOrHole(op, e1.r, EliminateShared(op, e1.l, e2).1);
    }
  }

  /**
   * The test `menu_finalize` makes on two conditions, one of them a conjunction and neither a disjunction: the second
   * residue of `expr_eliminate_eq` is y exactly if the first condition has every operand of the second.
   */
  lemma {:induction false} ResidueYesIff(e1: Expr, e2: Expr)
    requires Folded(e1) && Folded(e2) && (IsBin(e1, AndOp) || IsBin(e2, AndOp))
    requires !IsBin(e1, OrOp) && !IsBin(e2, OrOp)
    ensures EliminateEq(e1, e2).1 == Sym(SYMBOL_YES) <==> Operands(AndOp, e2) <= Operands(AndOp, e1)
  {
    var a := EliminateShared(AndOp, e1, e2);
    if !IsBin(e2, AndOp) {
      OperandOrHole(AndOp, e1, e2);
    }
    assert EliminateEqPhases(e1, e2) == a;
    FoldedIsHoled(AndOp, e1);
    FoldedIsHoled(AndOp, e2);
    SharedIsCommon(AndOp, e1, e2);
    LessIsDifference(AndOp, e2, e1, a.1);
    FoldHoled(AndOp, a.1);
    NothingRemains(Operands(AndOp, e2), Operands(AndOp, e1));
  }

  lemma {:induction false} NothingRemains<T>(a: multiset<T>, b: multiset<T>)
    ensures a - b == multiset{} <==> a <= b
  {
    if a - b == multiset{} {
      forall x ensures a[x] <= b[x] {
        assert (a - b)[x] == 0;
      }
    }
  }

  // `expr_extract_eq`

  lemma {:induction false} ExtractOperands(op: Op, common: Option<Expr>, e1: Expr, e2: Expr)
    requires Holed(op, e1) && Holed(op, e2) && !IsBin(e1, op) && !IsBin(e2, op)
    ensures var x := ExtractEq(op, common, e1, e2); Subtracted(op, e1, e2, x.first, x.second)
  {
    OperandsSubtracted(op, e1, e2);
    if Folded(e1) && Folded(e2) {
      ExprEqIff(e1, e2);
    } else if Folded(e1) {
      ConstantDiffers(op, e1);
    } else if Folded(e2) {
      ConstantDiffers(op, e2);
    }
  }

  /** Extraction takes from either side exactly what the other has as well. */
  lemma {:induction false} ExtractIsCommon(op: Op, common: Option<Expr>, e1: Expr, e2: Expr)
    requires Holed(op, e1) && Holed(op, e2)
    ensures var x := ExtractEq(op, common, e1, e2); Subtracted(op, e1, e2, x.first, x.second)
    decreases Size(e1) + Size(e2)
  {
    if IsBin(e1, op) {
      var x := ExtractEq(op, common, e1.l, e2);
      var y := ExtractEq(op, x.common, e1.r, x.second);
      ExtractIsCommon(op, common, e1.l, e2);
      ExtractIsCommon(op, x.common, e1.r, x.second);
      SubtractBoth(op, e1.l, e1.r, e2, x.first, x.second, y.first, y.second);
    } else if IsBin(e2, op) {
      var x := ExtractEq(op, common, e1, e2.l);
      var y := ExtractEq(op, x.common, x.first, e2.r);
      ExtractIsCommon(op, common, e1, e2.l);
      ExtractIsCommon(op, x.common, x.first, e2.r);
      SubtractFromBoth(op, e1, e2.l, e2.r, x.first, x.second, y.first, y.second);
    } else {
      ExtractOperands(op, common, e1, e2);
    }
  }

  /** Nothing is left of the first side exactly if the second has all its operands. */
  lemma {:induction false} ExtractAllIff(op: Op, e1: Expr, e2: Expr)
    requires Folded(e1) && Folded(e2)
    ensures ExtractCommon(op, e1, e2).first == Sym(Neutral(op)) <==> Operands(op, e1) <= Operands(op, e2)
  {
    var x := ExtractEq(op, None, e1, e2);
    FoldedIsHoled(op, e1);
    FoldedIsHoled(op, e2);
    ExtractIsCommon(op, None, e1, e2);
    LessIsDifference(op, e1, e2, x.first);
    FoldHoled(op, x.first);
    NothingRemains(Operands(op, e1), Operands(op, e2));
    if x.common.None? {
      NothingExtracted(op, None, e1, e2);
      FoldedStays(e1);
    }
  }

  lemma {:induction false} NothingExtracted(op: Op, common: Option<Expr>, e1: Expr, e2: Expr)
    requires ExtractEq(op, common, e1, e2).common.None?
    ensures common.None? && ExtractEq(op, common, e1, e2).first == e1 && ExtractEq(op, common, e1, e2).second == e2
    decreases Size(e1) + Size(e2)
  {
    if IsBin(e1, op) {
      var x := ExtractEq(op, common, e1.l, e2);
      NothingExtracted(op, x.common, e1.r, x.second);
      NothingExtracted(op, common, e1.l, e2);
    } else if IsBin(e2, op) {
      var x := ExtractEq(op, common, e1, e2.l);
      NothingExtracted(op, x.common, x.first, e2.r);
      NothingExtracted(op, common, e1, e2.l);
    }
  }
}
