/** Positions inside an expression: what a `struct expr **` into a tree points at. */
module ExprPaths {
  import opened KconfigExpr

  datatype Side = Left | Right
  type Path = seq<Side>

  function Child(e: Expr, d: Side): Expr
    requires e.Bin?
  {
    if d.Left? then e.l else e.r
  }

  /** The path leads through AND and OR nodes only. */
  predicate Valid(e: Expr, p: Path) {
    p == [] || (e.Bin? && Valid(Child(e, p[0]), p[1..]))
  }

  function Get(e: Expr, p: Path): Expr
    requires Valid(e, p)
  {
    if p == [] then e else Get(Child(e, p[0]), p[1..])
  }

  function Put(e: Expr, p: Path, x: Expr): Expr
    requires Valid(e, p)
  {
    if p == [] then x
    else if p[0].Left? then Bin(e.op, Put(e.l, p[1..], x), e.r)
    else Bin(e.op, e.l, Put(e.r, p[1..], x))
  }

  /** The path leads through nodes of type `op` only. */
  predicate OnSpine(op: Op, e: Expr, p: Path)
    ensures OnSpine(op, e, p) ==> Valid(e, p)
  {
    p == [] || (IsBin(e, op) && OnSpine(op, Child(e, p[0]), p[1..]))
  }

  /** The path leads to an operand of the chain of `op` nodes at the top of `e`. */
  predicate IsOperand(op: Op, e: Expr, p: Path) {
    OnSpine(op, e, p) && !IsBin(Get(e, p), op)
  }

  /** From `s`, the path `p` goes on through nodes of type `op` only. */
  predicate Under(op: Op, e: Expr, s: Path, p: Path) {
    Valid(e, s) && Valid(e, p) && s <= p && OnSpine(op, Get(e, s), p[|s|..])
  }

  predicate OperandUnder(op: Op, e: Expr, s: Path, p: Path) {
    Under(op, e, s, p) && !IsBin(Get(e, p), op)
  }

  lemma {:induction false} GetConcat(e: Expr, p: Path, q: Path)
    ensures Valid(e, p + q) <==> Valid(e, p) && Valid(Get(e, p), q)
    ensures Valid(e, p + q) ==> Get(e, p + q) == Get(Get(e, p), q)
  {
    if p == [] {
      assert p + q == q;
    } else {
      assert (p + q)[1..] == p[1..] + q;
      if e.Bin? {
        GetConcat(Child(e, p[0]), p[1..], q);
      }
    }
  }

  lemma {:induction false} PutConcat(e: Expr, p: Path, q: Path, x: Expr)
    requires Valid(e, p) && Valid(Get(e, p), q)
    ensures Valid(e, p + q)
    ensures Put(e, p + q, x) == Put(e, p, Put(Get(e, p), q, x))
  {
    GetConcat(e, p, q);
    if p == [] {
      assert p + q == q;
    } else {
      assert (p + q)[1..] == p[1..] + q;
      PutConcat(Child(e, p[0]), p[1..], q, x);
    }
  }

  lemma {:induction false} GetPut(e: Expr, p: Path, x: Expr)
    requires Valid(e, p)
    ensures Valid(Put(e, p, x), p) && Get(Put(e, p, x), p) == x
    ensures Put(e, p, Get(e, p)) == e
  {
    if p != [] {
      GetPut(Child(e, p[0]), p[1..], x);
    }
  }

  lemma {:induction false} PutPut(e: Expr, p: Path, x: Expr, y: Expr)
    requires Valid(e, p)
    ensures Valid(Put(e, p, x), p)
    ensures Put(Put(e, p, x), p, y) == Put(e, p, y)
  {
    if p != [] {
      PutPut(Child(e, p[0]), p[1..], x, y);
    }
  }

  /** Writing one operand leaves every other operand in place. */
  lemma {:induction false} PutElsewhere(e: Expr, p: Path, q: Path, x: Expr)
    requires Valid(e, p) && Valid(e, q)
    requires !(p <= q) && !(q <= p)
    ensures Valid(Put(e, p, x), q) && Get(Put(e, p, x), q) == Get(e, q)
  {
    if p[0] == q[0] {
      assert p[1..] <= q[1..] ==> p <= q;
      assert q[1..] <= p[1..] ==> q <= p;
      PutElsewhere(Child(e, p[0]), p[1..], q[1..], x);
    }
  }

  lemma {:induction false} OperandsAreDisjoint(op: Op, e: Expr, p: Path, q: Path)
    requires IsOperand(op, e, p) && OnSpine(op, e, q) && p != q
    ensures !(p <= q)
  {
    if p != [] && q != [] && p[0] == q[0] {
      assert p == [p[0]] + p[1..] && q == [q[0]] + q[1..];
      OperandsAreDisjoint(op, Child(e, p[0]), p[1..], q[1..]);
    }
  }

  lemma {:induction false} SpineConcat(op: Op, e: Expr, p: Path, q: Path)
    ensures OnSpine(op, e, p + q) <==> OnSpine(op, e, p) && OnSpine(op, Get(e, p), q)
  {
    if p == [] {
      assert p + q == q;
    } else {
      assert (p + q)[1..] == p[1..] + q;
      if e.Bin? {
        SpineConcat(op, Child(e, p[0]), p[1..], q);
      }
    }
  }

  lemma {:induction false} UnderIsPath(op: Op, e: Expr, s: Path, p: Path)
    requires Valid(e, s) && s <= p && OnSpine(op, Get(e, s), p[|s|..])
    ensures Under(op, e, s, p) && Get(e, p) == Get(Get(e, s), p[|s|..])
  {
    assert p == s + p[|s|..];
    GetConcat(e, s, p[|s|..]);
  }

  /** The children of an `op` node on the spine are on the spine. */
  lemma {:induction false} SpineStep(op: Op, e: Expr, s: Path, p: Path, d: Side)
    requires Under(op, e, s, p) && IsBin(Get(e, p), op)
    ensures Under(op, e, s, p + [d])
    ensures Get(e, p + [d]) == Child(Get(e, p), d)
  {
    UnderIsPath(op, e, s, p);
    SpineConcat(op, Get(e, s), p[|s|..], [d]);
    assert (p + [d])[|s|..] == p[|s|..] + [d];
    UnderIsPath(op, e, s, p + [d]);
    GetConcat(e, p, [d]);
  }

  /** A longer path on the spine below an `op` node goes through one of its children. */
  lemma {:induction false} UnderChild(op: Op, e: Expr, p: Path, a: Path)
    requires Under(op, e, p, a) && a != p
    ensures IsBin(Get(e, p), op) && |a| > |p| && Under(op, e, p + [a[|p|]], a)
  {
    UnderIsPath(op, e, p, a);
    var q := a[|p|..];
    assert q == [q[0]] + q[1..];
    SpineStep(op, e, p, p, q[0]);
    assert a[|p + [q[0]]|..] == q[1..];
    assert p + [q[0]] <= a;
  }
}
