/** The three-valued logic of Kconfig: n < m < y with minimum, maximum and complement. */
module Tristate {

  type Tri = v: int | 0 <= v <= 2

  const NO: Tri := 0
  const MOD: Tri := 1
  const YES: Tri := 2

  function Min(a: Tri, b: Tri): Tri {
    if a < b then a else b
  }

  function Max(a: Tri, b: Tri): Tri {
    if a > b then a else b
  }

  function Complement(a: Tri): Tri {
    2 - a
  }

  /** `b` says at least as much as `a`: a definite value stays, `m` may be decided. */
  predicate Decides(a: Tri, b: Tri) {
    a == MOD || a == b
  }

  function TriString(t: Tri): string {
    if t == NO then "n" else if t == MOD then "m" else "y"
  }

  lemma {:induction false} TriStringInjective(a: Tri, b: Tri)
    ensures TriString(a) == TriString(b) <==> a == b
  {
    assert TriString(a)[0] == TriString(b)[0] <==> a == b;
  }
}
