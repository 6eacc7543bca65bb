/** What the value of a symbol is, property by property. */
module SymbolMeaning {
  import opened Wrappers
  import opened Tristate
  import opened KconfigExpr
  import opened ExprCompare
  import opened DependencyGraph
  import opened SymbolSpec

  predicate IsActive(p: Property, kind: PropertyKind, env: Env) {
    p.kind == kind && ConditionValue(p.visible, env) != NO
  }

  /** Property `i` is the first of its kind whose condition is not `n`. */
  predicate FirstAt(ps: seq<Property>, kind: PropertyKind, env: Env, i: nat) {
    i < |ps| && IsActive(ps[i], kind, env) && forall j | 0 <= j < i :: !IsActive(ps[j], kind, env)
  }

  predicate NoneActive(ps: seq<Property>, kind: PropertyKind, env: Env) {
    forall j | 0 <= j < |ps| :: !IsActive(ps[j], kind, env)
  }

  lemma {:induction false} FirstActiveAt(ps: seq<Property>, kind: PropertyKind, env: Env, i: nat)
    requires FirstAt(ps, kind, env, i)
    ensures FirstActive(ps, kind, env) == Some(ps[i])
  {
    if i > 0 {
      assert !IsActive(ps[0], kind, env);
      assert forall j | 0 <= j < |ps| - 1 :: ps[1..][j] == ps[j + 1];
      FirstActiveAt(ps[1..], kind, env, i - 1);
    }
  }

  lemma {:induction false} NoFirstActive(ps: seq<Property>, kind: PropertyKind, env: Env)
    requires NoneActive(ps, kind, env)
    ensures FirstActive(ps, kind, env) == None
  {
    if ps != [] {
      assert !IsActive(ps[0], kind, env);
      assert forall j | 0 <= j < |ps| - 1 :: ps[1..][j] == ps[j + 1];
      NoFirstActive(ps[1..], kind, env);
    }
  }

  // Visibility

  /** The prompt at `i` shows the symbol as far as `t`. */
  predicate Shows(ps: seq<Property>, env: Env, i: nat, t: Tri) {
    i < |ps| && (ps[i].kind == Prompt || ps[i].kind == Comment || ps[i].kind == MenuPrompt)
    && ConditionValue(ps[i].visible, env) == t
  }

  /** `t` is the highest any prompt reaches, and n without prompts. */
  ghost predicate IsHighest(ps: seq<Property>, env: Env, t: Tri) {
    && (forall i: nat, other: Tri | Shows(ps, env, i, other) :: other <= t)
    && (t != NO ==> exists i: nat :: Shows(ps, env, i, t))
  }

  lemma {:induction false} PromptsHighest(ps: seq<Property>, env: Env)
    ensures IsHighest(ps, env, PromptValue(Prompts(ps), env))
  {
    if ps != [] {
      var n := |ps| - 1;
      var init, before := ps[..n], PromptValue(Prompts(ps[..n]), env);
      PromptsHighest(init, env);
      PromptValueSnoc(ps, env);
      var all := PromptValue(Prompts(ps), env);
      forall i: nat, other: Tri | Shows(ps, env, i, other) ensures other <= all {
        assert i < n ==> Shows(init, env, i, other);
      }
      if all != NO {
        if all == before {
          var i: nat :| Shows(init, env, i, all);
          assert Shows(ps, env, i, all);
        } else {
          assert Shows(ps, env, n, all);
        }
      }
    }
  }

  /** A symbol is as visible as its most visible prompt, where m counts as y unless tristate symbols may be m. */
  lemma {:induction false} VisibilityMeaning(c: Config, s: Symbol, env: Env, t: Tri)
    requires IsHighest(Info(c, s).props, env, t)
    ensures Visibility(c, s, env)
            == if t == MOD && (s.typ != TristateType || c.modulesVal == NO) then YES else t
  {
    var ps := Info(c, s).props;
    var all := PromptValue(Prompts(ps), env);
    PromptsHighest(ps, env);
    if t != NO {
      var i: nat :| Shows(ps, env, i, t);
    }
    if all != NO {
      var i: nat :| Shows(ps, env, i, all);
    }
  }

  // Bool and tristate symbols

  /** m counts as y for a bool symbol, and for a tristate one while modules are off. */
  function Decided(c: Config, s: Symbol, t: Tri): Tri {
    if t == MOD && (s.typ == Boolean || c.modulesVal == NO) then YES else t
  }

  /** The value of what selects the symbol, n if nothing does. */
  function Selected(c: Config, s: Symbol, env: Env): Tri {
    match Info(c, s).revDep
    case None => NO
    case Some(e) => Value(e, env)
  }

  /** A visible user value counts up to the visibility, together with the selects. */
  lemma {:induction false} UserMeaning(c: Config, rank: Symbol -> nat, s: Symbol)
    requires Ranked(c, rank) && IsLogical(s) && s in c.user && Visibility(c, s, Final(c, rank)) != NO
    ensures var env := Final(c, rank);
            env(s).tri == Decided(c, s, Max(Min(c.user[s].tri, Visibility(c, s, env)), Selected(c, s, env)))
  {
    PureSolves(c, rank, s);
  }

  /** Otherwise the first default with an active condition counts up to that condition, together with the selects. */
  lemma {:induction false} DefaultMeaning(c: Config, rank: Symbol -> nat, s: Symbol, i: nat)
    requires Ranked(c, rank) && IsLogical(s) && (s !in c.user || Visibility(c, s, Final(c, rank)) == NO)
    requires FirstAt(Info(c, s).props, Default, Final(c, rank), i)
    ensures var env, p := Final(c, rank), Info(c, s).props[i];
            env(s).tri == Decided(c, s, Max(Min(ConditionValue(p.expr, env), ConditionValue(p.visible, env)), Selected(c, s, env)))
  {
    FirstActiveAt(Info(c, s).props, Default, Final(c, rank), i);
    PureSolves(c, rank, s);
  }

  /** Without such a default the selects alone count. */
  lemma {:induction false} SelectMeaning(c: Config, rank: Symbol -> nat, s: Symbol)
    requires Ranked(c, rank) && IsLogical(s) && (s !in c.user || Visibility(c, s, Final(c, rank)) == NO)
    requires NoneActive(Info(c, s).props, Default, Final(c, rank))
    ensures Final(c, rank)(s).tri == Decided(c, s, Selected(c, s, Final(c, rank)))
  {
    NoFirstActive(Info(c, s).props, Default, Final(c, rank));
    PureSolves(c, rank, s);
  }

  // Symbols with a text

  /** The text before a range is applied. */
  ghost predicate TextIs(c: Config, s: Symbol, env: Env, text: string) {
    var ps := Info(c, s).props;
    if s in c.user && Visibility(c, s, env) != NO then text == c.user[s].str
    else
      && (NoneActive(ps, Default, env) ==> text == "")
      && forall i: nat {:trigger FirstAt(ps, Default, env, i)} | FirstAt(ps, Default, env, i) ::
           text == DefaultOf(ps[i].expr, env)
  }

  /** A default names a symbol; one that is bool or tristate reads as "n". */
  function DefaultOf(e: Option<Expr>, env: Env): string {
    match e
    case Some(Sym(t)) => if t.typ == Boolean || t.typ == TristateType then "n" else env(t).str
    case _ => ""
  }

  lemma {:induction false} TextBeforeRange(c: Config, s: Symbol, env: Env)
    ensures TextIs(c, s, env, TextValue(c, s, env))
  {
    var ps := Info(c, s).props;
    if NoneActive(ps, Default, env) {
      NoFirstActive(ps, Default, env);
    }
    forall i: nat | FirstAt(ps, Default, env, i) ensures FirstActive(ps, Default, env) == Some(ps[i]) {
      FirstActiveAt(ps, Default, env, i);
    }
  }

  lemma {:induction false} TextIsUnique(c: Config, s: Symbol, env: Env, text: string)
    requires TextIs(c, s, env, text)
    ensures text == TextValue(c, s, env)
  {
    var ps := Info(c, s).props;
    TextBeforeRange(c, s, env);
    if !NoneActive(ps, Default, env) {
      var i := FirstIndexActive(ps, Default, env);
    }
  }

  lemma {:induction false} FirstIndexActive(ps: seq<Property>, kind: PropertyKind, env: Env) returns (i: nat)
    requires !NoneActive(ps, kind, env)
    ensures FirstAt(ps, kind, env, i)
  {
    if IsActive(ps[0], kind, env) {
      i := 0;
    } else {
      assert forall j | 0 <= j < |ps| - 1 :: ps[1..][j] == ps[j + 1];
      var k: nat :| k < |ps| && IsActive(ps[k], kind, env);
      assert IsActive(ps[1..][k - 1], kind, env);
      i := FirstIndexActive(ps[1..], kind, env);
      i := i + 1;
      assert forall j | 1 <= j < i :: ps[j] == ps[1..][j - 1];
    }
  }

  /** A string symbol has the user value if it is visible, else the first active default. */
  lemma {:induction false} StringMeaning(c: Config, rank: Symbol -> nat, s: Symbol)
    requires Ranked(c, rank) && s.typ == Str
    ensures TextIs(c, s, Final(c, rank), Final(c, rank)(s).str)
  {
    PureSolves(c, rank, s);
    TextBeforeRange(c, s, Final(c, rank));
  }

  function Radix(s: Symbol, otherwise: int): int {
    if s.typ == Int then 10 else if s.typ == Hex then 16 else otherwise
  }

  /** A bound is read in its own base if it is a number, else in that of the symbol. */
  function BoundOf(c: Config, bound: Symbol, base: int, env: Env): int {
    c.toInt(DefaultOf(Some(Sym(bound)), env), Radix(bound, base))
  }

  /** The bound that a number passes, the lower one first, takes its place. */
  function Bounded(c: Config, s: Symbol, text: string, bounds: (Symbol, Symbol), env: Env): string {
    var base := Radix(s, 0);
    var n, low, high := c.toInt(text, base), BoundOf(c, bounds.0, base, env), BoundOf(c, bounds.1, base, env);
    if n < low then c.format(low, base) else if n > high then c.format(high, base) else text
  }

  lemma {:induction false} ClampedIsBounded(c: Config, s: Symbol, text: string, env: Env, i: nat)
    requires s.typ == Int || s.typ == Hex
    requires FirstAt(Info(c, s).props, Range, env, i) && Info(c, s).props[i].bounds.Some?
    ensures Clamped(c, s, text, env) == Bounded(c, s, text, Info(c, s).props[i].bounds.value, env)
  {
    FirstActiveAt(Info(c, s).props, Range, env, i);
  }

  /** A number is kept within the first active range. */
  lemma {:induction false} NumberMeaning(c: Config, rank: Symbol -> nat, s: Symbol, text: string, i: nat)
    requires Ranked(c, rank) && (s.typ == Int || s.typ == Hex) && TextIs(c, s, Final(c, rank), text)
    requires FirstAt(Info(c, s).props, Range, Final(c, rank), i) && Info(c, s).props[i].bounds.Some?
    ensures Final(c, rank)(s).str == Bounded(c, s, text, Info(c, s).props[i].bounds.value, Final(c, rank))
  {
    TextIsUnique(c, s, Final(c, rank), text);
    ClampedIsBounded(c, s, text, Final(c, rank), i);
    PureSolves(c, rank, s);
  }

  lemma {:induction false} UnboundedMeaning(c: Config, rank: Symbol -> nat, s: Symbol)
    requires Ranked(c, rank) && (s.typ == Int || s.typ == Hex) && NoneActive(Info(c, s).props, Range, Final(c, rank))
    ensures TextIs(c, s, Final(c, rank), Final(c, rank)(s).str)
  {
    NoFirstActive(Info(c, s).props, Range, Final(c, rank));
    PureSolves(c, rank, s);
    TextBeforeRange(c, s, Final(c, rank));
  }

  /** A symbol goes to the configuration file if it is visible, selected, or has an active default that names a value. */
  lemma {:induction false} WrittenMeaning(c: Config, s: Symbol, env: Env)
    ensures Written(c, s, env)
            <==> s !in c.auto
                 && (Visibility(c, s, env) != NO
                     || (IsLogical(s) && (Selected(c, s, env) != NO || !NoneActive(Info(c, s).props, Default, env)))
                     || (!IsLogical(s) && exists i: nat :: NamesDefault(Info(c, s).props, env, i)))
  {
    var ps := Info(c, s).props;
    if NoneActive(ps, Default, env) {
      NoFirstActive(ps, Default, env);
    } else {
      var i := FirstIndexActive(ps, Default, env);
      FirstActiveAt(ps, Default, env, i);
      assert PropertySymbol(ps[i]).Some? ==> NamesDefault(ps, env, i);
    }
    if i: nat :| NamesDefault(ps, env, i) {
      FirstActiveAt(ps, Default, env, i);
    }
  }

  predicate NamesDefault(ps: seq<Property>, env: Env, i: nat) {
    FirstAt(ps, Default, env, i) && ps[i].expr.Some? && ps[i].expr.value.Sym?
  }
}
