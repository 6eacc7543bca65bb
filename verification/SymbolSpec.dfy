/** The value of every symbol from scratch: what `sym_calc_value` is meant to compute. */
module SymbolSpec {
  import opened Wrappers
  import opened Tristate
  import opened KconfigExpr
  import opened ExprTransform
  import opened ExprCompare
  import opened DependencyGraph

  /**
   * A configuration: the symbols, their names, the user values, and the value of the symbol that switches modules.
   * `toInt(text, base)` and `format(value, base)` stand for `strtoll` and `sprintf`.
   */
  datatype Config = Config(graph: Graph, name: Symbol -> string, user: map<Symbol, SymbolValue>, auto: set<Symbol>,
                           modulesSym: Symbol, modulesVal: Tri,
                           toInt: (string, int) -> int, format: (int, int) -> string)

  function Info(c: Config, s: Symbol): SymbolInfo {
    if s in c.graph then c.graph[s] else SymbolInfo(None, None, [])
  }

  predicate IsText(s: Symbol) {
    s.typ == Int || s.typ == Hex || s.typ == Str
  }

  predicate HasText(kind: PropertyKind) {
    kind == Prompt || kind == Comment || kind == MenuPrompt
  }

  /** `sym_get_type` outside choices. */
  function EffectiveType(typ: SymbolType, modulesVal: Tri): SymbolType {
    if typ == TristateType && modulesVal == NO then Boolean else typ
  }

  function Prompts(ps: seq<Property>): seq<Option<Expr>> {
    if ps == [] then []
    else
      var last := ps[|ps| - 1];
      Prompts(ps[..|ps| - 1]) + if HasText(last.kind) then [last.visible] else []
  }

  /** The first property of a kind whose condition is not `n`. */
  function FirstActive(ps: seq<Property>, kind: PropertyKind, env: Env): Option<Property> {
    if ps == [] then None
    else if ps[0].kind == kind && ConditionValue(ps[0].visible, env) != NO then Some(ps[0])
    else FirstActive(ps[1..], kind, env)
  }

  /** `prop_get_symbol`. */
  function PropertySymbol(p: Property): Option<Symbol> {
    if p.expr.Some? && p.expr.value.Sym? then Some(p.expr.value.s) else None
  }

  /** `curr.val`, which no evaluation of a logical symbol touches. */
  function RawText(s: Symbol, env: Env): string {
    if IsLogical(s) then "n" else env(s).str
  }

  function Visibility(c: Config, s: Symbol, env: Env): Tri {
    Promote(PromptValue(Prompts(Info(c, s).props), env), s.typ, c.modulesVal)
  }

  function DirectValue(c: Config, s: Symbol, env: Env): Tri {
    if ConditionValue(Info(c, s).dirDep, env) == NO then NO else YES
  }

  /** How far other symbols select this one. */
  function SelectValue(c: Config, s: Symbol, env: Env): Tri {
    var t := if Info(c, s).revDep.None? then NO else Value(Info(c, s).revDep.value, env);
    if t == MOD && EffectiveType(s.typ, c.modulesVal) == Boolean then YES else t
  }

  function DefaultTri(c: Config, s: Symbol, env: Env): Tri {
    match FirstActive(Info(c, s).props, Default, env)
    case None => NO
    case Some(p) => Min(ConditionValue(p.expr, env), ConditionValue(p.visible, env))
  }

  function LogicalValue(c: Config, s: Symbol, env: Env): Tri {
    var visible := Visibility(c, s, env);
    var own := if visible != NO && s in c.user then Min(c.user[s].tri, visible) else DefaultTri(c, s, env);
    var t := Max(own, SelectValue(c, s, env));
    if t == MOD && EffectiveType(s.typ, c.modulesVal) == Boolean then YES else t
  }

  function DefaultText(c: Config, s: Symbol, env: Env): string {
    match FirstActive(Info(c, s).props, Default, env)
    case None => ""
    case Some(p) => if PropertySymbol(p).None? then "" else RawText(PropertySymbol(p).value, env)
  }

  function TextValue(c: Config, s: Symbol, env: Env): string {
    if Visibility(c, s, env) != NO && s in c.user then c.user[s].str else DefaultText(c, s, env)
  }

  function Base(typ: SymbolType, otherwise: int): int {
    if typ == Int then 10 else if typ == Hex then 16 else otherwise
  }

  /** A bound of a range as a number; a symbol that is no number is read in the base of the symbol it bounds. */
  function Bound(c: Config, bound: Symbol, base: int, env: Env): int {
    c.toInt(RawText(bound, env), Base(bound.typ, base))
  }

  /** `sym_validate_range`. */
  function Clamped(c: Config, s: Symbol, text: string, env: Env): string {
    if s.typ == Str then text
    else
      match FirstActive(Info(c, s).props, Range, env)
      case None => text
      case Some(p) => if p.bounds.None? then text else ClampedTo(c, s, text, p.bounds.value, env)
  }

  function ClampedTo(c: Config, s: Symbol, text: string, bounds: (Symbol, Symbol), env: Env): string {
    var base := Base(s.typ, 0);
    var low := Bound(c, bounds.0, base, env);
    var high := Bound(c, bounds.1, base, env);
    if c.toInt(text, base) < low then c.format(low, base)
    else if c.toInt(text, base) > high then c.format(high, base)
    else text
  }

  /** `curr` of a symbol, given the values of the symbols below it. */
  function Compute(c: Config, s: Symbol, env: Env): SymbolValue {
    if IsTriConst(s) then AllOff(s)
    else if IsLogical(s) then SymbolValue(LogicalValue(c, s, env), "n")
    else if IsText(s) then SymbolValue(NO, Clamped(c, s, TextValue(c, s, env), env))
    else SymbolValue(NO, c.name(s))
  }

  predicate HasDefaultSymbol(c: Config, s: Symbol, env: Env) {
    var p := FirstActive(Info(c, s).props, Default, env);
    p.Some? && PropertySymbol(p.value).Some?
  }

  predicate MayWrite(c: Config, s: Symbol, env: Env) {
    || Visibility(c, s, env) != NO
    || (if IsLogical(s) then SelectValue(c, s, env) != NO || FirstActive(Info(c, s).props, Default, env).Some?
        else HasDefaultSymbol(c, s, env))
  }

  /** SYMBOL_WRITE: whether the symbol goes to the configuration file. */
  predicate Written(c: Config, s: Symbol, env: Env) {
    s !in c.auto && MayWrite(c, s, env)
  }

  /** What expressions see of a symbol: `curr.tri` and `sym_get_string_value`. */
  function Answer(s: Symbol, curr: SymbolValue): SymbolValue {
    if IsLogical(s) then SymbolValue(curr.tri, TriString(curr.tri)) else curr
  }

  ghost function Below(c: Config, rank: Symbol -> nat, s: Symbol): Env
    decreases rank(s), 0
  {
    t => if rank(t) < rank(s) then Answer(t, Pure(c, rank, t)) else SymbolValue(NO, "")
  }

  /** The value of a symbol by recursion on its rank. */
  ghost function Pure(c: Config, rank: Symbol -> nat, s: Symbol): SymbolValue
    decreases rank(s), 1
  {
    Compute(c, s, Below(c, rank, s))
  }

  ghost function Final(c: Config, rank: Symbol -> nat): Env {
    s => Answer(s, Pure(c, rank, s))
  }

  /**
   * Everything the value of an expression depends on has a rank below `limit`. Comparing a tristate symbol may consult
   * the symbol that switches modules.
   */
  predicate Under(c: Config, rank: Symbol -> nat, e: Expr, limit: nat) {
    match e
    case Sym(s) => rank(s) < limit
    case Not(x) => Under(c, rank, x, limit)
    case Bin(_, l, r) => Under(c, rank, l, limit) && Under(c, rank, r, limit)
    case Cmp(_, lhs, rhs) =>
      && rank(lhs) < limit && rank(rhs) < limit
      && (lhs.typ == TristateType || rhs.typ == TristateType ==> rank(c.modulesSym) < limit)
  }

  predicate ConditionUnder(c: Config, rank: Symbol -> nat, e: Option<Expr>, limit: nat) {
    e.None? || Under(c, rank, e.value, limit)
  }

  predicate PropertyUnder(c: Config, rank: Symbol -> nat, p: Property, limit: nat) {
    && (HasText(p.kind) || p.kind == Default || p.kind == Range ==> ConditionUnder(c, rank, p.visible, limit))
    && (p.kind == Default ==> ConditionUnder(c, rank, p.expr, limit))
    && (p.kind == Range && p.bounds.Some? ==> rank(p.bounds.value.0) < limit && rank(p.bounds.value.1) < limit)
  }

  predicate PropertiesUnder(c: Config, rank: Symbol -> nat, ps: seq<Property>, limit: nat) {
    forall i | 0 <= i < |ps| :: PropertyUnder(c, rank, ps[i], limit)
  }

  predicate SymbolUnder(c: Config, rank: Symbol -> nat, s: Symbol) {
    && ConditionUnder(c, rank, Info(c, s).revDep, rank(s))
    && ConditionUnder(c, rank, Info(c, s).dirDep, rank(s))
    && PropertiesUnder(c, rank, Info(c, s).props, rank(s))
  }

  /** The dependency graph is acyclic: every symbol ranks above all it depends on. */
  ghost predicate Ranked(c: Config, rank: Symbol -> nat) {
    forall s: Symbol :: SymbolUnder(c, rank, s)
  }

  /** `modules_val` is the value of its symbol. */
  ghost predicate ModulesFixed(c: Config, rank: Symbol -> nat) {
    Pure(c, rank, c.modulesSym).tri == c.modulesVal
  }

  ghost predicate Legit(c: Config, rank: Symbol -> nat) {
    Ranked(c, rank) && ModulesFixed(c, rank)
  }

  ghost predicate Agree(rank: Symbol -> nat, limit: nat, env: Env, other: Env) {
    forall t: Symbol | rank(t) < limit :: env(t) == other(t)
  }

  lemma {:induction false} ValueAgrees(c: Config, rank: Symbol -> nat, e: Expr, limit: nat, env: Env, other: Env)
    requires Agree(rank, limit, env, other) && Under(c, rank, e, limit)
    ensures Value(e, env) == Value(e, other)
  {
    match e
    case Sym(_) =>
    case Not(x) => ValueAgrees(c, rank, x, limit, env, other);
    case Bin(_, l, r) =>
      ValueAgrees(c, rank, l, limit, env, other);
      ValueAgrees(c, rank, r, limit, env, other);
    case Cmp(_, _, _) =>
  }

  lemma {:induction false} ConditionAgrees(c: Config, rank: Symbol -> nat, e: Option<Expr>, limit: nat, env: Env, other: Env)
    requires Agree(rank, limit, env, other) && ConditionUnder(c, rank, e, limit)
    ensures ConditionValue(e, env) == ConditionValue(e, other)
  {
    if e.Some? {
      ValueAgrees(c, rank, e.value, limit, env, other);
    }
  }

  lemma {:induction false} PromptsAgree(c: Config, rank: Symbol -> nat, ps: seq<Property>, limit: nat, env: Env, other: Env)
    requires Agree(rank, limit, env, other) && PropertiesUnder(c, rank, ps, limit)
    ensures PromptValue(Prompts(ps), env) == PromptValue(Prompts(ps), other)
  {
    if ps != [] {
      var n := |ps| - 1;
      PromptsAgree(c, rank, ps[..n], limit, env, other);
      PromptValueSnoc(ps, env);
      PromptValueSnoc(ps, other);
      if HasText(ps[n].kind) {
        assert PropertyUnder(c, rank, ps[n], limit);
        ConditionAgrees(c, rank, ps[n].visible, limit, env, other);
      }
    }
  }

  lemma {:induction false} PromptValueSnoc(ps: seq<Property>, env: Env)
    requires ps != []
    ensures var last := ps[|ps| - 1];
            PromptValue(Prompts(ps), env)
            == Max(PromptValue(Prompts(ps[..|ps| - 1]), env), if HasText(last.kind) then ConditionValue(last.visible, env) else NO)
  {
    var last := ps[|ps| - 1];
    var init := Prompts(ps[..|ps| - 1]);
    if HasText(last.kind) {
      assert (init + [last.visible])[..|init|] == init;
    } else {
      assert Prompts(ps) == init;
    }
  }

  lemma {:induction false} FirstActiveAgrees(c: Config, rank: Symbol -> nat, ps: seq<Property>, kind: PropertyKind, limit: nat, env: Env, other: Env)
    requires Agree(rank, limit, env, other) && PropertiesUnder(c, rank, ps, limit)
    requires kind == Default || kind == Range
    ensures FirstActive(ps, kind, env) == FirstActive(ps, kind, other)
    ensures var p := FirstActive(ps, kind, env); p.Some? ==> p.value.kind == kind && PropertyUnder(c, rank, p.value, limit)
  {
    if ps != [] {
      assert PropertyUnder(c, rank, ps[0], limit);
      if ps[0].kind == kind {
        ConditionAgrees(c, rank, ps[0].visible, limit, env, other);
      }
      assert PropertiesUnder(c, rank, ps[1..], limit) by {
        assert forall i | 0 <= i < |ps| - 1 :: ps[1..][i] == ps[i + 1];
      }
      FirstActiveAgrees(c, rank, ps[1..], kind, limit, env, other);
    }
  }

  lemma {:induction false} TriPartsAgree(c: Config, rank: Symbol -> nat, s: Symbol, env: Env, other: Env)
    requires SymbolUnder(c, rank, s) && Agree(rank, rank(s), env, other)
    ensures Visibility(c, s, env) == Visibility(c, s, other)
    ensures SelectValue(c, s, env) == SelectValue(c, s, other)
    ensures DefaultTri(c, s, env) == DefaultTri(c, s, other)
  {
    var info := Info(c, s);
    PromptsAgree(c, rank, info.props, rank(s), env, other);
    if info.revDep.Some? {
      ValueAgrees(c, rank, info.revDep.value, rank(s), env, other);
    }
    FirstActiveAgrees(c, rank, info.props, Default, rank(s), env, other);
    var p := FirstActive(info.props, Default, env);
    if p.Some? {
      ConditionAgrees(c, rank, p.value.expr, rank(s), env, other);
      ConditionAgrees(c, rank, p.value.visible, rank(s), env, other);
    }
  }

  lemma {:induction false} TextPartsAgree(c: Config, rank: Symbol -> nat, s: Symbol, env: Env, other: Env)
    requires SymbolUnder(c, rank, s) && Agree(rank, rank(s), env, other)
    ensures DefaultText(c, s, env) == DefaultText(c, s, other)
    ensures forall text :: Clamped(c, s, text, env) == Clamped(c, s, text, other)
  {
    FirstActiveAgrees(c, rank, Info(c, s).props, Default, rank(s), env, other);
    FirstActiveAgrees(c, rank, Info(c, s).props, Range, rank(s), env, other);
  }

  /** The recursion on ranks solves the equations of all symbols at once. */
  lemma {:induction false} PureSolves(c: Config, rank: Symbol -> nat, s: Symbol)
    requires Ranked(c, rank)
    ensures Pure(c, rank, s) == Compute(c, s, Final(c, rank))
  {
    assert SymbolUnder(c, rank, s);
    var env, other := Below(c, rank, s), Final(c, rank);
    assert Agree(rank, rank(s), env, other);
    TriPartsAgree(c, rank, s, env, other);
    TextPartsAgree(c, rank, s, env, other);
  }

  /** A ranking does not matter for the values. */
  lemma {:induction false} PureIsUnique(c: Config, rank: Symbol -> nat, env: Env, s: Symbol)
    requires Ranked(c, rank) && forall t: Symbol :: env(t) == Answer(t, Compute(c, t, env))
    ensures env(s) == Final(c, rank)(s)
    decreases rank(s)
  {
    forall t: Symbol | rank(t) < rank(s) ensures env(t) == Final(c, rank)(t) {
      PureIsUnique(c, rank, env, t);
    }
    assert Agree(rank, rank(s), env, Final(c, rank));
    assert SymbolUnder(c, rank, s);
    PureSolves(c, rank, s);
    TriPartsAgree(c, rank, s, env, Final(c, rank));
    TextPartsAgree(c, rank, s, env, Final(c, rank));
  }

  /** A symbol is at least as far on as it is selected. */
  lemma {:induction false} SelectIsLowerBound(c: Config, rank: Symbol -> nat, s: Symbol)
    requires Ranked(c, rank) && IsLogical(s)
    ensures Final(c, rank)(s).tri >= SelectValue(c, s, Final(c, rank))
  {
    PureSolves(c, rank, s);
  }

  /** No boolean symbol is `m`, and with modules off no symbol is. */
  lemma {:induction false} NeverMod(c: Config, rank: Symbol -> nat, s: Symbol)
    requires IsLogical(s) && (s.typ == Boolean || c.modulesVal == NO)
    ensures Pure(c, rank, s).tri != MOD
  {
  }

  /**
   * A user value has no effect beyond what prompts allow nor below what selects ask for, and one in between is taken
   * over, as `y` in place of an `m` that the symbol cannot have.
   */
  lemma {:induction false} UserValueMeaning(c: Config, rank: Symbol -> nat, s: Symbol)
    requires Ranked(c, rank) && s in c.user && IsLogical(s)
    requires Visibility(c, s, Final(c, rank)) != NO
    ensures var env := Final(c, rank);
            var v, user, low, high := env(s).tri, c.user[s].tri, SelectValue(c, s, env), Visibility(c, s, env);
            && v <= Max(high, low)
            && (user < low ==> v == low)
            && (low <= user <= high ==>
                  v == if user == MOD && EffectiveType(s.typ, c.modulesVal) == Boolean then YES else user)
  {
    PureSolves(c, rank, s);
  }

  /** The number is replaced by a bound that is not within the bounds when read again. */
  predicate ReadsOutside(c: Config, bound: int, base: int, low: int, high: int) {
    !(low <= c.toInt(c.format(bound, base), base) <= high)
  }

  /**
   * With an active range that is not empty a number ends up within it if and only if the bound it runs into, if any,
   * is read again as a number within the range.
   */
  lemma {:induction false} WithinRange(c: Config, rank: Symbol -> nat, s: Symbol, p: Property)
    requires Ranked(c, rank) && (s.typ == Int || s.typ == Hex) && p.bounds.Some?
    requires FirstActive(Info(c, s).props, Range, Final(c, rank)) == Some(p)
    ensures var env, base := Final(c, rank), Base(s.typ, 0);
            var low, high := Bound(c, p.bounds.value.0, base, env), Bound(c, p.bounds.value.1, base, env);
            var n := c.toInt(TextValue(c, s, env), base);
            low <= high ==>
              (low <= c.toInt(env(s).str, base) <= high
               <==> (n < low ==> !ReadsOutside(c, low, base, low, high))
                    && (n > high ==> !ReadsOutside(c, high, base, low, high)))
  {
    PureSolves(c, rank, s);
  }

  /** Different constants have different names, and y, m and n have theirs. */
  ghost predicate ConstantsNamed(c: Config) {
    && (forall s: Symbol, t: Symbol :: s.isConst && t.isConst && s != t ==> c.name(s) != c.name(t))
    && (forall s: Symbol | IsTriConst(s) :: c.name(s) == AllOff(s).str)
  }

  /** The values of a configuration form one of the environments in which the rewriting passes are sound. */
  lemma {:induction false} FinalWellFormed(c: Config, rank: Symbol -> nat)
    requires Ranked(c, rank) && ConstantsNamed(c)
    ensures WellFormed(Final(c, rank))
  {
    var env := Final(c, rank);
    forall s: Symbol ensures s.isConst ==> env(s).str == c.name(s) {
      PureSolves(c, rank, s);
    }
    forall s: Symbol | s.typ == Boolean ensures env(s).tri != MOD {
      NeverMod(c, rank, s);
    }
    forall s: Symbol | IsTriConst(s) ensures env(s) == AllOff(s) {
      PureSolves(c, rank, s);
    }
    assert IsTriConst(SYMBOL_NO) && IsTriConst(SYMBOL_MOD) && IsTriConst(SYMBOL_YES);
  }

  /** Transformed conditions have the same value in every configuration. */
  lemma {:induction false} TransformKeepsFinal(c: Config, rank: Symbol -> nat, e: Expr)
    requires Ranked(c, rank) && ConstantsNamed(c)
    ensures Value(Transform(e), Final(c, rank)) == Value(e, Final(c, rank))
  {
    FinalWellFormed(c, rank);
    TransformSound(e, Final(c, rank));
  }

  // What the cycle check overlooks

  /** The expression compares a tristate symbol, which may consult the symbol that switches modules. */
  predicate Compares(e: Expr) {
    match e
    case Sym(_) => false
    case Not(x) => Compares(x)
    case Bin(_, l, r) => Compares(l) || Compares(r)
    case Cmp(_, lhs, rhs) => lhs.typ == TristateType || rhs.typ == TristateType
  }

  predicate ConditionCompares(e: Option<Expr>) {
    e.Some? && Compares(e.value)
  }

  predicate PropertyCompares(p: Property) {
    || ((HasText(p.kind) || p.kind == Default || p.kind == Range) && ConditionCompares(p.visible))
    || (p.kind == Default && ConditionCompares(p.expr))
  }

  predicate AnyCompares(ps: seq<Property>) {
    exists i | 0 <= i < |ps| :: PropertyCompares(ps[i])
  }

  predicate SymbolCompares(info: SymbolInfo) {
    ConditionCompares(info.revDep) || ConditionCompares(info.dirDep) || AnyCompares(info.props)
  }

  predicate IsBound(p: Property, t: Symbol) {
    p.kind == Range && p.bounds.Some? && (t == p.bounds.value.0 || t == p.bounds.value.1)
  }

  predicate BoundsOther(info: SymbolInfo, t: Symbol) {
    exists i | 0 <= i < |info.props| :: IsBound(info.props[i], t)
  }

  /**
   * What evaluation may look at although the cycle check does not: direct dependencies, bounds of ranges and, to
   * compare a tristate symbol, the symbol that switches modules.
   */
  predicate Overlooked(c: Config, s: Symbol, t: Symbol) {
    var info := Info(c, s);
    || t in ConditionSymbols(info.dirDep)
    || BoundsOther(info, t)
    || (t == c.modulesSym && SymbolCompares(info))
  }

  /** What evaluation reads for one property. */
  function PropertyReads(p: Property): seq<Symbol> {
    (if HasText(p.kind) || p.kind == Default || p.kind == Range then ConditionSymbols(p.visible) else [])
    + (if p.kind == Default then ConditionSymbols(p.expr) else [])
    + if p.kind == Range && p.bounds.Some? then [p.bounds.value.0, p.bounds.value.1] else []
  }

  function AllPropertyReads(ps: seq<Property>): seq<Symbol> {
    if ps == [] then [] else AllPropertyReads(ps[..|ps| - 1]) + PropertyReads(ps[|ps| - 1])
  }

  /** All that the evaluation of a symbol may read, whatever the values. */
  function Reads(c: Config, info: SymbolInfo): seq<Symbol> {
    ConditionSymbols(info.revDep) + ConditionSymbols(info.dirDep) + AllPropertyReads(info.props)
    + if SymbolCompares(info) then [c.modulesSym] else []
  }

  /** An expression that mentions the given symbols. */
  function Mention(ts: seq<Symbol>): (e: Option<Expr>)
    ensures ConditionSymbols(e) == ts
  {
    if ts == [] then None
    else
      var rest := Mention(ts[1..]);
      assert ExprSymbols(Sym(ts[0])) + ConditionSymbols(rest) == ts;
      if rest.None? then Some(Sym(ts[0])) else Some(Bin(AndOp, Sym(ts[0]), rest.value))
  }

  /** The graph of what evaluation reads: each symbol depends on that, and on nothing else. */
  function ReadGraph(c: Config): Graph {
    map s | s in c.graph :: SymbolInfo(Mention(Reads(c, c.graph[s])), None, [])
  }

  lemma {:induction false} ReadEdges(c: Config, s: Symbol, t: Symbol)
    ensures Edge(ReadGraph(c), s, t) <==> t in Reads(c, Info(c, s))
  {
    if s in c.graph {
      var seen := Reads(c, c.graph[s]);
      assert Dependencies(ReadGraph(c)[s]) == ConditionSymbols(Mention(seen)) + AllPropertySymbols([]) == seen;
    }
  }

  /** All symbols of an expression, and the modules symbol if it compares, rank below `limit`. */
  ghost predicate SymbolsBelow(c: Config, rank: Symbol -> nat, e: Option<Expr>, limit: nat) {
    && AllBelow(rank, ConditionSymbols(e), limit)
    && (ConditionCompares(e) ==> rank(c.modulesSym) < limit)
  }

  lemma {:induction false} UnderMeansSymbols(c: Config, rank: Symbol -> nat, e: Expr, limit: nat)
    ensures Under(c, rank, e, limit) <==> SymbolsBelow(c, rank, Some(e), limit)
  {
    match e
    case Sym(s) => assert ExprSymbols(e)[0] == s;
    case Not(x) => UnderMeansSymbols(c, rank, x, limit);
    case Bin(_, l, r) =>
      UnderMeansSymbols(c, rank, l, limit);
      UnderMeansSymbols(c, rank, r, limit);
      assert forall t :: t in ExprSymbols(e) <==> t in ExprSymbols(l) || t in ExprSymbols(r);
    case Cmp(_, lhs, rhs) => assert ExprSymbols(e)[0] == lhs && ExprSymbols(e)[1] == rhs;
  }

  lemma {:induction false} ConditionMeansSymbols(c: Config, rank: Symbol -> nat, e: Option<Expr>, limit: nat)
    ensures ConditionUnder(c, rank, e, limit) <==> SymbolsBelow(c, rank, e, limit)
  {
    if e.Some? {
      UnderMeansSymbols(c, rank, e.value, limit);
    }
  }

  ghost predicate AllBelow(rank: Symbol -> nat, ts: seq<Symbol>, limit: nat) {
    forall t | t in ts :: rank(t) < limit
  }

  lemma {:induction false} BelowConcat(rank: Symbol -> nat, a: seq<Symbol>, b: seq<Symbol>, limit: nat)
    ensures AllBelow(rank, a + b, limit) <==> AllBelow(rank, a, limit) && AllBelow(rank, b, limit)
  {
    if AllBelow(rank, a + b, limit) {
      assert forall t | t in a || t in b :: t in a + b;
    }
  }

  lemma {:induction false} PropertyMeansReads(c: Config, rank: Symbol -> nat, p: Property, limit: nat)
    ensures PropertyUnder(c, rank, p, limit)
            <==> AllBelow(rank, PropertyReads(p), limit) && (PropertyCompares(p) ==> rank(c.modulesSym) < limit)
  {
    ConditionMeansSymbols(c, rank, p.visible, limit);
    ConditionMeansSymbols(c, rank, p.expr, limit);
    var condition := if HasText(p.kind) || p.kind == Default || p.kind == Range then ConditionSymbols(p.visible) else [];
    var value := if p.kind == Default then ConditionSymbols(p.expr) else [];
    var bounds := if p.kind == Range && p.bounds.Some? then [p.bounds.value.0, p.bounds.value.1] else [];
    BelowConcat(rank, condition + value, bounds, limit);
    BelowConcat(rank, condition, value, limit);
    if bounds != [] {
      assert bounds[0] == p.bounds.value.0 && bounds[1] == p.bounds.value.1;
    }
  }

  lemma {:induction false} PropertiesUnderSnoc(c: Config, rank: Symbol -> nat, ps: seq<Property>, limit: nat)
    requires ps != []
    ensures var init, last := ps[..|ps| - 1], ps[|ps| - 1];
            && (PropertiesUnder(c, rank, ps, limit)
                <==> PropertiesUnder(c, rank, init, limit) && PropertyUnder(c, rank, last, limit))
            && (AnyCompares(ps) <==> AnyCompares(init) || PropertyCompares(last))
  {
    var init := ps[..|ps| - 1];
    assert forall i | 0 <= i < |init| :: init[i] == ps[i];
    if AnyCompares(ps) {
      var i :| 0 <= i < |ps| && PropertyCompares(ps[i]);
      assert i < |init| ==> PropertyCompares(init[i]);
    }
    if AnyCompares(init) {
      var i :| 0 <= i < |init| && PropertyCompares(init[i]);
      assert PropertyCompares(ps[i]);
    }
  }

  lemma {:induction false} PropertiesMeanReads(c: Config, rank: Symbol -> nat, ps: seq<Property>, limit: nat)
    ensures PropertiesUnder(c, rank, ps, limit)
            <==> AllBelow(rank, AllPropertyReads(ps), limit) && (AnyCompares(ps) ==> rank(c.modulesSym) < limit)
  {
    if ps != [] {
      var init, last := ps[..|ps| - 1], ps[|ps| - 1];
      PropertiesMeanReads(c, rank, init, limit);
      PropertyMeansReads(c, rank, last, limit);
      PropertiesUnderSnoc(c, rank, ps, limit);
      BelowConcat(rank, AllPropertyReads(init), PropertyReads(last), limit);
    }
  }

  /** A symbol ranks above what it looks at if and only if it ranks above all it may read. */
  lemma {:induction false} SymbolMeansReads(c: Config, rank: Symbol -> nat, s: Symbol)
    ensures SymbolUnder(c, rank, s) <==> AllBelow(rank, Reads(c, Info(c, s)), rank(s))
  {
    var info, limit := Info(c, s), rank(s);
    var rev, dir, props := ConditionSymbols(info.revDep), ConditionSymbols(info.dirDep), AllPropertyReads(info.props);
    ConditionMeansSymbols(c, rank, info.revDep, limit);
    ConditionMeansSymbols(c, rank, info.dirDep, limit);
    PropertiesMeanReads(c, rank, info.props, limit);
    BelowConcat(rank, rev, dir, limit);
    BelowConcat(rank, rev + dir, props, limit);
    BelowConcat(rank, rev + dir + props, if SymbolCompares(info) then [c.modulesSym] else [], limit);
    assert AllBelow(rank, [c.modulesSym], limit) <==> rank(c.modulesSym) < limit;
  }

  lemma {:induction false} RankedMeansRanks(c: Config, rank: Symbol -> nat)
    ensures Ranked(c, rank) <==> Ranks(ReadGraph(c), rank)
  {
    forall s: Symbol ensures SymbolUnder(c, rank, s) <==> AllBelow(rank, Reads(c, Info(c, s)), rank(s)) {
      SymbolMeansReads(c, rank, s);
    }
    forall s: Symbol, t: Symbol ensures Edge(ReadGraph(c), s, t) <==> t in Reads(c, Info(c, s)) {
      ReadEdges(c, s, t);
    }
  }

  /** The values of all symbols are determined by recursion if and only if what evaluation reads forms no cycle. */
  lemma {:induction false} EvaluableIff(c: Config)
    ensures (exists rank :: Ranked(c, rank)) <==> !HasCycle(ReadGraph(c))
  {
    RankedIff(ReadGraph(c));
    forall rank ensures Ranked(c, rank) <==> Ranks(ReadGraph(c), rank) {
      RankedMeansRanks(c, rank);
    }
  }

  lemma {:induction false} PropertiesAreSeen(ps: seq<Property>, t: Symbol)
    requires t in AllPropertyReads(ps)
    ensures t in AllPropertySymbols(ps) || exists i | 0 <= i < |ps| :: IsBound(ps[i], t)
  {
    var n := |ps| - 1;
    var init := ps[..n];
    if t in AllPropertyReads(init) {
      PropertiesAreSeen(init, t);
      assert forall i | 0 <= i < n :: init[i] == ps[i];
    } else {
      assert t in PropertyReads(ps[n]);
      assert t in PropertySymbols(ps[n]) || IsBound(ps[n], t);
    }
  }

  lemma {:induction false} ReadsAreSeen(c: Config, s: Symbol, t: Symbol)
    requires t in Reads(c, Info(c, s))
    ensures t in Dependencies(Info(c, s)) || Overlooked(c, s, t)
  {
    var info := Info(c, s);
    if t in AllPropertyReads(info.props) {
      PropertiesAreSeen(info.props, t);
    }
  }

  /** Somewhere along the list one symbol is read by the one before it unseen by the cycle check. */
  ghost predicate Unseen(c: Config, p: seq<Symbol>) {
    exists i: nat :: i + 1 < |p| && Overlooked(c, p[i], p[i + 1])
  }

  lemma {:induction false} SeenWalkIsWalk(c: Config, p: seq<Symbol>)
    requires IsWalk(ReadGraph(c), p) && !Unseen(c, p)
    ensures IsWalk(c.graph, p)
  {
    forall i: nat | i + 1 < |p| ensures StepAt(c.graph, p, i) {
      assert StepAt(ReadGraph(c), p, i);
      ReadEdges(c, p[i], p[i + 1]);
      ReadsAreSeen(c, p[i], p[i + 1]);
    }
  }

  /**
   * A graph the cycle check has passed can be evaluated if and only if there is no cycle through something the check
   * overlooks.
   */
  lemma {:induction false} CheckedGraphIsRanked(c: Config)
    requires !HasCycle(c.graph)
    ensures (exists rank :: Ranked(c, rank)) <==> !exists p :: IsCycle(ReadGraph(c), p) && Unseen(c, p)
  {
    EvaluableIff(c);
    if HasCycle(ReadGraph(c)) {
      var p :| IsCycle(ReadGraph(c), p);
      if !Unseen(c, p) {
        SeenWalkIsWalk(c, p);
        assert IsCycle(c.graph, p);
      }
    }
  }

  /** `A` depends on `B` directly, and the default of `B` is `A`. */
  const LOOP_A := Declared(0, Boolean)
  const LOOP_B := Declared(1, Boolean)
  const DEFAULT_A := Property(Default, None, Some(Sym(LOOP_A)), None)

  const LOOP := Config(map[LOOP_A := SymbolInfo(None, Some(Sym(LOOP_B)), []), LOOP_B := SymbolInfo(None, None, [DEFAULT_A])],
                          (s: Symbol) => "", map[], {}, SYMBOL_NO, NO,
                          (text: string, base: int) => 0, (n: int, base: int) => "")

  lemma {:induction false} LoopPasses()
    ensures Topological(LOOP.graph, [LOOP_A, LOOP_B]) && forall s | s in LOOP.graph :: s in [LOOP_A, LOOP_B]
    ensures !HasCycle(LOOP.graph)
  {
    var g, order := LOOP.graph, [LOOP_A, LOOP_B];
    assert Dependencies(g[LOOP_A]) == [];
    assert AllPropertySymbols([DEFAULT_A]) == [LOOP_A] && Dependencies(g[LOOP_B]) == [LOOP_A];
    assert order[..1] == [LOOP_A];
    assert SettledAt(g, order, 0) && SettledAt(g, order, 1);
    TopologicalIsAcyclic(g, order);
  }

  lemma {:induction false} LoopReads()
    ensures Reads(LOOP, Info(LOOP, LOOP_A)) == [LOOP_B]
    ensures Reads(LOOP, Info(LOOP, LOOP_B)) == [LOOP_A]
  {
    assert AllPropertyReads([]) == [];
    assert PropertyReads(DEFAULT_A) == [LOOP_A];
    assert AllPropertyReads([DEFAULT_A]) == [] + [LOOP_A];
    assert !AnyCompares([DEFAULT_A]) && !AnyCompares([]);
  }

  /** The check passes this graph, but no order of evaluation exists. */
  lemma {:induction false} PassedGraphMayLoop()
    ensures Topological(LOOP.graph, [LOOP_A, LOOP_B]) && forall s | s in LOOP.graph :: s in [LOOP_A, LOOP_B]
    ensures !HasCycle(LOOP.graph) && HasCycle(ReadGraph(LOOP))
    ensures forall rank :: !Ranked(LOOP, rank)
  {
    LoopPasses();
    LoopReads();
    ReadEdges(LOOP, LOOP_A, LOOP_B);
    ReadEdges(LOOP, LOOP_B, LOOP_A);
    MutualIsCycle(ReadGraph(LOOP), LOOP_A, LOOP_B);
    EvaluableIff(LOOP);
  }
}
