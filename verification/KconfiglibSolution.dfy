/** What the value of a symbol depends on, and what a change of user values leaves alone. */
module KconfiglibSolution {
  import opened Wrappers
  import opened Tristate
  import opened KconfiglibExpr
  import opened KconfiglibSpec

  ghost predicate Agree(rank: Sym -> nat, limit: nat, v: Values, w: Values) {
    forall t: Sym | rank(t) < limit :: v(t) == w(t)
  }

  lemma {:induction false} EvalAgrees(c: Setup, rank: Sym -> nat, e: KExpr, limit: nat, v: Values, w: Values)
    requires Agree(rank, limit, v, w) && ExprUnder(rank, e, limit)
    ensures Eval(e, EnvFor(c, v)) == Eval(e, EnvFor(c, w))
    decreases e
  {
    match e
    case And(terms) => TermsAgree(c, rank, terms, limit, v, w);
    case Or(terms) => TermsAgree(c, rank, terms, limit, v, w);
    case Not(x) => EvalAgrees(c, rank, x, limit, v, w);
    case _ =>
  }

  lemma {:induction false} TermsAgree(c: Setup, rank: Sym -> nat, terms: seq<KExpr>, limit: nat, v: Values, w: Values)
    requires Agree(rank, limit, v, w) && TermsUnder(rank, terms, limit)
    ensures AllOf(terms, EnvFor(c, v)) == AllOf(terms, EnvFor(c, w))
    ensures AnyOf(terms, EnvFor(c, v)) == AnyOf(terms, EnvFor(c, w))
    decreases terms
  {
    if terms != [] {
      EvalAgrees(c, rank, terms[0], limit, v, w);
      TermsAgree(c, rank, terms[1..], limit, v, w);
    }
  }

  lemma {:induction false} CondAgrees(c: Setup, on: bool, rank: Sym -> nat, e: Option<KExpr>, limit: nat, v: Values, w: Values)
    requires Agree(rank, limit, v, w) && CondUnder(rank, e, limit)
    ensures Cond(c, on, e, v) == Cond(c, on, e, w)
  {
    if e.Some? {
      EvalAgrees(c, rank, e.value, limit, v, w);
    }
  }

  lemma {:induction false} PromptsAgree(c: Setup, on: bool, rank: Sym -> nat, prompts: seq<Option<KExpr>>, limit: nat, v: Values, w: Values)
    requires Agree(rank, limit, v, w) && PromptsUnder(rank, prompts, limit)
    ensures PromptMax(c, on, prompts, v) == PromptMax(c, on, prompts, w)
  {
    if prompts != [] {
      var n := |prompts| - 1;
      PromptsAgree(c, on, rank, prompts[..n], limit, v, w);
      CondAgrees(c, on, rank, prompts[n], limit, v, w);
    }
  }

  lemma {:induction false} FirstActiveAgrees<T>(c: Setup, on: bool, rank: Sym -> nat, entries: seq<(T, Option<KExpr>)>,
                                                limit: nat, v: Values, w: Values)
    requires Agree(rank, limit, v, w) && EntriesUnder(rank, entries, limit)
    ensures FirstActive(c, on, entries, v) == FirstActive(c, on, entries, w)
  {
    if entries != [] {
      CondAgrees(c, on, rank, entries[0].1, limit, v, w);
      assert forall i | 0 <= i < |entries| - 1 :: entries[1..][i] == entries[i + 1];
      FirstActiveAgrees(c, on, rank, entries[1..], limit, v, w);
    }
  }

  lemma {:induction false} FirstActiveIsEntry<T>(c: Setup, on: bool, entries: seq<(T, Option<KExpr>)>, v: Values)
    requires FirstActive(c, on, entries, v).Some?
    ensures exists i | 0 <= i < |entries| :: entries[i].0 == FirstActive(c, on, entries, v).value.0
  {
    if Cond(c, on, entries[0].1, v) == NO {
      FirstActiveIsEntry(c, on, entries[1..], v);
      var i :| 0 <= i < |entries| - 1 && entries[1..][i].0 == FirstActive(c, on, entries[1..], v).value.0;
      assert entries[i + 1] == entries[1..][i];
    }
  }

  lemma {:induction false} VisibilityAgrees(c: Setup, on: bool, rank: Sym -> nat, s: Sym, v: Values, w: Values)
    requires SymbolUnder(c, rank, s) && Agree(rank, rank(s), v, w)
    ensures Visibility(c, on, s, v) == Visibility(c, on, s, w)
  {
    var info := c.info(s);
    PromptsAgree(c, on, rank, info.prompts, rank(s), v, w);
    if info.choice.Some? {
      PromptsAgree(c, on, rank, c.choice(info.choice.value).prompts, rank(s), v, w);
    }
  }

  /** Two users who agree on a choice and on all its symbols. */
  predicate SameChoice(c: Setup, u: User, w: User, ch: Choice) {
    && (ch in u.selected <==> ch in w.selected)
    && (ch in u.selected ==> u.selected[ch] == w.selected[ch])
    && (ch in u.mode <==> ch in w.mode)
    && (ch in u.mode ==> u.mode[ch] == w.mode[ch])
  }

  predicate SameSymbol(u: User, w: User, s: Sym) {
    && (s in u.values <==> s in w.values)
    && (s in u.values ==> u.values[s] == w.values[s])
  }

  predicate SameFor(c: Setup, u: User, w: User, s: Sym) {
    && SameSymbol(u, w, s)
    && (c.info(s).choice.Some? ==> SameChoice(c, u, w, c.info(s).choice.value))
  }

  /** The selected symbol of a choice is one of its symbols. */
  ghost predicate SelectionsValid(c: Setup, u: User) {
    forall ch | ch in u.selected :: u.selected[ch] in c.choice(ch).symbols
  }

  lemma {:induction false} FirstVisibleAgrees(c: Setup, on: bool, rank: Sym -> nat, symbols: seq<Sym>, limit: nat, v: Values, w: Values)
    requires Ranked(c, rank) && Agree(rank, limit, v, w) && forall t | t in symbols :: rank(t) == limit
    ensures FirstVisible(c, on, symbols, v) == FirstVisible(c, on, symbols, w)
  {
    if symbols != [] {
      assert symbols[0] in symbols && SymbolUnder(c, rank, symbols[0]);
      VisibilityAgrees(c, on, rank, symbols[0], v, w);
      FirstVisibleAgrees(c, on, rank, symbols[1..], limit, v, w);
    }
  }

  lemma {:induction false} DefaultSelectionAgrees(c: Setup, on: bool, rank: Sym -> nat, ch: Choice, limit: nat, v: Values, w: Values)
    requires Ranked(c, rank) && ChoiceUnder(c, rank, ch, limit) && Agree(rank, limit, v, w)
    ensures DefaultSelection(c, on, ch, v) == DefaultSelection(c, on, ch, w)
  {
    var info := c.choice(ch);
    if info.symbols != [] {
      FirstActiveAgrees(c, on, rank, info.defaults, limit, v, w);
      var d := FirstActive(c, on, info.defaults, v);
      if d.Some? {
        FirstActiveIsEntry(c, on, info.defaults, v);
      }
      var chosen := if d.None? then info.symbols[0] else d.value.0;
      assert chosen in info.symbols && SymbolUnder(c, rank, chosen);
      VisibilityAgrees(c, on, rank, chosen, v, w);
      FirstVisibleAgrees(c, on, rank, info.symbols, limit, v, w);
    }
  }

  lemma {:induction false} ModeAgrees(c: Setup, on: bool, u: User, x: User, rank: Sym -> nat, ch: Choice, limit: nat, v: Values, w: Values)
    requires ChoiceUnder(c, rank, ch, limit) && Agree(rank, limit, v, w) && SameChoice(c, u, x, ch)
    ensures ChoiceVisibility(c, on, ch, v) == ChoiceVisibility(c, on, ch, w)
    ensures Mode(c, on, u, ch, v) == Mode(c, on, x, ch, w)
  {
    PromptsAgree(c, on, rank, c.choice(ch).prompts, limit, v, w);
  }

  lemma {:induction false} SelectionAgrees(c: Setup, on: bool, u: User, x: User, rank: Sym -> nat, ch: Choice, limit: nat, v: Values, w: Values)
    requires Ranked(c, rank) && ChoiceUnder(c, rank, ch, limit) && Agree(rank, limit, v, w)
    requires SelectionsValid(c, u) && SameChoice(c, u, x, ch)
    ensures Selection(c, on, u, ch, v) == Selection(c, on, x, ch, w)
  {
    ModeAgrees(c, on, u, x, rank, ch, limit, v, w);
    if ch in u.selected {
      assert SymbolUnder(c, rank, u.selected[ch]);
      VisibilityAgrees(c, on, rank, u.selected[ch], v, w);
    }
    DefaultSelectionAgrees(c, on, rank, ch, limit, v, w);
  }

  lemma {:induction false} ChoiceSymbolTriAgrees(c: Setup, on: bool, u: User, x: User, rank: Sym -> nat, s: Sym, ch: Choice,
                                                 v: Values, w: Values)
    requires Ranked(c, rank) && Agree(rank, rank(s), v, w) && SelectionsValid(c, u)
    requires SameSymbol(u, x, s) && SameChoice(c, u, x, ch) && c.info(s).choice == Some(ch)
    ensures ChoiceSymbolTri(c, on, u, s, ch, v) == ChoiceSymbolTri(c, on, x, s, ch, w)
  {
    assert SymbolUnder(c, rank, s);
    VisibilityAgrees(c, on, rank, s, v, w);
    ModeAgrees(c, on, u, x, rank, ch, rank(s), v, w);
    SelectionAgrees(c, on, u, x, rank, ch, rank(s), v, w);
  }

  lemma {:induction false} PlainTriAgrees(c: Setup, on: bool, u: User, x: User, rank: Sym -> nat, s: Sym, v: Values, w: Values)
    requires SymbolUnder(c, rank, s) && Agree(rank, rank(s), v, w) && SameSymbol(u, x, s)
    ensures PlainTri(c, on, u, s, v) == PlainTri(c, on, x, s, w)
  {
    VisibilityAgrees(c, on, rank, s, v, w);
    DefaultTriAgrees(c, on, rank, s, v, w);
    EvalAgrees(c, rank, c.info(s).revDep, rank(s), v, w);
  }

  lemma {:induction false} TriAgrees(c: Setup, on: bool, u: User, x: User, rank: Sym -> nat, s: Sym, v: Values, w: Values)
    requires Ranked(c, rank) && Agree(rank, rank(s), v, w) && SelectionsValid(c, u) && SameFor(c, u, x, s)
    ensures TriValue(c, on, u, s, v) == TriValue(c, on, x, s, w)
  {
    if c.info(s).choice.Some? {
      ChoiceSymbolTriAgrees(c, on, u, x, rank, s, c.info(s).choice.value, v, w);
    } else {
      assert SymbolUnder(c, rank, s);
      PlainTriAgrees(c, on, u, x, rank, s, v, w);
    }
  }

  lemma {:induction false} DefaultTriAgrees(c: Setup, on: bool, rank: Sym -> nat, s: Sym, v: Values, w: Values)
    requires SymbolUnder(c, rank, s) && Agree(rank, rank(s), v, w)
    ensures DefaultTri(c, on, s, v) == DefaultTri(c, on, s, w)
  {
    var defaults := c.info(s).defaults;
    FirstActiveAgrees(c, on, rank, defaults, rank(s), v, w);
    if FirstActive(c, on, defaults, v).Some? {
      FirstActiveIsEntry(c, on, defaults, v);
      var i :| 0 <= i < |defaults| && defaults[i].0 == FirstActive(c, on, defaults, v).value.0;
      EvalAgrees(c, rank, defaults[i].0, rank(s), v, w);
    }
  }

  lemma {:induction false} TextAgrees(c: Setup, on: bool, u: User, x: User, rank: Sym -> nat, s: Sym, v: Values, w: Values)
    requires SymbolUnder(c, rank, s) && Agree(rank, rank(s), v, w) && SameSymbol(u, x, s)
    ensures TextValue(c, on, u, s, v) == TextValue(c, on, x, s, w)
  {
    var defaults := c.info(s).defaults;
    VisibilityAgrees(c, on, rank, s, v, w);
    FirstActiveAgrees(c, on, rank, defaults, rank(s), v, w);
    if FirstActive(c, on, defaults, v).Some? {
      FirstActiveIsEntry(c, on, defaults, v);
      var i :| 0 <= i < |defaults| && defaults[i].0 == FirstActive(c, on, defaults, v).value.0;
      assert ExprUnder(rank, defaults[i].0, rank(s));
    }
  }

  lemma {:induction false} RangeAgrees(c: Setup, on: bool, rank: Sym -> nat, s: Sym, base: int, v: Values, w: Values)
    requires SymbolUnder(c, rank, s) && Agree(rank, rank(s), v, w)
    ensures ActiveRange(c, on, s, base, v) == ActiveRange(c, on, s, base, w)
  {
    var ranges := c.info(s).ranges;
    FirstActiveAgrees(c, on, rank, ranges, rank(s), v, w);
    if FirstActive(c, on, ranges, v).Some? {
      FirstActiveIsEntry(c, on, ranges, v);
      var i :| 0 <= i < |ranges| && ranges[i].0 == FirstActive(c, on, ranges, v).value.0;
      assert BoundsUnder(rank, ranges[i].0, rank(s));
    }
  }

  lemma {:induction false} DefaultNumberAgrees(c: Setup, on: bool, rank: Sym -> nat, defaults: seq<(KExpr, Option<KExpr>)>,
                                               base: int, range: Option<(int, int)>, sofar: string,
                                               limit: nat, v: Values, w: Values)
    requires DefaultsUnder(rank, defaults, limit) && Agree(rank, limit, v, w)
    ensures DefaultNumber(c, on, defaults, base, range, sofar, v) == DefaultNumber(c, on, defaults, base, range, sofar, w)
  {
    if defaults != [] {
      CondAgrees(c, on, rank, defaults[0].1, limit, v, w);
      assert ExprUnder(rank, defaults[0].0, limit);
      assert forall i | 0 <= i < |defaults| - 1 :: defaults[1..][i] == defaults[i + 1];
      var text := TextOf(c, defaults[0].0, v);
      DefaultNumberAgrees(c, on, rank, defaults[1..], base, range, sofar, limit, v, w);
      DefaultNumberAgrees(c, on, rank, defaults[1..], base, range, text, limit, v, w);
    }
  }

  lemma {:induction false} NumberAgrees(c: Setup, on: bool, u: User, x: User, rank: Sym -> nat, s: Sym, v: Values, w: Values)
    requires SymbolUnder(c, rank, s) && Agree(rank, rank(s), v, w) && SameSymbol(u, x, s)
    ensures NumberValue(c, on, u, s, v) == NumberValue(c, on, x, s, w)
  {
    var base := Base(c.info(s).kind);
    VisibilityAgrees(c, on, rank, s, v, w);
    RangeAgrees(c, on, rank, s, base, v, w);
    DefaultNumberAgrees(c, on, rank, c.info(s).defaults, base, ActiveRange(c, on, s, base, v), "", rank(s), v, w);
  }

  /** The value of a symbol depends on lower symbols and on the user values of the symbol and of its choice. */
  lemma {:induction false} ValueAgrees(c: Setup, on: bool, u: User, x: User, rank: Sym -> nat, s: Sym, v: Values, w: Values)
    requires Ranked(c, rank) && Agree(rank, rank(s), v, w) && SelectionsValid(c, u) && SameFor(c, u, x, s)
    ensures ValueOf(c, on, u, s, v) == ValueOf(c, on, x, s, w)
  {
    assert SymbolUnder(c, rank, s);
    TriAgrees(c, on, u, x, rank, s, v, w);
    TextAgrees(c, on, u, x, rank, s, v, w);
    NumberAgrees(c, on, u, x, rank, s, v, w);
  }

  /** Values that satisfy the equation of every symbol. */
  ghost predicate Solves(c: Setup, on: bool, u: User, v: Values) {
    forall s: Sym :: v(s) == ValueOf(c, on, u, s, v)
  }

  ghost function Solution(c: Setup, on: bool, u: User, rank: Sym -> nat): Values {
    (s: Sym) => Pure(c, on, u, rank, s)
  }

  /** The recursion on ranks solves the equations of all symbols at once. */
  lemma {:induction false} SolutionSolves(c: Setup, on: bool, u: User, rank: Sym -> nat)
    requires Ranked(c, rank) && SelectionsValid(c, u)
    ensures Solves(c, on, u, Solution(c, on, u, rank))
  {
    var v := Solution(c, on, u, rank);
    forall s: Sym ensures v(s) == ValueOf(c, on, u, s, v) {
      assert Agree(rank, rank(s), Below(c, on, u, rank, s), v);
      ValueAgrees(c, on, u, u, rank, s, Below(c, on, u, rank, s), v);
    }
  }

  // Which symbols an expression, a list or a definition mentions

  function OperandSyms(o: Operand): set<Sym> {
    if o.SymbolRef? then {o.sym} else {}
  }

  /** `_get_expr_syms`. */
  function ExprSyms(e: KExpr): set<Sym>
    decreases e
  {
    match e
    case Leaf(o) => OperandSyms(o)
    case And(terms) => TermsSyms(terms)
    case Or(terms) => TermsSyms(terms)
    case Not(x) => ExprSyms(x)
    case Equal(l, r) => OperandSyms(l) + OperandSyms(r)
    case Unequal(l, r) => OperandSyms(l) + OperandSyms(r)
  }

  function TermsSyms(terms: seq<KExpr>): set<Sym>
    decreases terms
  {
    if terms == [] then {} else ExprSyms(terms[0]) + TermsSyms(terms[1..])
  }

  function CondSyms(e: Option<KExpr>): set<Sym> {
    if e.None? then {} else ExprSyms(e.value)
  }

  function RangeSyms(r: ((Operand, Operand), Option<KExpr>)): set<Sym> {
    OperandSyms(r.0.0) + OperandSyms(r.0.1) + CondSyms(r.1)
  }

  ghost predicate InPrompts(prompts: seq<Option<KExpr>>, t: Sym) {
    exists i | 0 <= i < |prompts| :: t in CondSyms(prompts[i])
  }

  ghost predicate InDefaults(defaults: seq<(KExpr, Option<KExpr>)>, t: Sym) {
    exists i | 0 <= i < |defaults| :: t in ExprSyms(defaults[i].0) + CondSyms(defaults[i].1)
  }

  ghost predicate InRanges(ranges: seq<((Operand, Operand), Option<KExpr>)>, t: Sym) {
    exists i | 0 <= i < |ranges| :: t in RangeSyms(ranges[i])
  }

  ghost predicate InConditions<T>(entries: seq<(T, Option<KExpr>)>, t: Sym) {
    exists i | 0 <= i < |entries| :: t in CondSyms(entries[i].1)
  }

  ghost predicate OwnMentions(info: SymInfo, t: Sym) {
    InPrompts(info.prompts, t) || InDefaults(info.defaults, t) || t in ExprSyms(info.revDep) || InRanges(info.ranges, t)
  }

  ghost predicate ChoiceMentions(info: ChoiceInfo, t: Sym) {
    InPrompts(info.prompts, t) || InConditions(info.defaults, t)
  }

  /** Everything `_build_dep` makes a symbol depend on. */
  ghost predicate Mentions(c: Setup, s: Sym, t: Sym) {
    var info := c.info(s);
    OwnMentions(info, t) || (info.choice.Some? && ChoiceMentions(c.choice(info.choice.value), t))
  }

  lemma {:induction false} UnderMeansSyms(rank: Sym -> nat, e: KExpr, limit: nat)
    ensures ExprUnder(rank, e, limit) <==> forall t | t in ExprSyms(e) :: rank(t) < limit
    decreases e
  {
    match e
    case And(terms) => TermsUnderMeansSyms(rank, terms, limit);
    case Or(terms) => TermsUnderMeansSyms(rank, terms, limit);
    case Not(x) => UnderMeansSyms(rank, x, limit);
    case _ =>
  }

  lemma {:induction false} TermsUnderMeansSyms(rank: Sym -> nat, terms: seq<KExpr>, limit: nat)
    ensures TermsUnder(rank, terms, limit) <==> forall t | t in TermsSyms(terms) :: rank(t) < limit
    decreases terms
  {
    if terms != [] {
      UnderMeansSyms(rank, terms[0], limit);
      TermsUnderMeansSyms(rank, terms[1..], limit);
      assert forall t :: t in TermsSyms(terms) <==> t in ExprSyms(terms[0]) || t in TermsSyms(terms[1..]);
    }
  }

  lemma {:induction false} CondUnderMeansSyms(rank: Sym -> nat, e: Option<KExpr>, limit: nat)
    ensures CondUnder(rank, e, limit) <==> forall t | t in CondSyms(e) :: rank(t) < limit
  {
    if e.Some? {
      UnderMeansSyms(rank, e.value, limit);
    }
  }
}
