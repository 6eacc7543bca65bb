/** Which cached results stay right when user values change. */
module KconfiglibInvalidation {
  import opened Wrappers
  import opened Tristate
  import opened KconfiglibExpr
  import opened KconfiglibSpec
  import opened KconfiglibSolution

  // The symbol MODULES

  /** An expression that cannot be `m` and whose value is fixed. */
  predicate Definite(c: Setup, e: KExpr)
    decreases e
  {
    match e
    case Leaf(SymbolRef(s)) => c.info(s).special.Some? && c.info(s).special.value != "m"
    case Leaf(Text(t)) => t != "m"
    case Leaf(Stray) => true
    case And(terms) => AllDefinite(c, terms)
    case Or(terms) => AllDefinite(c, terms)
    case Not(x) => Definite(c, x)
    case _ => true
  }

  predicate AllDefinite(c: Setup, terms: seq<KExpr>)
    decreases terms
  {
    terms == [] || (Definite(c, terms[0]) && AllDefinite(c, terms[1..]))
  }

  predicate DefiniteCond(c: Setup, e: Option<KExpr>) {
    e.None? || Definite(c, e.value)
  }

  predicate DefinitePrompts(c: Setup, prompts: seq<Option<KExpr>>) {
    forall i | 0 <= i < |prompts| :: DefiniteCond(c, prompts[i])
  }

  predicate DefiniteDefaults(c: Setup, defaults: seq<(KExpr, Option<KExpr>)>) {
    forall i | 0 <= i < |defaults| :: Definite(c, defaults[i].0) && DefiniteCond(c, defaults[i].1)
  }

  /** MODULES is an ordinary bool symbol that depends on nothing but special symbols, and all others may depend on it. */
  ghost predicate ModulesPlain(c: Setup, rank: Sym -> nat) {
    c.modules.Some? ==>
      var m := c.modules.value;
      var info := c.info(m);
      && info.kind == Bool && info.choice.None? && info.special.None?
      && DefinitePrompts(c, info.prompts) && DefiniteDefaults(c, info.defaults) && Definite(c, info.revDep)
      && (forall t: Sym | rank(t) < rank(m) :: c.info(t).special.Some?)
      && (forall t: Sym | t != m && c.info(t).special.None? :: rank(m) < rank(t))
  }

  ghost predicate SpecialsFixed(c: Setup, v: Values) {
    forall t: Sym | c.info(t).special.Some? :: v(t) == c.info(t).special.value
  }

  lemma {:induction false} DefiniteNotMod(c: Setup, e: KExpr, v: Values)
    requires Definite(c, e) && SpecialsFixed(c, v)
    ensures Eval(e, EnvFor(c, v)) != MOD
    decreases e
  {
    match e
    case And(terms) => TermsNotMod(c, terms, v);
    case Or(terms) => TermsNotMod(c, terms, v);
    case Not(x) => DefiniteNotMod(c, x, v);
    case _ =>
  }

  lemma {:induction false} TermsNotMod(c: Setup, terms: seq<KExpr>, v: Values)
    requires AllDefinite(c, terms) && SpecialsFixed(c, v)
    ensures AllOf(terms, EnvFor(c, v)) != MOD && AnyOf(terms, EnvFor(c, v)) != MOD
    decreases terms
  {
    if terms != [] {
      DefiniteNotMod(c, terms[0], v);
      TermsNotMod(c, terms[1..], v);
    }
  }

  lemma {:induction false} CondNotMod(c: Setup, on: bool, e: Option<KExpr>, v: Values)
    requires DefiniteCond(c, e) && SpecialsFixed(c, v)
    ensures Cond(c, on, e, v) != MOD && Cond(c, on, e, v) == Cond(c, !on, e, v)
  {
    if e.Some? {
      DefiniteNotMod(c, e.value, v);
    }
  }

  lemma {:induction false} PromptsNotMod(c: Setup, on: bool, prompts: seq<Option<KExpr>>, v: Values)
    requires DefinitePrompts(c, prompts) && SpecialsFixed(c, v)
    ensures PromptMax(c, on, prompts, v) != MOD && PromptMax(c, on, prompts, v) == PromptMax(c, !on, prompts, v)
  {
    if prompts != [] {
      var n := |prompts| - 1;
      PromptsNotMod(c, on, prompts[..n], v);
      CondNotMod(c, on, prompts[n], v);
    }
  }

  lemma {:induction false} DefaultsNotMod(c: Setup, on: bool, defaults: seq<(KExpr, Option<KExpr>)>, v: Values)
    requires DefiniteDefaults(c, defaults) && SpecialsFixed(c, v)
    ensures var d := FirstActive(c, on, defaults, v);
            d == FirstActive(c, !on, defaults, v) && (d.Some? ==> Definite(c, d.value.0) && d.value.1 != MOD)
  {
    if defaults != [] {
      CondNotMod(c, on, defaults[0].1, v);
      assert forall i | 0 <= i < |defaults| - 1 :: defaults[1..][i] == defaults[i + 1];
      DefaultsNotMod(c, on, defaults[1..], v);
    }
  }

  predicate ValidFor(c: Setup, kind: Kind, text: string) {
    match kind
    case Unknown => false
    case Bool => text == "n" || text == "y"
    case TristateKind => text == "n" || text == "m" || text == "y"
    case StringKind => true
    case Integer => c.isBase(text, 10)
    case Hexadecimal => c.isBase(text, 16)
  }

  /** User values have passed the checks of `_set_user_value_no_invalidate`. */
  ghost predicate UserValid(c: Setup, u: User) {
    && SelectionsValid(c, u)
    && forall s | s in u.values :: ValidFor(c, c.info(s).kind, u.values[s])
  }

  lemma {:induction false} PlainModulesVisibility(c: Setup, rank: Sym -> nat, v: Values)
    requires ModulesPlain(c, rank) && c.modules.Some? && SpecialsFixed(c, v)
    ensures Visibility(c, true, c.modules.value, v) == Visibility(c, false, c.modules.value, v) != MOD
  {
    PromptsNotMod(c, true, c.info(c.modules.value).prompts, v);
  }

  lemma {:induction false} PlainModulesDefault(c: Setup, rank: Sym -> nat, v: Values)
    requires ModulesPlain(c, rank) && c.modules.Some? && SpecialsFixed(c, v)
    ensures DefaultTri(c, true, c.modules.value, v) == DefaultTri(c, false, c.modules.value, v) != MOD
  {
    var info := c.info(c.modules.value);
    DefaultsNotMod(c, true, info.defaults, v);
    var d := FirstActive(c, true, info.defaults, v);
    if d.Some? {
      CondNotMod(c, true, Some(d.value.0), v);
    }
  }

  lemma {:induction false} PlainModulesTri(c: Setup, rank: Sym -> nat, u: User, v: Values)
    requires ModulesPlain(c, rank) && c.modules.Some? && UserValid(c, u) && SpecialsFixed(c, v)
    ensures PlainTri(c, true, u, c.modules.value, v) == PlainTri(c, false, u, c.modules.value, v)
  {
    var m := c.modules.value;
    PlainModulesVisibility(c, rank, v);
    PlainModulesDefault(c, rank, v);
    CondNotMod(c, true, Some(c.info(m).revDep), v);
    assert m in u.values ==> TriOf(u.values[m]) != MOD;
  }

  lemma {:induction false} BoolValue(c: Setup, on: bool, u: User, s: Sym, v: Values)
    requires c.info(s).kind == Bool && c.info(s).special.None? && c.info(s).choice.None?
    ensures var t := PlainTri(c, on, u, s, v);
            ValueOf(c, on, u, s, v) == TriString(if t == MOD then YES else t)
  {
  }

  /** Whether modules are on makes no difference to MODULES itself. */
  lemma {:induction false} PlainModulesValue(c: Setup, rank: Sym -> nat, u: User, v: Values)
    requires ModulesPlain(c, rank) && c.modules.Some? && UserValid(c, u) && SpecialsFixed(c, v)
    ensures ValueOf(c, true, u, c.modules.value, v) == ValueOf(c, false, u, c.modules.value, v)
  {
    PlainModulesTri(c, rank, u, v);
    BoolValue(c, true, u, c.modules.value, v);
    BoolValue(c, false, u, c.modules.value, v);
  }

  ghost predicate Legit(c: Setup, rank: Sym -> nat) {
    && Ranked(c, rank)
    && ModulesPlain(c, rank)
    && Known(c)
  }

  /** The symbols listed by a choice belong to it. */
  ghost predicate ChoiceOwned(c: Setup, ch: Choice) {
    forall t | t in c.choice(ch).symbols :: c.info(t).choice == Some(ch)
  }

  /** Symbols that are not in the table are special and mention nothing. */
  ghost predicate Known(c: Setup) {
    && (forall s: Sym, t: Sym | Mentions(c, s, t) :: s in c.syms)
    && (forall s: Sym | s !in c.syms :: c.info(s).special.Some?)
    && (forall s: Sym | c.info(s).special.Some? :: c.info(s).choice.None?)
    && (forall ch: Choice :: ChoiceOwned(c, ch))
  }

  lemma {:induction false} SolutionFixesSpecials(c: Setup, on: bool, u: User, rank: Sym -> nat)
    ensures SpecialsFixed(c, Solution(c, on, u, rank))
  {
  }

  lemma {:induction false} ModulesOnMeaning(c: Setup, u: User, rank: Sym -> nat)
    requires Legit(c, rank) && UserValid(c, u) && c.modules.Some?
    ensures ModulesOn(c, u, rank) <==> Final(c, u, rank)(c.modules.value) == "y"
  {
    var m := c.modules.value;
    var v, w := Solution(c, true, u, rank), Solution(c, false, u, rank);
    SolutionSolves(c, true, u, rank);
    SolutionSolves(c, false, u, rank);
    assert Agree(rank, rank(m), v, w);
    ValueAgrees(c, true, u, u, rank, m, v, w);
    PlainModulesValue(c, rank, u, w);
    assert v(m) == ValueOf(c, true, u, m, v) && w(m) == ValueOf(c, false, u, m, w);
  }

  lemma {:induction false} ModulesOnUnchanged(c: Setup, u: User, x: User, rank: Sym -> nat)
    requires Legit(c, rank) && UserValid(c, u) && UserValid(c, x)
    requires c.modules.Some? ==> SameSymbol(u, x, c.modules.value)
    ensures ModulesOn(c, u, rank) == ModulesOn(c, x, rank)
  {
    if c.modules.Some? {
      var m := c.modules.value;
      var v, w := Solution(c, false, u, rank), Solution(c, false, x, rank);
      SolutionSolves(c, false, u, rank);
      SolutionSolves(c, false, x, rank);
      assert Agree(rank, rank(m), v, w);
      ValueAgrees(c, false, u, x, rank, m, v, w);
      assert v(m) == ValueOf(c, false, u, m, v) && w(m) == ValueOf(c, false, x, m, w);
    }
  }

  // What a change reaches

  predicate Siblings(c: Setup, t: Sym, s: Sym) {
    c.info(t).choice.Some? && s in c.choice(c.info(t).choice.value).symbols
  }

  /** A change of `t` may change `s` directly. */
  ghost predicate Influences(c: Setup, t: Sym, s: Sym) {
    s in c.syms && (Mentions(c, s, t) || Siblings(c, t, s))
  }

  ghost predicate Closed(c: Setup, changed: set<Sym>) {
    forall t, s | t in changed && Influences(c, t, s) :: s in changed
  }

  function Lifted(rank: Sym -> nat, changed: set<Sym>, n: nat): Sym -> nat {
    (t: Sym) => if t in changed then rank(t) + n else rank(t)
  }

  lemma {:induction false} CondLifted(c: Setup, rank: Sym -> nat, changed: set<Sym>, n: nat, s: Sym, e: Option<KExpr>)
    requires Closed(c, changed) && Known(c) && CondUnder(rank, e, rank(s))
    requires forall t | t in CondSyms(e) :: Mentions(c, s, t)
    ensures CondUnder(Lifted(rank, changed, n), e, Lifted(rank, changed, n)(s))
  {
    var lifted := Lifted(rank, changed, n);
    CondUnderMeansSyms(rank, e, rank(s));
    forall t | t in CondSyms(e) ensures lifted(t) < lifted(s) {
      assert Influences(c, t, s);
    }
    CondUnderMeansSyms(lifted, e, lifted(s));
  }

  lemma {:induction false} OperandLifted(c: Setup, rank: Sym -> nat, changed: set<Sym>, n: nat, s: Sym, o: Operand)
    requires Closed(c, changed) && Known(c) && OperandUnder(rank, o, rank(s))
    requires forall t | t in OperandSyms(o) :: Mentions(c, s, t)
    ensures OperandUnder(Lifted(rank, changed, n), o, Lifted(rank, changed, n)(s))
  {
    if o.SymbolRef? {
      assert o.sym in OperandSyms(o);
      assert Influences(c, o.sym, s);
    }
  }

  lemma {:induction false} ListsLifted(c: Setup, rank: Sym -> nat, changed: set<Sym>, n: nat, s: Sym)
    requires Closed(c, changed) && Known(c) && SymbolUnder(c, rank, s)
    ensures var lifted := Lifted(rank, changed, n);
            && PromptsUnder(lifted, c.info(s).prompts, lifted(s))
            && DefaultsUnder(lifted, c.info(s).defaults, lifted(s))
            && RangesUnder(lifted, c.info(s).ranges, lifted(s))
            && ExprUnder(lifted, c.info(s).revDep, lifted(s))
  {
    var info := c.info(s);
    var lifted := Lifted(rank, changed, n);
    forall i | 0 <= i < |info.prompts| ensures CondUnder(lifted, info.prompts[i], lifted(s)) {
      CondLifted(c, rank, changed, n, s, info.prompts[i]);
    }
    forall i | 0 <= i < |info.defaults|
      ensures ExprUnder(lifted, info.defaults[i].0, lifted(s)) && CondUnder(lifted, info.defaults[i].1, lifted(s))
    {
      CondLifted(c, rank, changed, n, s, Some(info.defaults[i].0));
      CondLifted(c, rank, changed, n, s, info.defaults[i].1);
    }
    forall i | 0 <= i < |info.ranges|
      ensures BoundsUnder(lifted, info.ranges[i].0, lifted(s)) && CondUnder(lifted, info.ranges[i].1, lifted(s))
    {
      assert BoundsUnder(rank, info.ranges[i].0, rank(s));
      assert forall t | t in RangeSyms(info.ranges[i]) :: Mentions(c, s, t);
      OperandLifted(c, rank, changed, n, s, info.ranges[i].0.0);
      OperandLifted(c, rank, changed, n, s, info.ranges[i].0.1);
      CondLifted(c, rank, changed, n, s, info.ranges[i].1);
    }
    CondLifted(c, rank, changed, n, s, Some(info.revDep));
  }

  lemma {:induction false} ChoiceLifted(c: Setup, rank: Sym -> nat, changed: set<Sym>, n: nat, s: Sym, ch: Choice)
    requires Closed(c, changed) && Known(c) && SymbolUnder(c, rank, s) && c.info(s).choice == Some(ch)
    ensures ChoiceUnder(c, Lifted(rank, changed, n), ch, Lifted(rank, changed, n)(s))
  {
    var info := c.choice(ch);
    var lifted := Lifted(rank, changed, n);
    forall i | 0 <= i < |info.prompts| ensures CondUnder(lifted, info.prompts[i], lifted(s)) {
      CondLifted(c, rank, changed, n, s, info.prompts[i]);
    }
    forall i | 0 <= i < |info.defaults| ensures CondUnder(lifted, info.defaults[i].1, lifted(s)) {
      CondLifted(c, rank, changed, n, s, info.defaults[i].1);
    }
    forall t | t in info.symbols ensures lifted(t) == lifted(s) {
      assert c.info(t).special.None? && c.info(s).special.None?;
      assert s in changed ==> Influences(c, s, t);
      assert t in changed ==> Influences(c, t, s);
    }
  }

  /** Raising everything a change reaches keeps the order of dependencies. */
  lemma {:induction false} LiftedRanked(c: Setup, rank: Sym -> nat, changed: set<Sym>, n: nat)
    requires Closed(c, changed) && Known(c) && Ranked(c, rank)
    ensures Ranked(c, Lifted(rank, changed, n))
  {
    forall s: Sym ensures SymbolUnder(c, Lifted(rank, changed, n), s) {
      assert SymbolUnder(c, rank, s);
      ListsLifted(c, rank, changed, n, s);
      if c.info(s).choice.Some? {
        ChoiceLifted(c, rank, changed, n, s, c.info(s).choice.value);
      }
    }
  }

  /** Two users who differ only within `changed`, a set closed under influence. */
  ghost predicate SameOutside(c: Setup, u: User, x: User, changed: set<Sym>) {
    && Closed(c, changed)
    && forall t: Sym | t !in changed :: SameFor(c, u, x, t)
  }

  // The results outside a closed set, computed again

  /** Whether modules will be on, from current values: MODULES depends on no other ordinary symbol. */
  predicate ModulesAfter(c: Setup, x: User, v: Values) {
    c.modules.Some? && ValueOf(c, false, x, c.modules.value, v) == "y"
  }

  lemma {:induction false} ModulesAfterMeaning(c: Setup, u: User, x: User, rank: Sym -> nat)
    requires Legit(c, rank) && UserValid(c, u) && UserValid(c, x)
    ensures ModulesAfter(c, x, Final(c, u, rank)) <==> ModulesOn(c, x, rank)
  {
    if c.modules.Some? {
      var m := c.modules.value;
      var v, w := Final(c, u, rank), Solution(c, false, x, rank);
      SolutionSolves(c, false, x, rank);
      assert Agree(rank, rank(m), v, w);
      ValueAgrees(c, false, x, x, rank, m, v, w);
      assert w(m) == ValueOf(c, false, x, m, w);
    }
  }

  predicate SettledChoice(c: Setup, on: bool, now: bool, u: User, x: User, v: Values, ch: Choice) {
    && ChoiceVisibility(c, now, ch, v) == ChoiceVisibility(c, on, ch, v)
    && Selection(c, now, x, ch, v) == Selection(c, on, u, ch, v)
  }

  /** From current values, what is computed for the symbol and its choice after the change is what it was before. */
  predicate Settled(c: Setup, on: bool, now: bool, u: User, x: User, v: Values, s: Sym) {
    && ValueOf(c, now, x, s, v) == v(s)
    && Visibility(c, now, s, v) == Visibility(c, on, s, v)
    && (c.info(s).choice.Some? ==> SettledChoice(c, on, now, u, x, v, c.info(s).choice.value))
  }

  predicate SettledOutside(c: Setup, on: bool, now: bool, u: User, x: User, v: Values, changed: set<Sym>) {
    forall s | s in c.syms && s !in changed && c.info(s).special.None? :: Settled(c, on, now, u, x, v, s)
  }

  /** Nothing outside a closed set depends on values inside it. */
  lemma {:induction false} OutsideAgrees(c: Setup, now: bool, x: User, rank: Sym -> nat, changed: set<Sym>,
                                         v: Values, w: Values, s: Sym)
    requires Ranked(c, rank) && Known(c) && SelectionsValid(c, x) && Closed(c, changed) && s !in changed
    requires Agree(Lifted(rank, changed, rank(s) + 1), rank(s), v, w)
    ensures ValueOf(c, now, x, s, v) == ValueOf(c, now, x, s, w)
    ensures Visibility(c, now, s, v) == Visibility(c, now, s, w)
    ensures c.info(s).choice.Some? ==>
              var ch := c.info(s).choice.value;
              && ChoiceVisibility(c, now, ch, v) == ChoiceVisibility(c, now, ch, w)
              && Selection(c, now, x, ch, v) == Selection(c, now, x, ch, w)
  {
    var lifted := Lifted(rank, changed, rank(s) + 1);
    LiftedRanked(c, rank, changed, rank(s) + 1);
    assert lifted(s) == rank(s) && SymbolUnder(c, lifted, s);
    ValueAgrees(c, now, x, x, lifted, s, v, w);
    VisibilityAgrees(c, now, lifted, s, v, w);
    if c.info(s).choice.Some? {
      var ch := c.info(s).choice.value;
      ModeAgrees(c, now, x, x, lifted, ch, rank(s), v, w);
      SelectionAgrees(c, now, x, x, lifted, ch, rank(s), v, w);
    }
  }

  /** If no symbol outside a closed set would change at once, none changes at all. */
  lemma {:induction false} SolutionsAgree(c: Setup, on: bool, now: bool, u: User, x: User, rank: Sym -> nat,
                                          changed: set<Sym>, v: Values, w: Values, s: Sym)
    requires Ranked(c, rank) && Known(c) && SelectionsValid(c, x) && Closed(c, changed)
    requires SpecialsFixed(c, v) && Solves(c, now, x, w)
    requires SettledOutside(c, on, now, u, x, v, changed) && s !in changed
    ensures v(s) == w(s)
    decreases rank(s)
  {
    forall t: Sym | Lifted(rank, changed, rank(s) + 1)(t) < rank(s) ensures v(t) == w(t) {
      SolutionsAgree(c, on, now, u, x, rank, changed, v, w, t);
    }
    OutsideAgrees(c, now, x, rank, changed, v, w, s);
    assert w(s) == ValueOf(c, now, x, s, w);
    if c.info(s).special.None? {
      assert Settled(c, on, now, u, x, v, s);
    }
  }

  // The caches

  datatype Cache = Cache(values: map<Sym, string>, visible: map<Sym, Tri>,
                         choiceVisible: map<Choice, Tri>, selection: map<Choice, Option<Sym>>)

  const NOTHING := Cache(map[], map[], map[], map[])

  /** The visibility of a special symbol is never invalidated; see `LeftoversIff`. */
  ghost predicate SymbolCoherent(c: Setup, on: bool, v: Values, cache: Cache, s: Sym) {
    && (s in cache.values ==> cache.values[s] == v(s))
    && (s in cache.visible && c.info(s).special.None? ==> cache.visible[s] == Visibility(c, on, s, v))
  }

  /** The visibility of a choice without symbols of its own is never invalidated; see `LeftoversIff`. */
  ghost predicate ChoiceCoherent(c: Setup, on: bool, u: User, v: Values, cache: Cache, ch: Choice) {
    && (ch in cache.choiceVisible && c.choice(ch).symbols != [] ==>
          cache.choiceVisible[ch] == ChoiceVisibility(c, on, ch, v))
    && (ch in cache.selection ==> cache.selection[ch] == Selection(c, on, u, ch, v))
  }

  /** Every cached result is what it would be from scratch. */
  ghost predicate Coherent(c: Setup, u: User, rank: Sym -> nat, cache: Cache) {
    var on := ModulesOn(c, u, rank);
    var v := Final(c, u, rank);
    && (forall s: Sym :: SymbolCoherent(c, on, v, cache, s))
    && (forall ch: Choice :: ChoiceCoherent(c, on, u, v, cache, ch))
  }

  predicate Invalidates(c: Setup, dropped: set<Sym>, s: Sym) {
    s in dropped && c.info(s).special.None?
  }

  predicate InvalidatesChoice(c: Setup, dropped: set<Sym>, ch: Choice) {
    exists s | s in dropped :: c.info(s).special.None? && c.info(s).choice == Some(ch)
  }

  /** The caches after `_invalidate` of every symbol in `dropped`. */
  function Without(c: Setup, cache: Cache, dropped: set<Sym>): Cache {
    Cache(map s | s in cache.values && !Invalidates(c, dropped, s) :: cache.values[s],
          map s | s in cache.visible && !Invalidates(c, dropped, s) :: cache.visible[s],
          map ch | ch in cache.choiceVisible && !InvalidatesChoice(c, dropped, ch) :: cache.choiceVisible[ch],
          map ch | ch in cache.selection && !InvalidatesChoice(c, dropped, ch) :: cache.selection[ch])
  }

  // Which changes of user values the invalidation of a set of symbols is enough for

  ghost function VisibilityFor(c: Setup, u: User, rank: Sym -> nat, s: Sym): Tri {
    Visibility(c, ModulesOn(c, u, rank), s, Final(c, u, rank))
  }

  ghost function ChoiceVisibilityFor(c: Setup, u: User, rank: Sym -> nat, ch: Choice): Tri {
    ChoiceVisibility(c, ModulesOn(c, u, rank), ch, Final(c, u, rank))
  }

  ghost function SelectionFor(c: Setup, u: User, rank: Sym -> nat, ch: Choice): Option<Sym> {
    Selection(c, ModulesOn(c, u, rank), u, ch, Final(c, u, rank))
  }

  ghost predicate SameResult(c: Setup, u: User, x: User, rank: Sym -> nat, s: Sym) {
    && Final(c, u, rank)(s) == Final(c, x, rank)(s)
    && (c.info(s).special.None? ==> VisibilityFor(c, u, rank, s) == VisibilityFor(c, x, rank, s))
  }

  ghost predicate SameChoiceResult(c: Setup, u: User, x: User, rank: Sym -> nat, ch: Choice) {
    && (c.choice(ch).symbols != [] ==> ChoiceVisibilityFor(c, u, rank, ch) == ChoiceVisibilityFor(c, x, rank, ch))
    && SelectionFor(c, u, rank, ch) == SelectionFor(c, x, rank, ch)
  }

  /** No result from scratch changes except those of symbols in `dropped` and of their choices. */
  ghost predicate Contained(c: Setup, u: User, x: User, rank: Sym -> nat, dropped: set<Sym>) {
    && (forall s: Sym | !Invalidates(c, dropped, s) :: SameResult(c, u, x, rank, s))
    && (forall ch: Choice | !InvalidatesChoice(c, dropped, ch) :: SameChoiceResult(c, u, x, rank, ch))
  }

  lemma {:induction false} ContainedKeepsCoherence(c: Setup, u: User, x: User, rank: Sym -> nat, cache: Cache, dropped: set<Sym>)
    requires Contained(c, u, x, rank, dropped) && Coherent(c, u, rank, cache)
    ensures Coherent(c, x, rank, Without(c, cache, dropped))
  {
    var after := Without(c, cache, dropped);
    forall s: Sym ensures SymbolCoherent(c, ModulesOn(c, x, rank), Final(c, x, rank), after, s) {
      assert SymbolCoherent(c, ModulesOn(c, u, rank), Final(c, u, rank), cache, s);
      assert !Invalidates(c, dropped, s) ==> SameResult(c, u, x, rank, s);
    }
    forall ch: Choice ensures ChoiceCoherent(c, ModulesOn(c, x, rank), x, Final(c, x, rank), after, ch) {
      assert ChoiceCoherent(c, ModulesOn(c, u, rank), u, Final(c, u, rank), cache, ch);
      assert !InvalidatesChoice(c, dropped, ch) ==> SameChoiceResult(c, u, x, rank, ch);
    }
  }

  ghost function RememberingSymbol(c: Setup, u: User, rank: Sym -> nat, s: Sym): Cache {
    NOTHING.(values := map[s := Final(c, u, rank)(s)], visible := map[s := VisibilityFor(c, u, rank, s)])
  }

  ghost function RememberingChoice(c: Setup, u: User, rank: Sym -> nat, ch: Choice): Cache {
    NOTHING.(choiceVisible := map[ch := ChoiceVisibilityFor(c, u, rank, ch)],
             selection := map[ch := SelectionFor(c, u, rank, ch)])
  }

  /** A result that changes and is not dropped is stale afterwards if it had been cached. */
  lemma {:induction false} SymbolGoesStale(c: Setup, u: User, x: User, rank: Sym -> nat, dropped: set<Sym>, s: Sym)
    requires !Invalidates(c, dropped, s) && !SameResult(c, u, x, rank, s)
    ensures Coherent(c, u, rank, RememberingSymbol(c, u, rank, s))
    ensures !Coherent(c, x, rank, Without(c, RememberingSymbol(c, u, rank, s), dropped))
  {
    var after := Without(c, RememberingSymbol(c, u, rank, s), dropped);
    assert !SymbolCoherent(c, ModulesOn(c, x, rank), Final(c, x, rank), after, s);
  }

  lemma {:induction false} ChoiceGoesStale(c: Setup, u: User, x: User, rank: Sym -> nat, dropped: set<Sym>, ch: Choice)
    requires !InvalidatesChoice(c, dropped, ch) && !SameChoiceResult(c, u, x, rank, ch)
    ensures Coherent(c, u, rank, RememberingChoice(c, u, rank, ch))
    ensures !Coherent(c, x, rank, Without(c, RememberingChoice(c, u, rank, ch), dropped))
  {
    var after := Without(c, RememberingChoice(c, u, rank, ch), dropped);
    assert !ChoiceCoherent(c, ModulesOn(c, x, rank), x, Final(c, x, rank), after, ch);
  }

  /** Whatever is cached, dropping the results of these symbols leaves only right ones. */
  ghost predicate Suffices(c: Setup, u: User, x: User, rank: Sym -> nat, dropped: set<Sym>) {
    forall cache: Cache | Coherent(c, u, rank, cache) :: Coherent(c, x, rank, Without(c, cache, dropped))
  }

  lemma {:induction false} SufficesMeansContained(c: Setup, u: User, x: User, rank: Sym -> nat, dropped: set<Sym>)
    ensures Suffices(c, u, x, rank, dropped) <==> Contained(c, u, x, rank, dropped)
  {
    if Contained(c, u, x, rank, dropped) {
      forall cache: Cache | Coherent(c, u, rank, cache) ensures Coherent(c, x, rank, Without(c, cache, dropped)) {
        ContainedKeepsCoherence(c, u, x, rank, cache, dropped);
      }
    } else if s: Sym :| !Invalidates(c, dropped, s) && !SameResult(c, u, x, rank, s) {
      SymbolGoesStale(c, u, x, rank, dropped, s);
    } else {
      var ch: Choice :| !InvalidatesChoice(c, dropped, ch) && !SameChoiceResult(c, u, x, rank, ch);
      ChoiceGoesStale(c, u, x, rank, dropped, ch);
    }
  }

  /** Nothing can be selected where there is nothing to select. */
  lemma {:induction false} EmptyChoiceSelectsNothing(c: Setup, on: bool, u: User, ch: Choice, v: Values)
    requires SelectionsValid(c, u) && c.choice(ch).symbols == []
    ensures Selection(c, on, u, ch, v) == None
  {
  }

  /** A change from `u` to `x` settles what lies outside `changed`; only results under `u` are used. */
  ghost predicate Settles(c: Setup, u: User, x: User, rank: Sym -> nat, changed: set<Sym>) {
    var v := Final(c, u, rank);
    SettledOutside(c, ModulesOn(c, u, rank), ModulesAfter(c, x, v), u, x, v, changed)
  }

  lemma {:induction false} SettledSymbol(c: Setup, u: User, x: User, rank: Sym -> nat, changed: set<Sym>, s: Sym)
    requires Legit(c, rank) && UserValid(c, u) && UserValid(c, x) && Closed(c, changed)
    requires Settles(c, u, x, rank, changed) && s !in changed
    ensures SameResult(c, u, x, rank, s)
    ensures c.info(s).choice.Some? ==> SameChoiceResult(c, u, x, rank, c.info(s).choice.value)
  {
    var on, now := ModulesOn(c, u, rank), ModulesOn(c, x, rank);
    var v, w := Solution(c, on, u, rank), Solution(c, now, x, rank);
    ModulesAfterMeaning(c, u, x, rank);
    SolutionSolves(c, now, x, rank);
    assert Final(c, u, rank) == v && Final(c, x, rank) == w;
    forall t: Sym | t !in changed ensures v(t) == w(t) {
      SolutionsAgree(c, on, now, u, x, rank, changed, v, w, t);
    }
    OutsideAgrees(c, now, x, rank, changed, v, w, s);
    if c.info(s).special.None? {
      assert Settled(c, on, now, u, x, v, s);
    }
  }

  lemma {:induction false} SettledIsContained(c: Setup, u: User, x: User, rank: Sym -> nat, changed: set<Sym>)
    requires Legit(c, rank) && UserValid(c, u) && UserValid(c, x) && Closed(c, changed)
    requires Settles(c, u, x, rank, changed)
    ensures Contained(c, u, x, rank, changed)
  {
    forall s: Sym | !Invalidates(c, changed, s) ensures SameResult(c, u, x, rank, s) {
      if s !in changed {
        SettledSymbol(c, u, x, rank, changed, s);
      }
    }
    forall ch: Choice | !InvalidatesChoice(c, changed, ch) ensures SameChoiceResult(c, u, x, rank, ch) {
      if c.choice(ch).symbols == [] {
        EmptyChoiceSelectsNothing(c, ModulesOn(c, u, rank), u, ch, Final(c, u, rank));
        EmptyChoiceSelectsNothing(c, ModulesOn(c, x, rank), x, ch, Final(c, x, rank));
      } else {
        var s := c.choice(ch).symbols[0];
        assert ChoiceOwned(c, ch);
        assert s in c.choice(ch).symbols && c.info(s).choice == Some(ch) && c.info(s).special.None?;
        SettledSymbol(c, u, x, rank, changed, s);
      }
    }
  }

  lemma {:induction false} ContainedIsSettled(c: Setup, u: User, x: User, rank: Sym -> nat, changed: set<Sym>)
    requires Legit(c, rank) && UserValid(c, u) && UserValid(c, x) && Closed(c, changed)
    requires Contained(c, u, x, rank, changed)
    ensures Settles(c, u, x, rank, changed)
  {
    var on, now := ModulesOn(c, u, rank), ModulesOn(c, x, rank);
    var v, w := Final(c, u, rank), Final(c, x, rank);
    ModulesAfterMeaning(c, u, x, rank);
    SolutionSolves(c, now, x, rank);
    forall s: Sym | s in c.syms && s !in changed && c.info(s).special.None? ensures Settled(c, on, now, u, x, v, s) {
      forall t: Sym | t !in changed ensures v(t) == w(t) {
        assert SameResult(c, u, x, rank, t);
      }
      OutsideAgrees(c, now, x, rank, changed, v, w, s);
      assert SameResult(c, u, x, rank, s) && Solution(c, now, x, rank)(s) == w(s);
      if c.info(s).choice.Some? {
        OutsideIsWhole(c, rank, changed, s);
        assert SameChoiceResult(c, u, x, rank, c.info(s).choice.value);
      }
    }
  }

  /** A closed set contains all symbols of a choice or none. */
  lemma {:induction false} OutsideIsWhole(c: Setup, rank: Sym -> nat, changed: set<Sym>, s: Sym)
    requires Ranked(c, rank) && Known(c) && Closed(c, changed) && s !in changed && c.info(s).choice.Some?
    ensures !InvalidatesChoice(c, changed, c.info(s).choice.value)
    ensures c.choice(c.info(s).choice.value).symbols != []
  {
    assert SymbolUnder(c, rank, s);
    forall t | t in changed ensures c.info(t).choice != c.info(s).choice {
      assert !Influences(c, t, s);
    }
  }

  /**
   * Invalidation of a closed set is enough for every cache if and only if, from the current values, every symbol
   * outside it would be computed as it is. No value after the change is needed to tell.
   */
  lemma {:induction false} SufficesIff(c: Setup, u: User, x: User, rank: Sym -> nat, changed: set<Sym>)
    requires Legit(c, rank) && UserValid(c, u) && UserValid(c, x) && Closed(c, changed)
    ensures Suffices(c, u, x, rank, changed) <==> Settles(c, u, x, rank, changed)
  {
    SufficesMeansContained(c, u, x, rank, changed);
    if Settles(c, u, x, rank, changed) {
      SettledIsContained(c, u, x, rank, changed);
    } else if Contained(c, u, x, rank, changed) {
      ContainedIsSettled(c, u, x, rank, changed);
    }
  }

  /** A change that leaves modules on or off settles what it does not reach. */
  lemma {:induction false} SameModulesSettles(c: Setup, u: User, x: User, rank: Sym -> nat, changed: set<Sym>)
    requires Legit(c, rank) && UserValid(c, u) && UserValid(c, x) && SameOutside(c, u, x, changed)
    requires ModulesOn(c, u, rank) == ModulesOn(c, x, rank)
    ensures Settles(c, u, x, rank, changed)
  {
    var on, v := ModulesOn(c, u, rank), Solution(c, ModulesOn(c, u, rank), u, rank);
    ModulesAfterMeaning(c, u, x, rank);
    SolutionSolves(c, on, u, rank);
    assert Final(c, u, rank) == v;
    forall s: Sym | s in c.syms && s !in changed && c.info(s).special.None? ensures Settled(c, on, on, u, x, v, s) {
      assert SymbolUnder(c, rank, s);
      ValueAgrees(c, on, u, x, rank, s, v, v);
      if c.info(s).choice.Some? {
        SelectionAgrees(c, on, u, x, rank, c.info(s).choice.value, rank(s), v, v);
      }
    }
  }

  /** Dropping everything the change reaches keeps the caches coherent as long as MODULES stays as it was. */
  lemma {:induction false} InvalidationKeepsCoherence(c: Setup, u: User, x: User, rank: Sym -> nat, cache: Cache, changed: set<Sym>)
    requires Legit(c, rank) && UserValid(c, u) && UserValid(c, x) && Coherent(c, u, rank, cache)
    requires SameOutside(c, u, x, changed) && ModulesOn(c, u, rank) == ModulesOn(c, x, rank)
    ensures Coherent(c, x, rank, Without(c, cache, changed))
  {
    SameModulesSettles(c, u, x, rank, changed);
    SettledIsContained(c, u, x, rank, changed);
    ContainedKeepsCoherence(c, u, x, rank, cache, changed);
  }

  /** A choice with symbols of its own is invalidated with them, and one without never is. */
  lemma {:induction false} OnlyEmptyChoicesStay(c: Setup, rank: Sym -> nat, ch: Choice)
    requires Legit(c, rank)
    ensures InvalidatesChoice(c, c.syms, ch) <==> c.choice(ch).symbols != []
    ensures forall dropped: set<Sym> :: InvalidatesChoice(c, dropped, ch) ==> c.choice(ch).symbols != []
  {
    assert ChoiceOwned(c, ch);
    if c.choice(ch).symbols != [] {
      var s := c.choice(ch).symbols[0];
      assert s in c.syms && c.info(s).special.None? && c.info(s).choice == Some(ch);
    }
    forall dropped: set<Sym> | InvalidatesChoice(c, dropped, ch) ensures c.choice(ch).symbols != [] {
      var s :| s in dropped && c.info(s).special.None? && c.info(s).choice == Some(ch);
      assert SymbolUnder(c, rank, s);
    }
  }

  /** Every symbol that has results of its own is in the table. */
  lemma {:induction false} AllDropped(c: Setup, u: User, x: User, rank: Sym -> nat)
    requires Legit(c, rank) && UserValid(c, u) && UserValid(c, x)
    ensures Contained(c, u, x, rank, c.syms)
  {
    var v, w := Final(c, u, rank), Final(c, x, rank);
    SolutionFixesSpecials(c, ModulesOn(c, u, rank), u, rank);
    SolutionFixesSpecials(c, ModulesOn(c, x, rank), x, rank);
    forall ch: Choice | !InvalidatesChoice(c, c.syms, ch) ensures SameChoiceResult(c, u, x, rank, ch) {
      OnlyEmptyChoicesStay(c, rank, ch);
      EmptyChoiceSelectsNothing(c, ModulesOn(c, u, rank), u, ch, v);
      EmptyChoiceSelectsNothing(c, ModulesOn(c, x, rank), x, ch, w);
    }
  }

  /** Dropping every symbol's results leaves nothing that could be wrong, whatever the user changes. */
  lemma {:induction false} FullInvalidation(c: Setup, u: User, x: User, rank: Sym -> nat, cache: Cache)
    requires Legit(c, rank) && UserValid(c, u) && UserValid(c, x) && Coherent(c, u, rank, cache)
    ensures Coherent(c, x, rank, Without(c, cache, c.syms))
  {
    AllDropped(c, u, x, rank);
    ContainedKeepsCoherence(c, u, x, rank, cache, c.syms);
  }

  // Results that no invalidation reaches

  /** The cached visibilities of special symbols and of choices without symbols of their own are right. */
  ghost predicate LeftoversCoherent(c: Setup, u: User, rank: Sym -> nat, cache: Cache) {
    && (forall s: Sym | s in cache.visible && c.info(s).special.Some? :: cache.visible[s] == VisibilityFor(c, u, rank, s))
    && (forall ch: Choice | ch in cache.choiceVisible && c.choice(ch).symbols == [] ::
          cache.choiceVisible[ch] == ChoiceVisibilityFor(c, u, rank, ch))
  }

  ghost predicate SameLeftovers(c: Setup, u: User, x: User, rank: Sym -> nat) {
    && (forall s: Sym | c.info(s).special.Some? :: VisibilityFor(c, u, rank, s) == VisibilityFor(c, x, rank, s))
    && (forall ch: Choice | c.choice(ch).symbols == [] ::
          ChoiceVisibilityFor(c, u, rank, ch) == ChoiceVisibilityFor(c, x, rank, ch))
  }

  ghost predicate LeftoversStay(c: Setup, u: User, x: User, rank: Sym -> nat, dropped: set<Sym>) {
    forall cache: Cache | LeftoversCoherent(c, u, rank, cache) ::
      LeftoversCoherent(c, x, rank, Without(c, cache, dropped))
  }

  lemma {:induction false} SameLeftoversStay(c: Setup, u: User, x: User, rank: Sym -> nat, dropped: set<Sym>)
    requires SameLeftovers(c, u, x, rank)
    ensures LeftoversStay(c, u, x, rank, dropped)
  {
  }

  lemma {:induction false} SpecialGoesStale(c: Setup, u: User, x: User, rank: Sym -> nat, dropped: set<Sym>, s: Sym)
    requires c.info(s).special.Some? && VisibilityFor(c, u, rank, s) != VisibilityFor(c, x, rank, s)
    ensures !LeftoversStay(c, u, x, rank, dropped)
  {
    var vis := VisibilityFor(c, u, rank, s);
    var cache := NOTHING.(visible := map[s := vis]);
    assert LeftoversCoherent(c, u, rank, cache);
    var after := Without(c, cache, dropped);
    assert s in after.visible && after.visible[s] == vis;
  }

  lemma {:induction false} EmptyChoiceGoesStale(c: Setup, u: User, x: User, rank: Sym -> nat, dropped: set<Sym>, ch: Choice)
    requires Legit(c, rank) && c.choice(ch).symbols == []
    requires ChoiceVisibilityFor(c, u, rank, ch) != ChoiceVisibilityFor(c, x, rank, ch)
    ensures !LeftoversStay(c, u, x, rank, dropped)
  {
    var vis := ChoiceVisibilityFor(c, u, rank, ch);
    var cache := NOTHING.(choiceVisible := map[ch := vis]);
    OnlyEmptyChoicesStay(c, rank, ch);
    assert LeftoversCoherent(c, u, rank, cache);
    var after := Without(c, cache, dropped);
    assert ch in after.choiceVisible && after.choiceVisible[ch] == vis;
  }

  /** No matter which symbols are invalidated: these results stay right in every cache if and only if none changes. */
  lemma {:induction false} LeftoversIff(c: Setup, u: User, x: User, rank: Sym -> nat, dropped: set<Sym>)
    requires Legit(c, rank)
    ensures LeftoversStay(c, u, x, rank, dropped) <==> SameLeftovers(c, u, x, rank)
  {
    if SameLeftovers(c, u, x, rank) {
      SameLeftoversStay(c, u, x, rank, dropped);
    } else if s: Sym :| c.info(s).special.Some? && VisibilityFor(c, u, rank, s) != VisibilityFor(c, x, rank, s) {
      SpecialGoesStale(c, u, x, rank, dropped, s);
    } else {
      var ch: Choice :| c.choice(ch).symbols == [] && ChoiceVisibilityFor(c, u, rank, ch) != ChoiceVisibilityFor(c, x, rank, ch);
      EmptyChoiceGoesStale(c, u, x, rank, dropped, ch);
    }
  }

  /** A change that leaves modules alone and reaches no special symbol and no empty choice leaves their results alone. */
  lemma {:induction false} UnreachedLeftoversStay(c: Setup, u: User, x: User, rank: Sym -> nat, changed: set<Sym>)
    requires Legit(c, rank) && UserValid(c, u) && UserValid(c, x) && SameOutside(c, u, x, changed)
    requires ModulesOn(c, u, rank) == ModulesOn(c, x, rank)
    requires forall s | s in changed :: c.info(s).special.None?
    requires forall ch: Choice, t | c.choice(ch).symbols == [] && ChoiceMentions(c.choice(ch), t) :: t !in changed
    ensures SameLeftovers(c, u, x, rank)
  {
    var on, v, w := ModulesOn(c, u, rank), Final(c, u, rank), Final(c, x, rank);
    SameModulesSettles(c, u, x, rank, changed);
    forall t: Sym | t !in changed ensures v(t) == w(t) {
      SettledSymbol(c, u, x, rank, changed, t);
    }
    forall s: Sym | c.info(s).special.Some? ensures VisibilityFor(c, u, rank, s) == VisibilityFor(c, x, rank, s) {
      OutsideAgrees(c, on, x, rank, changed, v, w, s);
    }
    forall ch: Choice | c.choice(ch).symbols == []
      ensures ChoiceVisibilityFor(c, u, rank, ch) == ChoiceVisibilityFor(c, x, rank, ch)
    {
      PromptsOutsideAgree(c, on, c.choice(ch).prompts, changed, v, w);
    }
  }

  lemma {:induction false} PromptsOutsideAgree(c: Setup, on: bool, prompts: seq<Option<KExpr>>, changed: set<Sym>,
                                               v: Values, w: Values)
    requires forall t: Sym | t !in changed :: v(t) == w(t)
    requires forall t | InPrompts(prompts, t) :: t !in changed
    ensures PromptMax(c, on, prompts, v) == PromptMax(c, on, prompts, w)
  {
    var inside := (t: Sym) => if t in changed then 1 else 0;
    forall i | 0 <= i < |prompts| ensures CondUnder(inside, prompts[i], 1) {
      assert forall t | t in CondSyms(prompts[i]) :: InPrompts(prompts, t);
      CondUnderMeansSyms(inside, prompts[i], 1);
    }
    PromptsAgree(c, on, inside, prompts, 1, v, w);
  }

  /** Symbol 0 is bool; symbol 1, from the environment, and choice 0, without symbols, show a prompt when 0 is `y`. */
  const SHOWN_BY_0 := Setup({0, 1}, ShownInfo, (ch: Choice) => ChoiceInfo(Bool, false, if ch == 0 then SHOWN else [], [], []),
                            None, (text: string, base: int) => false, (text: string, base: int) => 0,
                            (n: int, base: int) => "")

  const SHOWN := [Some(Leaf(SymbolRef(0)))]

  function ShownInfo(s: Sym): SymInfo {
    if s == 0 then SymInfo("A", Bool, [None], [], [], Leaf(Text("n")), None, None)
    else SymInfo("ENV", StringKind, if s == 1 then SHOWN else [], [], [], Leaf(Text("n")), None, Some("text"))
  }

  const EXAMPLE_RANK := (s: Sym) => s

  lemma {:induction false} ShownLegit()
    ensures Legit(SHOWN_BY_0, EXAMPLE_RANK)
  {
    var c := SHOWN_BY_0;
    assert ExprSyms(Leaf(Text("n"))) == {};
    forall s: Sym, t: Sym | Mentions(c, s, t) ensures s in c.syms {
      assert s > 1 ==> !OwnMentions(c.info(s), t);
    }
  }

  lemma {:induction false} ShownValues(u: User, shown: Tri)
    requires shown != MOD && u.values == if shown == YES then map[0 := "y"] else map[]
    ensures Final(SHOWN_BY_0, u, EXAMPLE_RANK)(0) == TriString(shown)
  {
    var c, v := SHOWN_BY_0, Below(SHOWN_BY_0, false, u, EXAMPLE_RANK, 0);
    assert Visibility(c, false, 0, v) == YES;
    assert Cond(c, false, Some(c.info(0).revDep), v) == NO;
    assert PlainTri(c, false, u, 0, v) == shown;
    assert ValueOf(c, false, u, 0, v) == TriString(shown);
  }

  lemma {:induction false} ShownVisibilities(u: User, shown: Tri)
    requires shown != MOD && Final(SHOWN_BY_0, u, EXAMPLE_RANK)(0) == TriString(shown)
    ensures VisibilityFor(SHOWN_BY_0, u, EXAMPLE_RANK, 1) == shown
    ensures ChoiceVisibilityFor(SHOWN_BY_0, u, EXAMPLE_RANK, 0) == shown
  {
    var v := Final(SHOWN_BY_0, u, EXAMPLE_RANK);
    assert Cond(SHOWN_BY_0, false, SHOWN[0], v) == shown;
    assert PromptMax(SHOWN_BY_0, false, SHOWN, v) == shown;
  }

  /** Setting symbol 0 to `y` leaves both stale, whatever is invalidated. */
  lemma {:induction false} LeftoversMayGoStale(dropped: set<Sym>)
    ensures var c, u, x := SHOWN_BY_0, User(map[], map[], map[]), User(map[0 := "y"], map[], map[]);
            && Legit(c, EXAMPLE_RANK) && UserValid(c, u) && UserValid(c, x)
            && VisibilityFor(c, u, EXAMPLE_RANK, 1) != VisibilityFor(c, x, EXAMPLE_RANK, 1)
            && ChoiceVisibilityFor(c, u, EXAMPLE_RANK, 0) != ChoiceVisibilityFor(c, x, EXAMPLE_RANK, 0)
            && !LeftoversStay(c, u, x, EXAMPLE_RANK, dropped)
  {
    var u, x := User(map[], map[], map[]), User(map[0 := "y"], map[], map[]);
    ShownLegit();
    ShownValues(u, NO);
    ShownVisibilities(u, NO);
    ShownValues(x, YES);
    ShownVisibilities(x, YES);
    LeftoversIff(SHOWN_BY_0, u, x, EXAMPLE_RANK, dropped);
  }
}
