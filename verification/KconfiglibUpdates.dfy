/** `set_user_value` and `unset_user_value`: selective invalidation keeps every cached result right. */
module KconfiglibUpdates {
  import opened Wrappers
  import opened Tristate
  import opened KconfiglibExpr
  import opened KconfiglibSpec
  import opened KconfiglibSolution
  import opened KconfiglibMeaning
  import opened KconfiglibInvalidation
  import opened KconfiglibDependents
  import opened KconfiglibCache

  /** `_set_user_value_no_invalidate`: a value that is not valid for the symbol is ignored. */
  function SetUser(c: Setup, u: User, s: Sym, text: string): User {
    var info := c.info(s);
    if info.special.Some? || !ValidFor(c, info.kind, text) then u
    else
      var own := u.(values := u.values[s := text]);
      if info.choice.None? || !KconfiglibSpec.IsLogical(info.kind) then own
      else if text == "y" then
        own.(selected := own.selected[info.choice.value := s], mode := own.mode[info.choice.value := YES])
      else if text == "m" then
        own.(selected := own.selected - {info.choice.value}, mode := own.mode[info.choice.value := MOD])
      else own
  }

  function UnsetUser(c: Setup, u: User, s: Sym): User {
    var own := u.(values := u.values - {s});
    match c.info(s).choice
    case None => own
    case Some(ch) => own.(selected := own.selected - {ch}, mode := own.mode - {ch})
  }

  /**
   * A valid value replaces that of the symbol. In a choice y selects the symbol and m ends any selection. Nothing else
   * changes, and a value that is not valid changes nothing.
   */
  lemma {:induction false} SetUserMeaning(c: Setup, u: User, s: Sym, text: string)
    ensures var x, info := SetUser(c, u, s, text), c.info(s);
            var inChoice := info.choice.Some? && (info.kind == Bool || info.kind == TristateKind);
            if info.special.Some? || !ValidFor(c, info.kind, text) then x == u
            else
              && s in x.values && x.values[s] == text
              && (forall t: Sym | t != s :: SameSymbol(u, x, t))
              && (forall ch: Choice | info.choice != Some(ch) || !inChoice || text == "n" :: SameChoice(c, u, x, ch))
              && (inChoice && text == "y" ==>
                    var ch := info.choice.value;
                    ch in x.selected && x.selected[ch] == s && ch in x.mode && x.mode[ch] == YES)
              && (inChoice && text == "m" ==>
                    var ch := info.choice.value; ch !in x.selected && ch in x.mode && x.mode[ch] == MOD)
  {
  }

  /** Removing a user value removes what the user decided about the choice as well, and nothing else. */
  lemma {:induction false} UnsetUserMeaning(c: Setup, u: User, s: Sym)
    ensures var x := UnsetUser(c, u, s);
            && s !in x.values && (forall t: Sym | t != s :: SameSymbol(u, x, t))
            && (forall ch: Choice | c.info(s).choice != Some(ch) :: SameChoice(c, u, x, ch))
            && (c.info(s).choice.Some? ==> c.info(s).choice.value !in x.selected && c.info(s).choice.value !in x.mode)
  {
  }

  lemma {:induction false} ChosenSymbol(c: Setup, on: bool, x: User, s: Sym, ch: Choice, w: Values)
    requires ch in x.selected && x.selected[ch] == s && ch in x.mode && x.mode[ch] == YES
    requires Visibility(c, on, s, w) == YES && ChoiceVisibility(c, on, ch, w) == YES
    ensures Mode(c, on, x, ch, w) == YES && Selection(c, on, x, ch, w) == Some(s)
  {
    ModeMeaning(c, on, x, ch, YES);
    SelectionMeaning(c, on, x, ch, w);
  }

  /** Setting a symbol of a choice to y, if both are fully visible then, makes it y and every other symbol of the choice n. */
  lemma {:induction false} SelectingWins(c: Setup, on: bool, u: User, s: Sym, ch: Choice, w: Values, t: Sym)
    requires Solves(c, on, SetUser(c, u, s, "y"), w)
    requires c.info(s).choice == Some(ch) && c.info(s).special.None? && KconfiglibSpec.IsLogical(c.info(s).kind)
    requires c.info(t).choice == Some(ch) && c.info(t).special.None? && KconfiglibSpec.IsLogical(c.info(t).kind)
    requires Visibility(c, on, s, w) == YES && ChoiceVisibility(c, on, ch, w) == YES
    ensures w(t) == if t == s then "y" else "n"
  {
    var x := SetUser(c, u, s, "y");
    SetUserMeaning(c, u, s, "y");
    ChosenSymbol(c, on, x, s, ch, w);
    ChosenMeaning(c, on, x, t, w);
    assert w(t) == ValueOf(c, on, x, t, w) == TriString(TriValue(c, on, x, t, w));
  }

  lemma {:induction false} SetUserValid(c: Setup, rank: Sym -> nat, u: User, s: Sym, text: string)
    requires Ranked(c, rank) && UserValid(c, u)
    ensures UserValid(c, SetUser(c, u, s, text))
  {
    assert SymbolUnder(c, rank, s);
  }

  lemma {:induction false} UnsetUserValid(c: Setup, u: User, s: Sym)
    requires UserValid(c, u)
    ensures UserValid(c, UnsetUser(c, u, s))
  {
  }

  /** A user value of a symbol concerns only the symbol and, in a choice, its siblings. */
  lemma {:induction false} SetChangesInside(c: Setup, rank: Sym -> nat, u: User, s: Sym, text: string, reached: set<Sym>)
    requires Ranked(c, rank) && Known(c) && Closed(c, {s} + reached)
    ensures SameOutside(c, u, SetUser(c, u, s, text), {s} + reached)
  {
    forall t: Sym | t !in {s} + reached ensures SameFor(c, u, SetUser(c, u, s, text), t) {
      SiblingReached(c, rank, s, t, reached);
    }
  }

  lemma {:induction false} UnsetChangesInside(c: Setup, rank: Sym -> nat, u: User, s: Sym, reached: set<Sym>)
    requires Ranked(c, rank) && Known(c) && Closed(c, {s} + reached)
    ensures SameOutside(c, u, UnsetUser(c, u, s), {s} + reached)
  {
    forall t: Sym | t !in {s} + reached ensures SameFor(c, u, UnsetUser(c, u, s), t) {
      SiblingReached(c, rank, s, t, reached);
    }
  }

  lemma {:induction false} SiblingReached(c: Setup, rank: Sym -> nat, s: Sym, t: Sym, reached: set<Sym>)
    requires Ranked(c, rank) && Known(c) && Closed(c, {s} + reached)
    ensures c.info(s).choice.Some? && c.info(t).choice == c.info(s).choice ==> t in {s} + reached
  {
    assert SymbolUnder(c, rank, t);
    if c.info(s).choice.Some? && c.info(t).choice == c.info(s).choice {
      assert Influences(c, s, t);
    }
  }

  lemma {:induction false} InvalidatesEither(c: Setup, a: set<Sym>, b: set<Sym>)
    ensures forall s: Sym :: Invalidates(c, a + b, s) <==> Invalidates(c, a, s) || Invalidates(c, b, s)
    ensures forall ch: Choice :: InvalidatesChoice(c, a + b, ch) <==> InvalidatesChoice(c, a, ch) || InvalidatesChoice(c, b, ch)
  {
  }

  lemma {:induction false} WithoutTwice(c: Setup, cache: Cache, a: set<Sym>, b: set<Sym>)
    ensures Without(c, Without(c, cache, a), b) == Without(c, cache, a + b)
  {
    var twice, once := Without(c, Without(c, cache, a), b), Without(c, cache, a + b);
    InvalidatesEither(c, a, b);
    assert twice.values == once.values && twice.visible == once.visible;
    assert twice.choiceVisible == once.choiceVisible && twice.selection == once.selection;
  }

  lemma {:induction false} WithoutNone(c: Setup, cache: Cache)
    ensures Without(c, cache, {}) == cache
  {
  }

  /** `Symbol._invalidate`, with the choice the symbol is in. */
  method Invalidate(c: Setup, cache: Cache, s: Sym) returns (after: Cache)
    ensures after == Without(c, cache, {s})
  {
    after := cache;
    if c.info(s).special.Some? {
      assert forall ch: Choice :: !InvalidatesChoice(c, {s}, ch);
      return;
    }
    assert forall ch: Choice :: InvalidatesChoice(c, {s}, ch) <==> c.info(s).choice == Some(ch);
    if c.info(s).choice.Some? {
      var ch := c.info(s).choice.value;
      after := after.(choiceVisible := after.choiceVisible - {ch}, selection := after.selection - {ch});
    }
    after := after.(visible := after.visible - {s}, values := after.values - {s});
  }

  /** The loops over the symbols to invalidate. */
  method InvalidateSet(c: Setup, cache: Cache, dropped: set<Sym>) returns (after: Cache)
    ensures after == Without(c, cache, dropped)
  {
    after := cache;
    var todo := dropped;
    WithoutNone(c, cache);
    while todo != {}
      invariant todo <= dropped && after == Without(c, cache, dropped - todo)
    {
      var s :| s in todo;
      after := Invalidate(c, after, s);
      WithoutTwice(c, cache, dropped - todo, {s});
      assert dropped - (todo - {s}) == (dropped - todo) + {s};
      todo := todo - {s};
    }
    assert dropped - todo == dropped;
  }

  datatype Action = Get(s: Sym) | Set(s: Sym, text: string) | Unset(s: Sym)

  function UserStep(c: Setup, u: User, a: Action): User {
    match a
    case Get(_) => u
    case Set(s, text) => SetUser(c, u, s, text)
    case Unset(s) => UnsetUser(c, u, s)
  }

  lemma {:induction false} StepValid(c: Setup, rank: Sym -> nat, u: User, a: Action)
    requires Ranked(c, rank) && UserValid(c, u)
    ensures UserValid(c, UserStep(c, u, a))
  {
    if a.Set? {
      SetUserValid(c, rank, u, a.s, a.text);
    } else if a.Unset? {
      UnsetUserValid(c, u, a.s);
    }
  }

  lemma {:induction false} StepChangesInside(c: Setup, rank: Sym -> nat, u: User, a: Action, reached: set<Sym>)
    requires Ranked(c, rank) && Known(c) && !a.Get? && Closed(c, {a.s} + reached)
    ensures SameOutside(c, u, UserStep(c, u, a), {a.s} + reached)
  {
    if a.Set? {
      SetChangesInside(c, rank, u, a.s, a.text, reached);
    } else {
      UnsetChangesInside(c, rank, u, a.s, reached);
    }
  }

  /** Unless it is about MODULES, an action leaves modules on or off. */
  lemma {:induction false} StepKeepsModules(c: Setup, rank: Sym -> nat, u: User, a: Action)
    requires Legit(c, rank) && UserValid(c, u) && c.modules != Some(a.s)
    ensures ModulesOn(c, u, rank) == ModulesOn(c, UserStep(c, u, a), rank)
  {
    StepValid(c, rank, u, a);
    ModulesOnUnchanged(c, u, UserStep(c, u, a), rank);
  }

  /** Invalidating a symbol and all its change reaches is enough for an action on it that leaves modules on or off. */
  lemma {:induction false} StepKeepsCoherence(c: Setup, rank: Sym -> nat, u: User, a: Action, cache: Cache, reached: set<Sym>)
    requires Legit(c, rank) && UserValid(c, u) && Coherent(c, u, rank, cache)
    requires !a.Get? && Closed(c, {a.s} + reached)
    requires c.modules == Some(a.s) ==> ModulesOn(c, u, rank) == ModulesOn(c, UserStep(c, u, a), rank)
    ensures Coherent(c, UserStep(c, u, a), rank, Without(c, cache, {a.s} + reached))
  {
    StepValid(c, rank, u, a);
    StepChangesInside(c, rank, u, a, reached);
    if c.modules != Some(a.s) {
      StepKeepsModules(c, rank, u, a);
    }
    InvalidationKeepsCoherence(c, u, UserStep(c, u, a), rank, cache, {a.s} + reached);
  }

  /** The least set that contains a symbol and everything a change of a member may change. */
  ghost predicate IsReach(c: Setup, s: Sym, reach: set<Sym>) {
    s in reach && Closed(c, reach) && forall e: set<Sym> | Closed(c, e) && s in e :: reach <= e
  }

  lemma {:induction false} DependentsAreReach(c: Setup, s: Sym, reached: set<Sym>)
    requires IsDependents(c, s, reached)
    ensures IsReach(c, s, {s} + reached)
  {
  }

  /**
   * Computed from the values before the action, every symbol that the removal of the user value of MODULES does not
   * reach stays as it is. No other action needs this: `set_user_value` on MODULES invalidates everything.
   */
  ghost predicate StepSettles(c: Setup, rank: Sym -> nat, u: User, a: Action) {
    a.Unset? && c.modules == Some(a.s) ==>
      forall reach | IsReach(c, a.s, reach) :: Settles(c, u, UserStep(c, u, a), rank, reach)
  }

  /** Removing the user value of MODULES is harmless if the value of MODULES stays as it was. */
  lemma {:induction false} SameModulesHarmless(c: Setup, rank: Sym -> nat, u: User, a: Action)
    requires Legit(c, rank) && UserValid(c, u)
    requires c.modules == Some(a.s) ==>
               (Final(c, u, rank)(a.s) == "y" <==> Final(c, UserStep(c, u, a), rank)(a.s) == "y")
    ensures StepSettles(c, rank, u, a)
  {
    if a.Unset? && c.modules == Some(a.s) {
      var x := UserStep(c, u, a);
      StepValid(c, rank, u, a);
      ModulesOnMeaning(c, u, rank);
      ModulesOnMeaning(c, x, rank);
      forall reach | IsReach(c, a.s, reach) ensures Settles(c, u, x, rank, reach) {
        assert {a.s} + reach == reach;
        StepChangesInside(c, rank, u, a, reach);
        SameModulesSettles(c, u, x, rank, reach);
      }
    }
  }

  /** For every action that invalidates a reach: that is enough for every cache if and only if the step settles. */
  lemma {:induction false} StepSufficesIff(c: Setup, rank: Sym -> nat, u: User, a: Action, reach: set<Sym>)
    requires Legit(c, rank) && UserValid(c, u) && !a.Get? && IsReach(c, a.s, reach)
    requires a.Set? ==> c.modules != Some(a.s)
    ensures Suffices(c, u, UserStep(c, u, a), rank, reach) <==> StepSettles(c, rank, u, a)
  {
    StepValid(c, rank, u, a);
    SufficesIff(c, u, UserStep(c, u, a), rank, reach);
    if c.modules == Some(a.s) {
      assert forall e | IsReach(c, a.s, e) :: e == reach;
    } else {
      assert {a.s} + reach == reach;
      StepChangesInside(c, rank, u, a, reach);
      StepKeepsModules(c, rank, u, a);
      SameModulesSettles(c, u, UserStep(c, u, a), rank, reach);
    }
  }

  class Session {
    const config: Config
    const dependents: Dependents

    constructor (c: Setup, ghost rank: Sym -> nat, ghost top: nat)
      requires Legit(c, rank) && forall s | s in c.syms :: rank(s) <= top
      ensures config.c == c && config.rank == rank && Valid() && fresh(config) && fresh(dependents)
      ensures config.user == User(map[], map[], map[])
    {
      var first := new Config(c, rank);
      var second := new Dependents(c, rank, top);
      config, dependents := first, second;
    }

    ghost predicate Valid()
      reads this, config, dependents
    {
      config.Valid() && dependents.Valid() && dependents.c == config.c && dependents.rank == config.rank
    }

    /** Everything but the rightness of the caches. */
    ghost predicate Sound()
      reads this, config, dependents
    {
      config.Sound() && dependents.Valid() && dependents.c == config.c && dependents.rank == config.rank
    }

    /** `set_user_value`; `dropped` are the symbols invalidated. */
    method SetUserValue(s: Sym, text: string) returns (ghost dropped: set<Sym>)
      requires Valid()
      modifies config, dependents
      ensures Valid() && config.user == SetUser(config.c, old(config.user), s, text)
      ensures config.cache == Without(config.c, old(config.cache), dropped)
      ensures if config.c.modules == Some(s) then dropped == config.c.syms else IsReach(config.c, s, dropped)
    {
      if config.c.modules == Some(s) {
        SetModules(s, text);
        dropped := config.c.syms;
      } else {
        dropped := ChangeAndInvalidate(Set(s, text));
      }
    }

    /** A new value of MODULES invalidates everything. */
    method SetModules(s: Sym, text: string)
      requires Valid()
      modifies config
      ensures Valid() && config.user == SetUser(config.c, old(config.user), s, text)
      ensures config.cache == Without(config.c, old(config.cache), config.c.syms)
    {
      var c := config.c;
      var x := SetUser(c, config.user, s, text);
      SetUserValid(c, config.rank, config.user, s, text);
      FullInvalidation(c, config.user, x, config.rank, config.cache);
      var cache := InvalidateSet(c, config.cache, c.syms);
      config.user, config.cache := x, cache;
    }

    /** `unset_user_value`, which does not treat MODULES specially. */
    method UnsetUserValue(s: Sym) returns (ghost dropped: set<Sym>)
      requires Valid()
      modifies config, dependents
      ensures Sound() && config.user == UnsetUser(config.c, old(config.user), s)
      ensures config.cache == Without(config.c, old(config.cache), dropped) && IsReach(config.c, s, dropped)
      ensures StepSettles(config.c, config.rank, old(config.user), Unset(s)) ==> Valid()
    {
      dropped := ChangeAndInvalidate(Unset(s));
    }

    /** The new user value, `_invalidate` and `_invalidate_dependent`. */
    method ChangeAndInvalidate(a: Action) returns (ghost dropped: set<Sym>)
      requires Valid() && !a.Get? && (a.Set? ==> config.c.modules != Some(a.s))
      modifies config, dependents
      ensures Sound() && config.user == UserStep(config.c, old(config.user), a)
      ensures config.cache == Without(config.c, old(config.cache), dropped) && IsReach(config.c, a.s, dropped)
      ensures StepSettles(config.c, config.rank, old(config.user), a) ==> Valid()
    {
      var c := config.c;
      var more := dependents.GetDependent(a.s);
      var cache := Invalidate(c, config.cache, a.s);
      cache := InvalidateSet(c, cache, more);
      WithoutTwice(c, config.cache, {a.s}, more);
      StepValid(c, config.rank, config.user, a);
      DependentsAreReach(c, a.s, more);
      dropped := {a.s} + more;
      StepSufficesIff(c, config.rank, config.user, a, dropped);
      config.user, config.cache := UserStep(c, config.user, a), cache;
    }
  }

  // Runs

  function UserAfter(c: Setup, actions: seq<Action>): User {
    if actions == [] then User(map[], map[], map[])
    else UserStep(c, UserAfter(c, actions[..|actions| - 1]), actions[|actions| - 1])
  }

  /** What the `i`-th action answers when nothing is cached. */
  ghost predicate AnsweredAt(c: Setup, rank: Sym -> nat, actions: seq<Action>, answers: seq<Option<string>>, i: nat)
    requires i < |actions| && i < |answers|
  {
    actions[i].Get? ==> answers[i] == Some(Final(c, UserAfter(c, actions[..i]), rank)(actions[i].s))
  }

  /**
   * However reads, assignments and removals of user values follow each other, every read returns the value computed
   * from scratch from the user values at that point, provided that each removal for MODULES settles.
   */
  method Run(c: Setup, ghost rank: Sym -> nat, ghost top: nat, actions: seq<Action>) returns (answers: seq<Option<string>>)
    requires Legit(c, rank) && forall s | s in c.syms :: rank(s) <= top
    requires forall i | 0 <= i < |actions| :: StepSettles(c, rank, UserAfter(c, actions[..i]), actions[i])
    ensures |answers| == |actions|
    ensures forall i | 0 <= i < |actions| :: AnsweredAt(c, rank, actions, answers, i)
  {
    var session := new Session(c, rank, top);
    answers := [];
    for i := 0 to |actions|
      invariant session.Valid() && session.config.c == c && session.config.rank == rank
      invariant fresh(session.config) && fresh(session.dependents)
      invariant session.config.user == UserAfter(c, actions[..i])
      invariant |answers| == i && forall j | 0 <= j < i :: AnsweredAt(c, rank, actions, answers, j)
    {
      ghost var before := answers;
      var answer := Perform(session, actions[i]);
      answers := answers + [answer];
      assert actions[..i + 1][..i] == actions[..i];
      forall j | 0 <= j < i + 1 ensures AnsweredAt(c, rank, actions, answers, j) {
        assert j < i ==> AnsweredAt(c, rank, actions, before, j);
      }
    }
  }

  method Perform(session: Session, a: Action) returns (answer: Option<string>)
    requires session.Valid()
    requires StepSettles(session.config.c, session.config.rank, session.config.user, a)
    modifies session.config, session.dependents
    ensures session.Valid() && session.config.user == UserStep(session.config.c, old(session.config.user), a)
    ensures a.Get? ==> answer == Some(Final(session.config.c, old(session.config.user), session.config.rank)(a.s))
  {
    answer := None;
    match a
    case Get(s) =>
      var value := session.config.GetValue(s);
      answer := Some(value);
    case Set(s, text) =>
      ghost var dropped := session.SetUserValue(s, text);
    case Unset(s) =>
      ghost var dropped := session.UnsetUserValue(s);
  }

  // Why MODULES must not be unset

  /** Symbol 0 is MODULES, symbol 1 is a tristate symbol with default `m`; the rest are special. */
  const MODULES_AND_M := Setup({0, 1}, ExampleInfo, (ch: Choice) => ChoiceInfo(Bool, false, [], [], []), Some(0),
                               (text: string, base: int) => false, (text: string, base: int) => 0, (n: int, base: int) => "")

  function ExampleInfo(s: Sym): SymInfo {
    if s == 0 then SymInfo("MODULES", Bool, [None], [], [], Leaf(Text("n")), None, None)
    else if s == 1 then SymInfo("M", TristateKind, [], [(Leaf(Text("m")), None)], [], Leaf(Text("n")), None, None)
    else SymInfo("y", Bool, [], [], [], Leaf(Text("n")), None, Some("y"))
  }

  lemma {:induction false} ExampleMentionsNothing(s: Sym, t: Sym)
    ensures !Mentions(MODULES_AND_M, s, t)
  {
    assert ExprSyms(Leaf(Text("m"))) == {} && ExprSyms(Leaf(Text("n"))) == {};
  }

  lemma {:induction false} ExampleLegit()
    ensures Legit(MODULES_AND_M, EXAMPLE_RANK)
  {
    forall s: Sym, t: Sym ensures !Mentions(MODULES_AND_M, s, t) {
      ExampleMentionsNothing(s, t);
    }
  }

  /** With MODULES set to `y`, M is `m`; without modules it is `y`. */
  lemma {:induction false} ExampleValues(text: string)
    requires text == "y" || text == "n"
    ensures var u := User(map[0 := text], map[], map[]);
            Pure(MODULES_AND_M, false, u, EXAMPLE_RANK, 0) == text
    ensures Pure(MODULES_AND_M, false, User(map[], map[], map[]), EXAMPLE_RANK, 0) == "n"
    ensures forall u: User, on: bool :: Pure(MODULES_AND_M, on, u, EXAMPLE_RANK, 1) == if on then "m" else "y"
  {
  }

  lemma {:induction false} ExampleReach()
    ensures IsReach(MODULES_AND_M, 0, {0})
  {
    forall t: Sym, s: Sym ensures !Influences(MODULES_AND_M, t, s) {
      ExampleMentionsNothing(s, t);
    }
  }

  lemma {:induction false} ExampleModules()
    ensures ModulesOn(MODULES_AND_M, User(map[0 := "y"], map[], map[]), EXAMPLE_RANK)
    ensures !ModulesOn(MODULES_AND_M, User(map[], map[], map[]), EXAMPLE_RANK)
    ensures Final(MODULES_AND_M, User(map[0 := "y"], map[], map[]), EXAMPLE_RANK)(1) == "m"
    ensures Final(MODULES_AND_M, User(map[], map[], map[]), EXAMPLE_RANK)(1) == "y"
  {
    ExampleValues("y");
  }

  lemma {:induction false} ExampleCoherent()
    ensures Coherent(MODULES_AND_M, User(map[0 := "y"], map[], map[]), EXAMPLE_RANK, NOTHING.(values := map[1 := "m"]))
  {
    ExampleModules();
  }

  lemma {:induction false} ExampleStale()
    ensures !Coherent(MODULES_AND_M, User(map[], map[], map[]), EXAMPLE_RANK,
                      Without(MODULES_AND_M, NOTHING.(values := map[1 := "m"]), {0}))
  {
    var c, x := MODULES_AND_M, User(map[], map[], map[]);
    ExampleModules();
    assert !SymbolCoherent(c, ModulesOn(c, x, EXAMPLE_RANK), Final(c, x, EXAMPLE_RANK),
                           Without(c, NOTHING.(values := map[1 := "m"]), {0}), 1);
  }

  /**
   * Nothing depends on MODULES in the sense of `_build_dep`, and so `unset_user_value` on it leaves the value `m` of M
   * in its cache, where it should be `y` now.
   */
  lemma {:induction false} UnsetModulesLeavesStale()
    ensures var u := User(map[0 := "y"], map[], map[]);
            var cache := NOTHING.(values := map[1 := "m"]);
            && Legit(MODULES_AND_M, EXAMPLE_RANK) && UserValid(MODULES_AND_M, u)
            && Coherent(MODULES_AND_M, u, EXAMPLE_RANK, cache)
            && IsReach(MODULES_AND_M, 0, {0})
            && !Coherent(MODULES_AND_M, UnsetUser(MODULES_AND_M, u, 0), EXAMPLE_RANK, Without(MODULES_AND_M, cache, {0}))
  {
    ExampleLegit();
    ExampleReach();
    ExampleCoherent();
    ExampleStale();
    assert UnsetUser(MODULES_AND_M, User(map[0 := "y"], map[], map[]), 0) == User(map[], map[], map[]);
  }
}
