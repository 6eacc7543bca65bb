/** `Symbol` and `Choice` of kconfiglib with their caches. */
module KconfiglibCache {
  import opened Wrappers
  import opened Tristate
  import opened KconfiglibExpr
  import opened KconfiglibSpec
  import opened KconfiglibSolution
  import opened KconfiglibInvalidation
  import opened KconfiglibMeaning

  ghost predicate ModulesBelow(c: Setup, rank: Sym -> nat, limit: nat) {
    c.modules.Some? ==> rank(c.modules.value) < limit
  }

  /** The expression looks at symbols below `limit` only, and at MODULES only if it is below as well. */
  ghost predicate Clear(c: Setup, rank: Sym -> nat, e: Option<KExpr>, limit: nat) {
    CondUnder(rank, e, limit) && (ModulesBelow(c, rank, limit) || DefiniteCond(c, e))
  }

  ghost predicate PromptsClear(c: Setup, rank: Sym -> nat, prompts: seq<Option<KExpr>>, limit: nat) {
    PromptsUnder(rank, prompts, limit) && (ModulesBelow(c, rank, limit) || DefinitePrompts(c, prompts))
  }

  ghost predicate EntriesClear<T>(c: Setup, rank: Sym -> nat, entries: seq<(T, Option<KExpr>)>, limit: nat) {
    && EntriesUnder(rank, entries, limit)
    && (ModulesBelow(c, rank, limit) || forall i | 0 <= i < |entries| :: DefiniteCond(c, entries[i].1))
  }

  /** Everything evaluating a symbol that is not special looks at. */
  lemma {:induction false} SymbolClear(c: Setup, rank: Sym -> nat, s: Sym)
    requires Legit(c, rank) && c.info(s).special.None?
    ensures SymbolUnder(c, rank, s)
    ensures PromptsClear(c, rank, c.info(s).prompts, rank(s))
    ensures EntriesClear(c, rank, c.info(s).defaults, rank(s))
    ensures Clear(c, rank, Some(c.info(s).revDep), rank(s))
    ensures forall i | 0 <= i < |c.info(s).defaults| :: Clear(c, rank, Some(c.info(s).defaults[i].0), rank(s))
    ensures ModulesBelow(c, rank, rank(s)) || c.modules == Some(s)
  {
    assert SymbolUnder(c, rank, s);
  }

  lemma {:induction false} NotModUnlessClear(c: Setup, u: User, rank: Sym -> nat, e: KExpr, limit: nat)
    requires Legit(c, rank) && Clear(c, rank, Some(e), limit)
    ensures Eval(e, EnvFor(c, Final(c, u, rank))) == MOD ==> ModulesBelow(c, rank, limit)
  {
    if !ModulesBelow(c, rank, limit) {
      SolutionFixesSpecials(c, ModulesOn(c, u, rank), u, rank);
      DefiniteNotMod(c, e, Final(c, u, rank));
    }
  }

  lemma {:induction false} VisibilityNotMod(c: Setup, u: User, rank: Sym -> nat, s: Sym)
    requires Legit(c, rank) && c.info(s).special.None?
    ensures Visibility(c, ModulesOn(c, u, rank), s, Final(c, u, rank)) == MOD ==> ModulesBelow(c, rank, rank(s))
  {
    SymbolClear(c, rank, s);
    if !ModulesBelow(c, rank, rank(s)) {
      SolutionFixesSpecials(c, ModulesOn(c, u, rank), u, rank);
      PromptsNotMod(c, ModulesOn(c, u, rank), c.info(s).prompts, Final(c, u, rank));
    }
  }

  lemma {:induction false} RightValueKeeps(c: Setup, u: User, rank: Sym -> nat, cache: Cache, s: Sym)
    requires Coherent(c, u, rank, cache)
    ensures Coherent(c, u, rank, cache.(values := cache.values[s := Final(c, u, rank)(s)]))
  {
    var on, v := ModulesOn(c, u, rank), Final(c, u, rank);
    var after := cache.(values := cache.values[s := v(s)]);
    forall t: Sym ensures SymbolCoherent(c, on, v, after, t) {
      assert SymbolCoherent(c, on, v, cache, t);
    }
    forall ch: Choice ensures ChoiceCoherent(c, on, u, v, after, ch) {
      assert ChoiceCoherent(c, on, u, v, cache, ch);
    }
  }

  lemma {:induction false} RightVisibleKeeps(c: Setup, u: User, rank: Sym -> nat, cache: Cache, s: Sym)
    requires Coherent(c, u, rank, cache)
    ensures var vis := Visibility(c, ModulesOn(c, u, rank), s, Final(c, u, rank));
            Coherent(c, u, rank, cache.(visible := cache.visible[s := vis]))
  {
    var on, v := ModulesOn(c, u, rank), Final(c, u, rank);
    var after := cache.(visible := cache.visible[s := Visibility(c, on, s, v)]);
    forall t: Sym ensures SymbolCoherent(c, on, v, after, t) {
      assert SymbolCoherent(c, on, v, cache, t);
    }
    forall ch: Choice ensures ChoiceCoherent(c, on, u, v, after, ch) {
      assert ChoiceCoherent(c, on, u, v, cache, ch);
    }
  }

  lemma {:induction false} RightChoiceKeeps(c: Setup, u: User, rank: Sym -> nat, cache: Cache, ch: Choice)
    requires Coherent(c, u, rank, cache)
    ensures var vis := ChoiceVisibility(c, ModulesOn(c, u, rank), ch, Final(c, u, rank));
            Coherent(c, u, rank, cache.(choiceVisible := cache.choiceVisible[ch := vis]))
    ensures var selection := Selection(c, ModulesOn(c, u, rank), u, ch, Final(c, u, rank));
            Coherent(c, u, rank, cache.(selection := cache.selection[ch := selection]))
  {
    var on, v := ModulesOn(c, u, rank), Final(c, u, rank);
    var first := cache.(choiceVisible := cache.choiceVisible[ch := ChoiceVisibility(c, on, ch, v)]);
    var second := cache.(selection := cache.selection[ch := Selection(c, on, u, ch, v)]);
    forall t: Sym ensures SymbolCoherent(c, on, v, first, t) && SymbolCoherent(c, on, v, second, t) {
      assert SymbolCoherent(c, on, v, cache, t);
    }
    forall x: Choice
      ensures ChoiceCoherent(c, on, u, v, first, x) && ChoiceCoherent(c, on, u, v, second, x)
    {
      assert ChoiceCoherent(c, on, u, v, cache, x);
    }
  }

  class Config {
    const c: Setup
    ghost const rank: Sym -> nat
    var user: User
    var cache: Cache

    constructor (c: Setup, ghost rank: Sym -> nat)
      requires Legit(c, rank)
      ensures this.c == c && this.rank == rank && Valid()
      ensures user == User(map[], map[], map[]) && cache == NOTHING
    {
      this.c, this.rank := c, rank;
      user, cache := User(map[], map[], map[]), NOTHING;
    }

    ghost predicate Valid()
      reads this
    {
      Sound() && Coherent(c, user, rank, cache)
    }

    /** Everything but the rightness of the caches. */
    ghost predicate Sound()
      reads this`user
    {
      Legit(c, rank) && UserValid(c, user)
    }

    ghost function On(): bool
      reads this`user
    {
      ModulesOn(c, user, rank)
    }

    ghost function Values(): Values
      reads this`user
    {
      Final(c, user, rank)
    }

    /** `_has_modules`. */
    method HasModules(ghost limit: nat) returns (on: bool)
      requires Valid() && ModulesBelow(c, rank, limit)
      modifies this`cache
      ensures Valid() && on == On()
      decreases limit, 0
    {
      if c.modules.None? {
        return false;
      }
      ModulesOnMeaning(c, user, rank);
      var value := GetValue(c.modules.value);
      on := value == "y";
    }

    /** The last step of `_eval_expr`. */
    method PromoteTop(t: Tri, ghost limit: nat) returns (r: Tri)
      requires Valid() && (t == MOD ==> ModulesBelow(c, rank, limit))
      modifies this`cache
      ensures Valid() && r == Top(On(), t) && (r == MOD ==> ModulesBelow(c, rank, limit))
      decreases limit, 1
    {
      r := t;
      if t == MOD {
        var on := HasModules(limit);
        if !on {
          r := YES;
        }
      }
    }

    /** `_eval_expr`. */
    method EvalExpr(e: Option<KExpr>, ghost limit: nat) returns (r: Tri)
      requires Valid() && Clear(c, rank, e, limit)
      modifies this`cache
      ensures Valid() && r == Cond(c, On(), e, Values()) && (r == MOD ==> ModulesBelow(c, rank, limit))
      decreases limit, 2
    {
      r := YES;
      if e.Some? {
        r := EvalExpr2(e.value, limit);
        NotModUnlessClear(c, user, rank, e.value, limit);
      }
      r := PromoteTop(r, limit);
    }

    /** `_eval_expr_2`. */
    method EvalExpr2(e: KExpr, ghost limit: nat) returns (r: Tri)
      requires Valid() && ExprUnder(rank, e, limit)
      modifies this`cache
      ensures Valid() && r == Eval(e, EnvFor(c, Values()))
      decreases limit, 1, e
    {
      match e
      case Leaf(o) =>
        match o {
          case SymbolRef(s) =>
            r := NO;
            if KconfiglibSpec.IsLogical(c.info(s).kind) {
              var value := GetValue(s);
              r := TriOf(value);
            }
          case Text(t) => r := TriOf(t);
          case Stray => r := NO;
        }
      case And(terms) => r := EvalAnd(terms, limit);
      case Or(terms) => r := EvalOr(terms, limit);
      case Not(x) =>
        r := EvalExpr2(x, limit);
        r := Complement(r);
      case Equal(left, right) =>
        var a := GetString(left, limit);
        var b := GetString(right, limit);
        r := if a == b then YES else NO;
      case Unequal(left, right) =>
        var a := GetString(left, limit);
        var b := GetString(right, limit);
        r := if a != b then YES else NO;
    }

    /** The loop over the terms of a conjunction. */
    method EvalAnd(terms: seq<KExpr>, ghost limit: nat) returns (r: Tri)
      requires Valid() && TermsUnder(rank, terms, limit)
      modifies this`cache
      ensures Valid() && r == AllOf(terms, EnvFor(c, Values()))
      decreases limit, 1, terms
    {
      r := YES;
      for i := 0 to |terms|
        invariant Valid() && TermsUnder(rank, terms[i..], limit) && r != NO
        invariant AllOf(terms, EnvFor(c, Values())) == Min(r, AllOf(terms[i..], EnvFor(c, Values())))
      {
        assert terms[i..][0] == terms[i] && terms[i..][1..] == terms[i + 1..];
        var ev := EvalExpr2(terms[i], limit);
        if ev == NO {
          return NO;
        }
        if ev == MOD {
          r := MOD;
        }
      }
    }

    /** The loop over the terms of a disjunction. */
    method EvalOr(terms: seq<KExpr>, ghost limit: nat) returns (r: Tri)
      requires Valid() && TermsUnder(rank, terms, limit)
      modifies this`cache
      ensures Valid() && r == AnyOf(terms, EnvFor(c, Values()))
      decreases limit, 1, terms
    {
      r := NO;
      for i := 0 to |terms|
        invariant Valid() && TermsUnder(rank, terms[i..], limit) && r != YES
        invariant AnyOf(terms, EnvFor(c, Values())) == Max(r, AnyOf(terms[i..], EnvFor(c, Values())))
      {
        assert terms[i..][0] == terms[i] && terms[i..][1..] == terms[i + 1..];
        var ev := EvalExpr2(terms[i], limit);
        if ev == YES {
          return YES;
        }
        if ev == MOD {
          r := MOD;
        }
      }
    }

    /** `_get_str_value`. */
    method GetString(o: Operand, ghost limit: nat) returns (text: string)
      requires Valid() && OperandUnder(rank, o, limit)
      modifies this`cache
      ensures Valid() && text == StringOf(o, EnvFor(c, Values()))
      decreases limit, 0
    {
      match o
      case SymbolRef(s) => text := GetValue(s);
      case Text(t) => text := t;
      case Stray => text := "";
    }

    /** The loop of `_get_visibility` over the prompts. */
    method GetPromptMax(prompts: seq<Option<KExpr>>, ghost limit: nat) returns (vis: Tri)
      requires Valid() && PromptsClear(c, rank, prompts, limit)
      modifies this`cache
      ensures Valid() && vis == PromptMax(c, On(), prompts, Values()) && (vis == MOD ==> ModulesBelow(c, rank, limit))
      decreases limit, 3
    {
      vis := NO;
      for i := 0 to |prompts|
        invariant Valid() && vis == PromptMax(c, On(), prompts[..i], Values()) && (vis == MOD ==> ModulesBelow(c, rank, limit))
      {
        assert prompts[..i + 1][..i] == prompts[..i];
        var a := PromoteTop(vis, limit);
        var b := EvalExpr(prompts[i], limit);
        vis := Max(a, b);
      }
      assert prompts[..|prompts|] == prompts;
    }

    /** What a choice shows: without symbols of its own what it showed when it was first asked. */
    ghost function Shown(ch: Choice): Tri
      reads this`user, this`cache
    {
      if c.choice(ch).symbols == [] && ch in cache.choiceVisible then cache.choiceVisible[ch]
      else ChoiceVisibility(c, On(), ch, Values())
    }

    /** `Choice._get_visibility`. */
    method GetChoiceVisibility(ch: Choice, ghost limit: nat) returns (vis: Tri)
      requires Valid() && ChoiceUnder(c, rank, ch, limit) && ModulesBelow(c, rank, limit)
      modifies this`cache
      ensures Valid() && vis == old(Shown(ch))
      ensures c.choice(ch).symbols != [] ==> vis == ChoiceVisibility(c, On(), ch, Values())
      ensures ch in cache.choiceVisible
      decreases limit, 4
    {
      if ch in cache.choiceVisible {
        assert ChoiceCoherent(c, On(), user, Values(), cache, ch);
        return cache.choiceVisible[ch];
      }
      vis := GetPromptMax(c.choice(ch).prompts, limit);
      vis := Promoted(c.choice(ch).kind, vis);
      RememberChoiceVisible(ch, vis);
    }

    /** `Symbol._get_visibility`. */
    method GetVisibility(s: Sym) returns (vis: Tri)
      requires Valid() && (c.info(s).special.Some? ==> PromptsClear(c, rank, c.info(s).prompts, rank(s)))
      modifies this`cache
      ensures Valid() && s in cache.visible
      ensures vis == if c.info(s).special.Some? && s in old(cache).visible then old(cache).visible[s]
                     else Visibility(c, On(), s, Values())
      ensures c.info(s).special.None? && vis == MOD ==> ModulesBelow(c, rank, rank(s))
      decreases rank(s), 6
    {
      assert SymbolUnder(c, rank, s);
      if c.info(s).special.None? {
        SymbolClear(c, rank, s);
      }
      if s in cache.visible {
        if c.info(s).special.None? {
          assert SymbolCoherent(c, On(), Values(), cache, s);
          VisibilityNotMod(c, user, rank, s);
        }
        return cache.visible[s];
      }
      vis := GetPromptMax(c.info(s).prompts, rank(s));
      if c.info(s).choice.Some? {
        vis := LimitByChoice(vis, c.info(s).choice.value, rank(s));
      }
      vis := Promoted(c.info(s).kind, vis);
      RememberVisible(s, vis);
    }

    method LimitByChoice(own: Tri, ch: Choice, ghost limit: nat) returns (vis: Tri)
      requires Valid() && ChoiceUnder(c, rank, ch, limit) && c.choice(ch).symbols != [] && ModulesBelow(c, rank, limit)
      modifies this`cache
      ensures Valid() && vis == Min(Top(On(), own), Top(On(), ChoiceVisibility(c, On(), ch, Values())))
      decreases limit, 5
    {
      var other := GetChoiceVisibility(ch, limit);
      var a := PromoteTop(own, limit);
      var b := PromoteTop(other, limit);
      vis := Min(a, b);
    }

    method RememberVisible(s: Sym, vis: Tri)
      requires Valid() && vis == Visibility(c, On(), s, Values())
      modifies this`cache
      ensures Valid() && cache == old(cache).(visible := old(cache).visible[s := vis])
    {
      RightVisibleKeeps(c, user, rank, cache, s);
      cache := cache.(visible := cache.visible[s := vis]);
    }

    method RememberChoiceVisible(ch: Choice, vis: Tri)
      requires Valid() && vis == ChoiceVisibility(c, On(), ch, Values())
      modifies this`cache
      ensures Valid() && cache == old(cache).(choiceVisible := old(cache).choiceVisible[ch := vis])
    {
      RightChoiceKeeps(c, user, rank, cache, ch);
      cache := cache.(choiceVisible := cache.choiceVisible[ch := vis]);
    }

    /** `_cache_ret`. */
    method RememberSelection(ch: Choice, selection: Option<Sym>)
      requires Valid() && selection == Selection(c, On(), user, ch, Values())
      modifies this`cache
      ensures Valid() && cache == old(cache).(selection := old(cache).selection[ch := selection])
    {
      RightChoiceKeeps(c, user, rank, cache, ch);
      cache := cache.(selection := cache.selection[ch := selection]);
    }

    method RememberValue(s: Sym, value: string)
      requires Valid() && value == Values()(s)
      modifies this`cache
      ensures Valid() && cache == old(cache).(values := old(cache).values[s := value])
    {
      RightValueKeeps(c, user, rank, cache, s);
      cache := cache.(values := cache.values[s := value]);
    }

    /** `get_mode`. */
    method GetMode(ch: Choice, ghost limit: nat) returns (mode: Tri)
      requires Valid() && ChoiceUnder(c, rank, ch, limit) && ModulesBelow(c, rank, limit)
      modifies this`cache
      ensures Valid() && mode == ModeGiven(c, On(), user, ch, old(Shown(ch)))
      ensures ModeIs(c, On(), user, ch, old(Shown(ch)), mode)
      ensures c.choice(ch).symbols != [] ==> mode == Mode(c, On(), user, ch, Values())
      decreases limit, 5
    {
      mode := if ch in user.mode then user.mode[ch] else if c.choice(ch).isOptional then NO else MOD;
      var b := GetChoiceVisibility(ch, limit);
      var a := PromoteTop(mode, limit);
      b := PromoteTop(b, limit);
      mode := Min(a, b);
      if mode == MOD && c.choice(ch).kind == Bool {
        mode := YES;
      }
    }

    /** The loops that look for the first entry with an active condition. */
    method GetFirstActive<T>(entries: seq<(T, Option<KExpr>)>, ghost limit: nat) returns (r: Option<(T, Tri)>)
      requires Valid() && EntriesClear(c, rank, entries, limit)
      modifies this`cache
      ensures Valid() && r == FirstActive(c, On(), entries, Values())
      ensures r.Some? && r.value.1 == MOD ==> ModulesBelow(c, rank, limit)
      decreases limit, 3
    {
      for i := 0 to |entries|
        invariant Valid() && FirstActive(c, On(), entries, Values()) == FirstActive(c, On(), entries[i..], Values())
      {
        assert entries[i..][0] == entries[i] && entries[i..][1..] == entries[i + 1..];
        var t := EvalExpr(entries[i].1, limit);
        if t != NO {
          return Some((entries[i].0, t));
        }
      }
      r := None;
    }

    /** `get_selection`. */
    method GetSelection(ch: Choice, ghost limit: nat) returns (r: Option<Sym>)
      requires Valid() && ChoiceUnder(c, rank, ch, limit) && ModulesBelow(c, rank, limit)
      modifies this`cache
      ensures Valid() && r == Selection(c, On(), user, ch, Values())
      ensures SelectionIs(c, On(), user, ch, Values(), r)
      ensures ch in cache.selection
      decreases limit, 11
    {
      SelectionMeaning(c, On(), user, ch, Values());
      if ch in cache.selection {
        assert ChoiceCoherent(c, On(), user, Values(), cache, ch);
        return cache.selection[ch];
      }
      r := FindSelection(ch, limit);
      RememberSelection(ch, r);
    }

    /** `get_selection` without its cache. */
    method FindSelection(ch: Choice, ghost limit: nat) returns (r: Option<Sym>)
      requires Valid() && ChoiceUnder(c, rank, ch, limit) && ModulesBelow(c, rank, limit)
      modifies this`cache
      ensures Valid() && r == Selection(c, On(), user, ch, Values())
      decreases limit, 10
    {
      if c.choice(ch).symbols == [] {
        EmptyChoiceSelectsNothing(c, On(), user, ch, Values());
      }
      var mode := GetMode(ch, limit);
      if mode != YES {
        return None;
      }
      if ch in user.selected {
        assert user.selected[ch] in c.choice(ch).symbols;
        ChoiceSymbolsOrdinary(ch, limit);
        var vis := GetVisibility(user.selected[ch]);
        if vis == YES {
          return Some(user.selected[ch]);
        }
      }
      if c.choice(ch).isOptional {
        return None;
      }
      r := GetSelectionFromDefaults(ch, limit);
    }

    lemma {:induction false} ChoiceSymbolsOrdinary(ch: Choice, limit: nat)
      requires Legit(c, rank) && ChoiceUnder(c, rank, ch, limit)
      ensures forall t | t in c.choice(ch).symbols :: rank(t) == limit && c.info(t).special.None?
    {
    }

    /** `get_selection_from_defaults`. */
    method GetSelectionFromDefaults(ch: Choice, ghost limit: nat) returns (r: Option<Sym>)
      requires Valid() && ChoiceUnder(c, rank, ch, limit) && ModulesBelow(c, rank, limit)
      modifies this`cache
      ensures Valid() && r == DefaultSelection(c, On(), ch, Values())
      decreases limit, 9
    {
      var symbols := c.choice(ch).symbols;
      if symbols == [] {
        return None;
      }
      var d := GetFirstActive(c.choice(ch).defaults, limit);
      var chosen := if d.Some? then d.value.0 else symbols[0];
      if d.Some? {
        FirstActiveIsEntry(c, On(), c.choice(ch).defaults, Values());
      }
      ChoiceSymbolsOrdinary(ch, limit);
      assert chosen in symbols;
      var vis := GetVisibility(chosen);
      if vis != NO {
        return Some(chosen);
      }
      r := GetFirstVisible(symbols, limit);
    }

    method GetFirstVisible(symbols: seq<Sym>, ghost limit: nat) returns (r: Option<Sym>)
      requires Valid() && forall t | t in symbols :: rank(t) == limit && c.info(t).special.None?
      modifies this`cache
      ensures Valid() && r == FirstVisible(c, On(), symbols, Values())
      decreases limit, 8
    {
      for i := 0 to |symbols|
        invariant Valid() && FirstVisible(c, On(), symbols, Values()) == FirstVisible(c, On(), symbols[i..], Values())
      {
        assert symbols[i..][0] == symbols[i] && symbols[i..][1..] == symbols[i + 1..];
        assert symbols[i] in symbols;
        var vis := GetVisibility(symbols[i]);
        if vis != NO {
          return Some(symbols[i]);
        }
      }
      r := None;
    }

    /** `get_value`. */
    method GetValue(s: Sym) returns (value: string)
      requires Valid()
      modifies this`cache
      ensures Valid() && value == Values()(s)
      ensures ValueIs(c, On(), user, s, Values(), value)
      ensures c.info(s).special.None? ==> s in cache.values
      decreases rank(s), 14
    {
      var info := c.info(s);
      FinalMeaning(c, user, rank, s);
      if info.special.Some? {
        return info.special.value;
      }
      if s in cache.values {
        assert SymbolCoherent(c, On(), Values(), cache, s);
        return cache.values[s];
      }
      SolutionSolves(c, On(), user, rank);
      assert Values() == Solution(c, On(), user, rank);
      match info.kind {
        case Unknown => value := info.name;
        case Bool => value := FindTri(s);
        case TristateKind => value := FindTri(s);
        case StringKind => value := FindText(s);
        case _ => value := FindNumber(s);
      }
      RememberValue(s, value);
    }

    /** The bool and tristate case of `get_value`. */
    method FindTri(s: Sym) returns (value: string)
      requires Valid() && c.info(s).special.None? && KconfiglibSpec.IsLogical(c.info(s).kind)
      modifies this`cache
      ensures Valid() && value == TriString(TriValue(c, On(), user, s, Values()))
      decreases rank(s), 13
    {
      SymbolClear(c, rank, s);
      var t;
      if c.info(s).choice.Some? {
        t := FindChoiceSymbolTri(s, c.info(s).choice.value);
      } else {
        t := FindPlainTri(s);
      }
      if t == MOD && c.info(s).kind == Bool {
        t := YES;
      }
      value := TriString(t);
    }

    method FindChoiceSymbolTri(s: Sym, ch: Choice) returns (t: Tri)
      requires Valid() && c.info(s).special.None? && c.info(s).choice == Some(ch)
      modifies this`cache
      ensures Valid() && t == ChoiceSymbolTri(c, On(), user, s, ch, Values())
      decreases rank(s), 12
    {
      SymbolClear(c, rank, s);
      t := NO;
      var vis := GetVisibility(s);
      if vis != NO {
        var mode := GetMode(ch, rank(s));
        if mode == YES {
          var selection := GetSelection(ch, rank(s));
          t := if selection == Some(s) then YES else NO;
        } else if mode == MOD {
          if s in user.values && (user.values[s] == "m" || user.values[s] == "y") {
            t := MOD;
          }
        }
      }
    }

    method FindPlainTri(s: Sym) returns (t: Tri)
      requires Valid() && c.info(s).special.None? && KconfiglibSpec.IsLogical(c.info(s).kind)
      modifies this`cache
      ensures Valid() && t == PlainTri(c, On(), user, s, Values())
      decreases rank(s), 10
    {
      SymbolClear(c, rank, s);
      t := FindOwnTri(s);
      var rev := EvalExpr(Some(c.info(s).revDep), rank(s));
      if rev != NO {
        var a := PromoteTop(t, rank(s));
        var b := PromoteTop(rev, rank(s));
        t := Max(a, b);
      }
    }

    /** The user value if it counts, else the first active default. */
    method FindOwnTri(s: Sym) returns (t: Tri)
      requires Valid() && c.info(s).special.None? && KconfiglibSpec.IsLogical(c.info(s).kind)
      modifies this`cache
      ensures Valid() && (t == MOD ==> ModulesBelow(c, rank, rank(s)))
      ensures t == if Visibility(c, On(), s, Values()) != NO && s in user.values
                   then Min(Top(On(), TriOf(user.values[s])), Top(On(), Visibility(c, On(), s, Values())))
                   else DefaultTri(c, On(), s, Values())
      decreases rank(s), 9
    {
      SymbolClear(c, rank, s);
      var vis := GetVisibility(s);
      if vis != NO && s in user.values {
        var a := PromoteTop(TriOf(user.values[s]), rank(s));
        var b := PromoteTop(vis, rank(s));
        t := Min(a, b);
      } else {
        t := FindDefaultTri(s);
      }
    }

    method FindDefaultTri(s: Sym) returns (t: Tri)
      requires Valid() && c.info(s).special.None?
      modifies this`cache
      ensures Valid() && t == DefaultTri(c, On(), s, Values()) && (t == MOD ==> ModulesBelow(c, rank, rank(s)))
      decreases rank(s), 8
    {
      SymbolClear(c, rank, s);
      t := NO;
      var defaults := c.info(s).defaults;
      var d := GetFirstActive(defaults, rank(s));
      if d.Some? {
        FirstActiveIsEntry(c, On(), defaults, Values());
        ghost var i :| 0 <= i < |defaults| && defaults[i].0 == d.value.0;
        assert Clear(c, rank, Some(defaults[i].0), rank(s));
        var a := EvalExpr(Some(d.value.0), rank(s));
        var b := PromoteTop(d.value.1, rank(s));
        t := Min(a, b);
      }
    }

    /** The string case of `get_value`. */
    method FindText(s: Sym) returns (text: string)
      requires Valid() && c.info(s).special.None?
      modifies this`cache
      ensures Valid() && text == TextValue(c, On(), user, s, Values())
      decreases rank(s), 10
    {
      SymbolClear(c, rank, s);
      var vis := GetVisibility(s);
      if vis != NO && s in user.values {
        return user.values[s];
      }
      text := "";
      var defaults := c.info(s).defaults;
      var d := GetFirstActive(defaults, rank(s));
      if d.Some? {
        FirstActiveIsEntry(c, On(), defaults, Values());
        ghost var i :| 0 <= i < |defaults| && defaults[i].0 == d.value.0;
        assert ExprUnder(rank, defaults[i].0, rank(s));
        text := GetText(d.value.0, rank(s));
      }
    }

    method GetText(e: KExpr, ghost limit: nat) returns (text: string)
      requires Valid() && ExprUnder(rank, e, limit)
      modifies this`cache
      ensures Valid() && text == TextOf(c, e, Values())
      decreases limit, 1
    {
      text := "";
      if e.Leaf? {
        text := GetString(e.o, limit);
      }
    }

    /** The hex and int case of `get_value`. */
    method FindNumber(s: Sym) returns (text: string)
      requires Valid() && c.info(s).special.None? && !KconfiglibSpec.IsLogical(c.info(s).kind)
      modifies this`cache
      ensures Valid() && text == NumberValue(c, On(), user, s, Values())
      decreases rank(s), 10
    {
      SymbolClear(c, rank, s);
      var base := Base(c.info(s).kind);
      var range := FindRange(s, base);
      var vis := GetVisibility(s);
      if vis != NO && s in user.values && c.isBase(user.values[s], base)
         && WithinRange(range, c.toInt(user.values[s], base)) {
        return user.values[s];
      }
      text := FindDefaultNumber(c.info(s).defaults, base, range, rank(s));
    }

    method FindRange(s: Sym, base: int) returns (range: Option<(int, int)>)
      requires Valid() && c.info(s).special.None? && !KconfiglibSpec.IsLogical(c.info(s).kind)
      modifies this`cache
      ensures Valid() && range == ActiveRange(c, On(), s, base, Values())
      decreases rank(s), 9
    {
      SymbolClear(c, rank, s);
      range := None;
      var ranges := c.info(s).ranges;
      var r := GetFirstActive(ranges, rank(s));
      if r.Some? {
        FirstActiveIsEntry(c, On(), ranges, Values());
        ghost var i :| 0 <= i < |ranges| && ranges[i].0 == r.value.0;
        assert BoundsUnder(rank, ranges[i].0, rank(s));
        var low := GetNumber(r.value.0.0, base, rank(s));
        var high := GetNumber(r.value.0.1, base, rank(s));
        range := Some((low, high));
      }
    }

    method GetNumber(o: Operand, base: int, ghost limit: nat) returns (n: int)
      requires Valid() && OperandUnder(rank, o, limit)
      modifies this`cache
      ensures Valid() && n == NumberOf(c, o, base, Values())
      decreases limit, 1
    {
      var text := GetString(o, limit);
      n := if c.isBase(text, base) then c.toInt(text, base) else 0;
    }

    /** The loop over the defaults of a number, with its `else`. */
    method FindDefaultNumber(defaults: seq<(KExpr, Option<KExpr>)>, base: int, range: Option<(int, int)>, ghost limit: nat)
      returns (text: string)
      requires Valid() && DefaultsUnder(rank, defaults, limit) && EntriesClear(c, rank, defaults, limit)
      modifies this`cache
      ensures Valid() && text == DefaultNumber(c, On(), defaults, base, range, "", Values())
      decreases limit, 4
    {
      text := "";
      for i := 0 to |defaults|
        invariant Valid()
        invariant DefaultNumber(c, On(), defaults, base, range, "", Values())
               == DefaultNumber(c, On(), defaults[i..], base, range, text, Values())
      {
        assert defaults[i..][0] == defaults[i] && defaults[i..][1..] == defaults[i + 1..];
        var t := EvalExpr(defaults[i].1, limit);
        if t != NO {
          text := GetText(defaults[i].0, limit);
          if c.isBase(text, base) {
            return Clamp(c, text, base, range);
          }
        }
      }
      if range.Some? && range.value.0 > 0 {
        text := c.format(range.value.0, base);
      }
    }
  }
}
