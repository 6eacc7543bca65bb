/** `_build_dep` and `_get_dependent`: which symbols a change reaches. */
module KconfiglibDependents {
  import opened Wrappers
  import opened KconfiglibExpr
  import opened KconfiglibSpec
  import opened KconfiglibSolution
  import opened KconfiglibInvalidation

  type Index = map<Sym, set<Sym>>

  function DepOf(dep: Index, t: Sym): set<Sym> {
    if t in dep then dep[t] else {}
  }

  /** `after` records, on top of `before`, that `s` depends on exactly the symbols that satisfy `more`. */
  ghost predicate Added(before: Index, after: Index, s: Sym, more: Sym -> bool) {
    forall t: Sym, x: Sym :: x in DepOf(after, t) <==> x in DepOf(before, t) || (x == s && more(t))
  }

  /** `add_expr_deps`. */
  method AddDeps(before: Index, syms: set<Sym>, s: Sym) returns (dep: Index)
    ensures Added(before, dep, s, (t: Sym) => t in syms)
  {
    dep := before;
    var todo := syms;
    while todo != {}
      invariant todo <= syms
      invariant Added(before, dep, s, (t: Sym) => t in syms - todo)
    {
      var t :| t in todo;
      ghost var last := dep;
      dep := dep[t := DepOf(dep, t) + {s}];
      todo := todo - {t};
      assert forall x: Sym :: DepOf(dep, x) == if x == t then DepOf(last, x) + {s} else DepOf(last, x);
    }
  }

  method AddPrompts(before: Index, prompts: seq<Option<KExpr>>, s: Sym) returns (dep: Index)
    ensures Added(before, dep, s, (t: Sym) => InPrompts(prompts, t))
  {
    dep := before;
    for i := 0 to |prompts|
      invariant Added(before, dep, s, (t: Sym) => InPrompts(prompts[..i], t))
    {
      assert forall t: Sym :: InPrompts(prompts[..i + 1], t) <==> InPrompts(prompts[..i], t) || t in CondSyms(prompts[i]) by {
        assert prompts[..i + 1] == prompts[..i] + [prompts[i]];
      }
      dep := AddDeps(dep, CondSyms(prompts[i]), s);
    }
    assert prompts[..|prompts|] == prompts;
  }

  method AddDefaults(before: Index, defaults: seq<(KExpr, Option<KExpr>)>, s: Sym) returns (dep: Index)
    ensures Added(before, dep, s, (t: Sym) => InDefaults(defaults, t))
  {
    dep := before;
    for i := 0 to |defaults|
      invariant Added(before, dep, s, (t: Sym) => InDefaults(defaults[..i], t))
    {
      var here := ExprSyms(defaults[i].0) + CondSyms(defaults[i].1);
      assert forall t: Sym :: InDefaults(defaults[..i + 1], t) <==> InDefaults(defaults[..i], t) || t in here by {
        assert defaults[..i + 1] == defaults[..i] + [defaults[i]];
      }
      dep := AddDeps(dep, ExprSyms(defaults[i].0), s);
      dep := AddDeps(dep, CondSyms(defaults[i].1), s);
    }
    assert defaults[..|defaults|] == defaults;
  }

  method AddRanges(before: Index, ranges: seq<((Operand, Operand), Option<KExpr>)>, s: Sym) returns (dep: Index)
    ensures Added(before, dep, s, (t: Sym) => InRanges(ranges, t))
  {
    dep := before;
    for i := 0 to |ranges|
      invariant Added(before, dep, s, (t: Sym) => InRanges(ranges[..i], t))
    {
      var r := ranges[i];
      assert forall t: Sym :: InRanges(ranges[..i + 1], t) <==> InRanges(ranges[..i], t) || t in RangeSyms(r) by {
        assert ranges[..i + 1] == ranges[..i] + [ranges[i]];
      }
      dep := AddDeps(dep, OperandSyms(r.0.0), s);
      dep := AddDeps(dep, OperandSyms(r.0.1), s);
      dep := AddDeps(dep, CondSyms(r.1), s);
    }
    assert ranges[..|ranges|] == ranges;
  }

  method AddConditions<T>(before: Index, entries: seq<(T, Option<KExpr>)>, s: Sym) returns (dep: Index)
    ensures Added(before, dep, s, (t: Sym) => InConditions(entries, t))
  {
    dep := before;
    for i := 0 to |entries|
      invariant Added(before, dep, s, (t: Sym) => InConditions(entries[..i], t))
    {
      assert forall t: Sym :: InConditions(entries[..i + 1], t) <==> InConditions(entries[..i], t) || t in CondSyms(entries[i].1) by {
        assert entries[..i + 1] == entries[..i] + [entries[i]];
      }
      dep := AddDeps(dep, CondSyms(entries[i].1), s);
    }
    assert entries[..|entries|] == entries;
  }

  method AddOwn(before: Index, info: SymInfo, s: Sym) returns (dep: Index)
    ensures Added(before, dep, s, (t: Sym) => OwnMentions(info, t))
  {
    dep := AddPrompts(before, info.prompts, s);
    dep := AddDefaults(dep, info.defaults, s);
    dep := AddDeps(dep, ExprSyms(info.revDep), s);
    dep := AddRanges(dep, info.ranges, s);
  }

  method AddChoice(before: Index, info: ChoiceInfo, s: Sym) returns (dep: Index)
    ensures Added(before, dep, s, (t: Sym) => ChoiceMentions(info, t))
  {
    dep := AddPrompts(before, info.prompts, s);
    dep := AddConditions(dep, info.defaults, s);
  }

  /** The symbols among some that mention `t`. */
  ghost function Mentioning(c: Setup, among: set<Sym>, t: Sym): set<Sym> {
    set s | s in among && Mentions(c, s, t)
  }

  lemma {:induction false} MentioningStep(c: Setup, among: set<Sym>, s: Sym, t: Sym)
    ensures Mentioning(c, among + {s}, t) == Mentioning(c, among, t) + if Mentions(c, s, t) then {s} else {}
  {
  }

  /** One round of the loop of `_build_dep`. */
  method AddSymbol(c: Setup, before: Index, s: Sym) returns (dep: Index)
    ensures forall t: Sym :: DepOf(dep, t) == DepOf(before, t) + if Mentions(c, s, t) then {s} else {}
  {
    var info := c.info(s);
    dep := AddOwn(before, info, s);
    assert forall t: Sym :: DepOf(dep, t) == DepOf(before, t) + if OwnMentions(info, t) then {s} else {};
    if info.choice.Some? {
      dep := AddChoice(dep, c.choice(info.choice.value), s);
    }
  }

  /** `_build_dep` records exactly which symbols of the table mention which. */
  method BuildDep(c: Setup) returns (dep: Index)
    ensures forall t: Sym :: DepOf(dep, t) == Mentioning(c, c.syms, t)
  {
    dep := map[];
    var todo := c.syms;
    while todo != {}
      invariant todo <= c.syms
      invariant forall t: Sym :: DepOf(dep, t) == Mentioning(c, c.syms - todo, t)
    {
      var s :| s in todo;
      ghost var last := dep;
      dep := AddSymbol(c, dep, s);
      assert c.syms - (todo - {s}) == (c.syms - todo) + {s};
      forall t: Sym ensures DepOf(dep, t) == Mentioning(c, c.syms - (todo - {s}), t) {
        MentioningStep(c, c.syms - todo, s, t);
        assert DepOf(last, t) == Mentioning(c, c.syms - todo, t);
      }
      todo := todo - {s};
    }
    assert c.syms - todo == c.syms;
  }

  /** `reached` together with `s` is the smallest set that contains `s` and everything a change of a member may change. */
  ghost predicate IsDependents(c: Setup, s: Sym, reached: set<Sym>) {
    Closed(c, {s} + reached) && Minimal(c, s, reached)
  }

  ghost predicate Minimal(c: Setup, s: Sym, reached: set<Sym>) {
    forall e: set<Sym> | Closed(c, e) && s in e :: reached <= e
  }

  lemma {:induction false} MentionsRank(c: Setup, rank: Sym -> nat, s: Sym, t: Sym)
    requires SymbolUnder(c, rank, s) && Mentions(c, s, t)
    ensures rank(t) < rank(s)
  {
    var info := c.info(s);
    if OwnMentions(info, t) {
      OwnMentionsRank(c, rank, s, t);
    } else {
      ChoiceMentionsRank(c, rank, s, info.choice.value, t);
    }
  }

  lemma {:induction false} OwnMentionsRank(c: Setup, rank: Sym -> nat, s: Sym, t: Sym)
    requires SymbolUnder(c, rank, s) && OwnMentions(c.info(s), t)
    ensures rank(t) < rank(s)
  {
    var info := c.info(s);
    if InPrompts(info.prompts, t) {
      var i :| 0 <= i < |info.prompts| && t in CondSyms(info.prompts[i]);
      CondUnderMeansSyms(rank, info.prompts[i], rank(s));
    } else if InDefaults(info.defaults, t) {
      var i :| 0 <= i < |info.defaults| && t in ExprSyms(info.defaults[i].0) + CondSyms(info.defaults[i].1);
      UnderMeansSyms(rank, info.defaults[i].0, rank(s));
      CondUnderMeansSyms(rank, info.defaults[i].1, rank(s));
    } else if InRanges(info.ranges, t) {
      var i :| 0 <= i < |info.ranges| && t in RangeSyms(info.ranges[i]);
      assert BoundsUnder(rank, info.ranges[i].0, rank(s));
      CondUnderMeansSyms(rank, info.ranges[i].1, rank(s));
    } else {
      UnderMeansSyms(rank, info.revDep, rank(s));
    }
  }

  lemma {:induction false} ChoiceMentionsRank(c: Setup, rank: Sym -> nat, s: Sym, ch: Choice, t: Sym)
    requires ChoiceUnder(c, rank, ch, rank(s)) && ChoiceMentions(c.choice(ch), t)
    ensures rank(t) < rank(s)
  {
    var info := c.choice(ch);
    if InPrompts(info.prompts, t) {
      var i :| 0 <= i < |info.prompts| && t in CondSyms(info.prompts[i]);
      CondUnderMeansSyms(rank, info.prompts[i], rank(s));
    } else {
      var i :| 0 <= i < |info.defaults| && t in CondSyms(info.defaults[i].1);
      CondUnderMeansSyms(rank, info.defaults[i].1, rank(s));
    }
  }

  /** Members outside `pending` have everything they may change in the set as well. */
  ghost predicate Expanded(c: Setup, reached: set<Sym>, pending: set<Sym>) {
    forall t | t in reached && t !in pending :: ReachesOnly(c, t, reached)
  }

  ghost predicate ReachesOnly(c: Setup, t: Sym, reached: set<Sym>) {
    forall s | Influences(c, t, s) :: s in reached
  }

  lemma {:induction false} ExpandedUnion(c: Setup, a: set<Sym>, b: set<Sym>, pending: set<Sym>)
    requires Expanded(c, a, pending) && Closed(c, b)
    ensures Expanded(c, a + b, pending)
  {
    forall t | t in a + b && t !in pending ensures ReachesOnly(c, t, a + b) {
      if t in a {
        assert ReachesOnly(c, t, a);
      }
    }
  }

  class Dependents {
    const c: Setup
    ghost const rank: Sym -> nat
    /** No symbol of the table ranks above this. */
    ghost const top: nat
    /** `Symbol.dep` and `Symbol.cached_deps` of all symbols. */
    var dep: Index
    var cachedDeps: Index

    constructor (c: Setup, ghost rank: Sym -> nat, ghost top: nat)
      requires Ranked(c, rank) && Known(c) && forall s | s in c.syms :: rank(s) <= top
      ensures this.c == c && this.rank == rank && Valid()
    {
      this.c, this.rank, this.top := c, rank, top;
      cachedDeps := map[];
      new;
      dep := BuildDep(c);
    }

    ghost predicate Valid()
      reads this
    {
      && Ranked(c, rank) && Known(c)
      && (forall s | s in c.syms :: rank(s) <= top)
      && (forall t: Sym :: DepOf(dep, t) == Mentioning(c, c.syms, t))
      && (forall s | s in cachedDeps :: IsDependents(c, s, cachedDeps[s]))
    }

    /** `_get_dependent`. */
    method GetDependent(s: Sym) returns (res: set<Sym>)
      requires Valid()
      modifies this`cachedDeps
      ensures Valid() && IsDependents(c, s, res)
      decreases top - rank(s), 3
    {
      if s in cachedDeps {
        return cachedDeps[s];
      }
      if c.info(s).choice.None? {
        res := AddDependentIgnoreSiblings(s, {}, {});
        AloneDependents(s, res);
      } else {
        res := AddSiblings(s, c.choice(c.info(s).choice.value).symbols);
      }
      cachedDeps := cachedDeps[s := res];
    }

    /** The siblings of a choice symbol and what depends on any of them. */
    method AddSiblings(s: Sym, siblings: seq<Sym>) returns (res: set<Sym>)
      requires Valid() && c.info(s).choice.Some? && siblings == c.choice(c.info(s).choice.value).symbols
      modifies this`cachedDeps
      ensures Valid() && IsDependents(c, s, res)
      decreases top - rank(s), 2
    {
      assert SymbolUnder(c, rank, s);
      ghost var pending := set t | t in siblings;
      assert pending + {s} == pending;
      res := AddDependentIgnoreSiblings(s, {}, pending);
      for i := 0 to |siblings|
        invariant Valid() && Expanded(c, res, pending) && Minimal(c, s, res) && Includes(s, res)
        invariant AddedTo(s, siblings, i, res)
      {
        res := AddNext(s, siblings, i, res, pending);
      }
      TogetherDependents(s, siblings, res, pending);
    }

    /** The first `i` siblings have been added, with what depends on them. */
    ghost predicate AddedTo(s: Sym, siblings: seq<Sym>, i: nat, reached: set<Sym>)
      requires i <= |siblings|
      reads this`dep
    {
      forall j | 0 <= j < i :: (siblings[j] == s || siblings[j] in reached) && Includes(siblings[j], reached)
    }

    /** One round of that loop. */
    method AddNext(s: Sym, siblings: seq<Sym>, i: nat, to: set<Sym>, ghost pending: set<Sym>) returns (res: set<Sym>)
      requires Valid() && c.info(s).choice.Some? && siblings == c.choice(c.info(s).choice.value).symbols && i < |siblings|
      requires pending == set t | t in siblings
      requires Expanded(c, to, pending) && Minimal(c, s, to) && Includes(s, to) && AddedTo(s, siblings, i, to)
      modifies this`cachedDeps
      ensures Valid() && Expanded(c, res, pending) && Minimal(c, s, res) && Includes(s, res)
      ensures AddedTo(s, siblings, i + 1, res)
      decreases top - rank(s), 1, 1
    {
      res := to;
      if siblings[i] != s {
        res := AddSibling(s, siblings[i], to, pending);
      }
    }

    method AddSibling(s: Sym, t: Sym, to: set<Sym>, ghost pending: set<Sym>) returns (res: set<Sym>)
      requires Valid() && c.info(s).choice.Some? && t in c.choice(c.info(s).choice.value).symbols && t in pending
      requires Expanded(c, to, pending) && Minimal(c, s, to)
      modifies this`cachedDeps
      ensures Valid() && to <= res && t in res && Includes(t, res)
      ensures Expanded(c, res, pending) && Minimal(c, s, res)
      decreases top - rank(s), 1, 0
    {
      assert SymbolUnder(c, rank, s);
      assert rank(t) == rank(s) && Influences(c, s, t);
      assert pending + {t} == pending;
      res := AddDependentIgnoreSiblings(t, to + {t}, pending);
    }

    ghost predicate Includes(t: Sym, reached: set<Sym>)
      reads this`dep
    {
      DepOf(dep, t) <= reached
    }

    lemma {:induction false} AloneDependents(s: Sym, res: set<Sym>)
      requires Valid() && c.info(s).choice.None? && Expanded(c, res, {}) && Includes(s, res)
      requires Minimal(c, s, res)
      ensures IsDependents(c, s, res)
    {
      forall t, x | t in {s} + res && Influences(c, t, x) ensures x in {s} + res {
        if t in res {
          assert ReachesOnly(c, t, res);
        }
      }
    }

    lemma {:induction false} TogetherDependents(s: Sym, siblings: seq<Sym>, res: set<Sym>, pending: set<Sym>)
      requires Valid() && c.info(s).choice.Some? && siblings == c.choice(c.info(s).choice.value).symbols
      requires pending == (set t | t in siblings) && Expanded(c, res, pending)
      requires forall t | t in siblings :: (t == s || t in res) && Includes(t, res)
      requires Minimal(c, s, res)
      ensures IsDependents(c, s, res)
    {
      assert SymbolUnder(c, rank, s);
      forall t, x | t in {s} + res && Influences(c, t, x) ensures x in {s} + res {
        if t !in pending {
          assert ReachesOnly(c, t, res);
        } else {
          assert c.info(t).choice == c.info(s).choice;
        }
      }
    }

    /** `_add_dependent_ignore_siblings`. */
    method AddDependentIgnoreSiblings(s: Sym, to: set<Sym>, ghost pending: set<Sym>) returns (res: set<Sym>)
      requires Valid() && Expanded(c, to, pending + {s})
      modifies this`cachedDeps
      ensures Valid() && to <= res && Includes(s, res) && Expanded(c, res, pending + {s})
      ensures forall e: set<Sym> | Closed(c, e) && s in e && to <= e :: res <= e
      decreases top - rank(s), 0
    {
      res := to;
      var todo := DepOf(dep, s);
      while todo != {}
        invariant Valid() && todo <= DepOf(dep, s) && to <= res && Expanded(c, res, pending + {s})
        invariant DepOf(dep, s) - todo <= res
        invariant forall e: set<Sym> | Closed(c, e) && s in e && to <= e :: res <= e
        decreases todo
      {
        var t :| t in todo;
        assert Influences(c, s, t) && SymbolUnder(c, rank, t);
        MentionsRank(c, rank, t, s);
        var more := GetDependent(t);
        ExpandedUnion(c, res, {t} + more, pending + {s});
        assert res + {t} + more == res + ({t} + more);
        res := res + {t} + more;
        todo := todo - {t};
      }
    }
  }
}
