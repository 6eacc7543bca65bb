/** `sym_check_deps` and its helpers: depth-first search for recursive dependencies. */
module CycleCheck {
  import opened Wrappers
  import opened KconfigExpr
  import opened DependencyGraph

  /**
   * The flags of the search, and what it has done: the symbols being checked, outermost first, and those done, in the
   * order in which they were done.
   */
  datatype Search = Search(check: set<Symbol>, checked: set<Symbol>, reported: bool,
                           stack: seq<Symbol>, finished: seq<Symbol>)

  const START := Search({}, {}, false, [], [])

  ghost predicate Sound(g: Graph, st: Search) {
    && st.check <= st.checked <= g.Keys
    && st.check == Elements(st.stack)
    && IsWalk(g, st.stack)
    && (st.reported ==> HasCycle(g))
    && (!st.reported ==> Topological(g, st.finished) && st.checked <= st.check + Elements(st.finished))
  }

  /** `sym` may be looked at next: it is a dependency of the innermost symbol being checked, if any. */
  predicate Next(g: Graph, st: Search, sym: Symbol) {
    sym in g && (st.stack != [] ==> Edge(g, st.stack[|st.stack| - 1], sym))
  }

  /** What a call that returns `r` does to the search. */
  predicate Progressed(before: Search, after: Search, r: Option<Symbol>) {
    && after.stack == before.stack && after.check == before.check
    && before.checked <= after.checked && before.finished <= after.finished
    && (before.reported ==> after.reported)
    && (r.Some? ==> r.value in after.check && after.reported)
  }

  /** Unless a cycle has been reported, everything in `symbols` is done. */
  predicate Done(st: Search, symbols: seq<Symbol>) {
    !st.reported ==> forall t {:trigger t in st.finished} | t in symbols :: t in st.finished
  }

  predicate AllNext(g: Graph, sym: Symbol, symbols: seq<Symbol>) {
    forall t {:trigger t in symbols} | t in symbols :: t in g && Edge(g, sym, t)
  }

  /** A dependency of the innermost symbol may be looked at, also after a call that returned. */
  lemma {:induction false} NextIs(g: Graph, before: Search, after: Search, sym: Symbol, t: Symbol)
    requires before.stack != [] && before.stack[|before.stack| - 1] == sym && after.stack == before.stack
    requires AllNext(g, sym, [t])
    ensures Next(g, after, t)
  {
    assert t in [t];
  }

  lemma {:induction false} BothNext(g: Graph, sym: Symbol, a: seq<Symbol>, b: seq<Symbol>)
    requires AllNext(g, sym, a + b)
    ensures AllNext(g, sym, a) && AllNext(g, sym, b)
  {
    assert forall t | t in a || t in b :: t in a + b;
  }

  /** Two calls, the second made because the first returned nothing. */
  lemma {:induction false} Then(g: Graph, a: Search, b: Search, c: Search, r: Option<Symbol>,
                                first: seq<Symbol>, second: seq<Symbol>)
    requires Progressed(a, b, None) && Done(b, first) && Progressed(b, c, r) && Done(c, second)
    ensures Progressed(a, c, r) && Done(c, first + second)
  {
    if !c.reported {
      forall t | t in first + second ensures t in c.finished {
        assert t in first ==> t in b.finished;
      }
    }
  }

  lemma {:induction false} ProgressedTwice(a: Search, b: Search, c: Search, r: Option<Symbol>)
    requires Progressed(a, b, None) && Progressed(b, c, r)
    ensures Progressed(a, c, r)
  {
  }

  function Enter(st: Search, sym: Symbol): Search {
    st.(check := st.check + {sym}, checked := st.checked + {sym}, stack := st.stack + [sym])
  }

  function Leave(st: Search, sym: Symbol): Search
    requires st.stack != []
  {
    st.(check := st.check - {sym}, stack := st.stack[..|st.stack| - 1],
        finished := if st.reported then st.finished else st.finished + [sym])
  }

  lemma {:induction false} EnterSound(g: Graph, st: Search, sym: Symbol)
    requires Sound(g, st) && Next(g, st, sym) && sym !in st.checked
    ensures Sound(g, Enter(st, sym))
    ensures |g.Keys - Enter(st, sym).checked| < |g.Keys - st.checked|
  {
    WalkSnoc(g, st.stack, sym);
    ElementsSnoc(st.stack, sym);
    assert g.Keys - Enter(st, sym).checked == (g.Keys - st.checked) - {sym};
  }

  lemma {:induction false} LeaveProgresses(before: Search, st: Search, sym: Symbol, r: Option<Symbol>)
    requires sym !in before.check && Progressed(Enter(before, sym), st, r)
    ensures Progressed(before, Leave(st, sym), if r == Some(sym) then None else r)
  {
  }

  lemma {:induction false} FinishedSnoc(g: Graph, st: Search, sym: Symbol)
    requires Sound(g, st) && sym in g && !st.reported && Done(st, Dependencies(g[sym]))
    ensures Topological(g, st.finished + [sym])
    ensures Elements(st.finished + [sym]) == Elements(st.finished) + {sym}
  {
    TopologicalSnoc(g, st.finished, sym);
    ElementsSnoc(st.finished, sym);
  }

  lemma {:induction false} LeaveSound(g: Graph, before: Search, st: Search, sym: Symbol, r: Option<Symbol>)
    requires Sound(g, before) && Sound(g, st) && sym in g && sym !in before.check
    requires Progressed(Enter(before, sym), st, r)
    requires Done(st, Dependencies(g[sym]))
    ensures Sound(g, Leave(st, sym))
    ensures Progressed(before, Leave(st, sym), if r == Some(sym) then None else r)
  {
    LeaveProgresses(before, st, sym, r);
    if !st.reported {
      FinishedSnoc(g, st, sym);
    }
  }

  /** A dependency that is still being checked closes a walk. */
  lemma {:induction false} ClosesCycle(g: Graph, st: Search, sym: Symbol)
    requires Sound(g, st) && Next(g, st, sym) && sym in st.check
    ensures HasCycle(g)
  {
    var k :| 0 <= k < |st.stack| && st.stack[k] == sym;
    WalkSnoc(g, st.stack, sym);
    SuffixIsWalk(g, st.stack + [sym], k);
    assert IsCycle(g, (st.stack + [sym])[k..]);
  }

  lemma {:induction false} Shrinks(g: Graph, before: Search, after: Search, r: Option<Symbol>)
    requires Progressed(before, after, r)
    ensures |g.Keys - after.checked| <= |g.Keys - before.checked|
  {
    SubsetSize(g.Keys - after.checked, g.Keys - before.checked);
  }

  lemma {:induction false} SubsetSize<T>(a: set<T>, b: set<T>)
    requires a <= b
    ensures |a| <= |b|
  {
    if a != {} {
      var x :| x in a;
      SubsetSize(a - {x}, b - {x});
    }
  }

  class Checker {
    const g: Graph
    /** The part of the graph the search can get to. */
    ghost const part: Graph
    /** The symbols with SYMBOL_CHECK and with SYMBOL_CHECKED set. */
    var check: set<Symbol>
    var checked: set<Symbol>
    /** A recursive dependency has been reported. */
    var reported: bool
    ghost var stack: seq<Symbol>
    ghost var finished: seq<Symbol>

    constructor (g: Graph, ghost part: Graph)
      ensures this.g == g && this.part == part && View() == START
    {
      this.g, this.part := g, part;
      check, checked, reported := {}, {}, false;
      stack, finished := [], [];
    }

    ghost predicate Fits() {
      Closed(part) && forall s {:trigger FitsAt(s)} | s in part :: FitsAt(s)
    }

    ghost predicate FitsAt(s: Symbol)
      requires s in part
    {
      s in g && part[s] == g[s]
    }

    ghost function View(): Search
      reads this
    {
      Search(check, checked, reported, stack, finished)
    }

    method Mark(sym: Symbol)
      modifies this
      ensures View() == Enter(old(View()), sym)
    {
      check, checked, stack := check + {sym}, checked + {sym}, stack + [sym];
    }

    method Unmark(sym: Symbol)
      requires stack != []
      modifies this
      ensures View() == Leave(old(View()), sym)
    {
      finished := if reported then finished else finished + [sym];
      check, stack := check - {sym}, stack[..|stack| - 1];
    }

    method CheckDeps(sym: Symbol) returns (r: Option<Symbol>)
      requires Fits() && Sound(part, View()) && Next(part, View(), sym)
      modifies this
      ensures Sound(part, View()) && Progressed(old(View()), View(), r)
      ensures !reported ==> sym in finished
      decreases |part.Keys - checked|, 0
    {
      if sym in check {
        ClosesCycle(part, View(), sym);
        reported := true;
        assert View() == old(View()).(reported := true);
        return Some(sym);
      }
      if sym in checked {
        return None;
      }
      ghost var before := View();
      Mark(sym);
      EnterSound(part, before, sym);
      assert stack[|stack| - 1] == sym;
      r := CheckSymDeps(sym);
      LeaveSound(part, before, View(), sym, r);
      Unmark(sym);
      if r == Some(sym) {
        r := None;
      }
    }

    method CheckSymDeps(sym: Symbol) returns (r: Option<Symbol>)
      requires Fits() && Sound(part, View()) && sym in part && stack != [] && stack[|stack| - 1] == sym
      modifies this
      ensures Sound(part, View()) && Progressed(old(View()), View(), r)
      ensures Done(View(), Dependencies(part[sym]))
      decreases |part.Keys - checked|, 6
    {
      assert ClosedAt(part, sym) && FitsAt(sym);
      var info := g[sym];
      r := CheckConditionDeps(sym, info.revDep);
      if r.None? {
        ghost var middle := View();
        Shrinks(part, old(View()), middle, None);
        r := CheckProperties(sym, info.props);
        if r.None? {
          Then(part, old(View()), middle, View(), r, ConditionSymbols(info.revDep), AllPropertySymbols(info.props));
        }
      }
    }

    /** The loop of `sym_check_sym_deps`. */
    method CheckProperties(sym: Symbol, props: seq<Property>) returns (r: Option<Symbol>)
      requires Fits() && Sound(part, View()) && stack != [] && stack[|stack| - 1] == sym
      requires AllNext(part, sym, AllPropertySymbols(props))
      modifies this
      ensures Sound(part, View()) && Progressed(old(View()), View(), r)
      ensures Done(View(), AllPropertySymbols(props))
      decreases |part.Keys - checked|, 5
    {
      r := None;
      var i := 0;
      while r.None? && i < |props|
        invariant i <= |props|
        invariant Sound(part, View()) && Progressed(old(View()), View(), r)
        invariant Done(View(), AllPropertySymbols(props[..i]))
      {
        Shrinks(part, old(View()), View(), None);
        ghost var middle := View();
        r := CheckNextProperty(sym, props, i);
        ProgressedTwice(old(View()), middle, View(), r);
        i := i + 1;
      }
      assert props[..|props|] == props;
    }

    method CheckNextProperty(sym: Symbol, props: seq<Property>, i: nat) returns (r: Option<Symbol>)
      requires Sound(part, View()) && Fits() && stack != [] && stack[|stack| - 1] == sym
      requires AllNext(part, sym, AllPropertySymbols(props)) && i < |props|
      requires Done(View(), AllPropertySymbols(props[..i]))
      modifies this
      ensures Sound(part, View()) && Progressed(old(View()), View(), r)
      ensures Done(View(), AllPropertySymbols(props[..i + 1]))
      decreases |part.Keys - checked|, 5, 0
    {
      PropertyIsLast(props, i);
      r := CheckPropertyDeps(sym, props[i]);
      Then(part, old(View()), old(View()), View(), r, AllPropertySymbols(props[..i]), PropertySymbols(props[i]));
    }

    /** One round of that loop. */
    method CheckPropertyDeps(sym: Symbol, prop: Property) returns (r: Option<Symbol>)
      requires Fits() && Sound(part, View()) && stack != [] && stack[|stack| - 1] == sym
      requires AllNext(part, sym, PropertySymbols(prop))
      modifies this
      ensures Sound(part, View()) && Progressed(old(View()), View(), r)
      ensures Done(View(), PropertySymbols(prop))
      decreases |part.Keys - checked|, 4
    {
      r := None;
      if prop.kind == ChoiceValues || prop.kind == Select {
        return;
      }
      BothNext(part, sym, ConditionSymbols(prop.visible), if prop.kind == Default then ConditionSymbols(prop.expr) else []);
      r := CheckConditionDeps(sym, prop.visible);
      if r.Some? || prop.kind != Default {
        return;
      }
      ghost var middle := View();
      Shrinks(part, old(View()), middle, None);
      r := CheckConditionDeps(sym, prop.expr);
      Then(part, old(View()), middle, View(), r, ConditionSymbols(prop.visible), ConditionSymbols(prop.expr));
    }

    method CheckConditionDeps(sym: Symbol, e: Option<Expr>) returns (r: Option<Symbol>)
      requires Fits() && Sound(part, View()) && stack != [] && stack[|stack| - 1] == sym
      requires AllNext(part, sym, ConditionSymbols(e))
      modifies this
      ensures Sound(part, View()) && Progressed(old(View()), View(), r)
      ensures Done(View(), ConditionSymbols(e))
      decreases |part.Keys - checked|, 3
    {
      if e.None? {
        return None;
      }
      r := CheckExprDeps(sym, e.value);
    }

    method CheckExprDeps(sym: Symbol, e: Expr) returns (r: Option<Symbol>)
      requires Fits() && Sound(part, View()) && stack != [] && stack[|stack| - 1] == sym
      requires AllNext(part, sym, ExprSymbols(e))
      modifies this
      ensures Sound(part, View()) && Progressed(old(View()), View(), r)
      ensures Done(View(), ExprSymbols(e))
      decreases |part.Keys - checked|, 2, e, 1
    {
      match e
      case Sym(s) =>
        NextIs(part, View(), View(), sym, s);
        r := CheckDeps(s);
      case Not(x) =>
        r := CheckExprDeps(sym, x);
      case Bin(_, left, right) =>
        r := CheckBothDeps(sym, e);
      case Cmp(_, lhs, rhs) =>
        r := CheckComparisonDeps(sym, lhs, rhs);
    }

    /** The case of a conjunction or disjunction. */
    method CheckBothDeps(sym: Symbol, e: Expr) returns (r: Option<Symbol>)
      requires Fits() && Sound(part, View()) && stack != [] && stack[|stack| - 1] == sym
      requires e.Bin? && AllNext(part, sym, ExprSymbols(e))
      modifies this
      ensures Sound(part, View()) && Progressed(old(View()), View(), r)
      ensures Done(View(), ExprSymbols(e))
      decreases |part.Keys - checked|, 2, e, 0
    {
      ghost var left, right := ExprSymbols(e.l), ExprSymbols(e.r);
      assert ExprSymbols(e) == left + right;
      BothNext(part, sym, left, right);
      r := CheckExprDeps(sym, e.l);
      if r.None? {
        ghost var middle := View();
        Shrinks(part, old(View()), middle, None);
        r := CheckExprDeps(sym, e.r);
        Then(part, old(View()), middle, View(), r, left, right);
      }
    }

    method CheckComparisonDeps(sym: Symbol, lhs: Symbol, rhs: Symbol) returns (r: Option<Symbol>)
      requires Fits() && Sound(part, View()) && stack != [] && stack[|stack| - 1] == sym
      requires AllNext(part, sym, [lhs, rhs])
      modifies this
      ensures Sound(part, View()) && Progressed(old(View()), View(), r)
      ensures Done(View(), [lhs, rhs])
      decreases |part.Keys - checked|, 1
    {
      assert [lhs, rhs] == [lhs] + [rhs];
      BothNext(part, sym, [lhs], [rhs]);
      NextIs(part, View(), View(), sym, lhs);
      r := CheckDeps(lhs);
      if r.None? {
        ghost var middle := View();
        Shrinks(part, old(View()), middle, None);
        NextIs(part, old(View()), middle, sym, rhs);
        r := CheckDeps(rhs);
        Then(part, old(View()), middle, View(), r, [lhs], [rhs]);
      }
    }
  }

  /**
   * The loop of `conf_parse` over the symbols in the hash table: a recursive dependency is reported exactly when there
   * is one in the part of the graph they lead to, and yet no call returns a symbol, so that the error count stays 0.
   * Without a report the part is done with in an order in which each symbol comes after its dependencies.
   */
  method CheckAll(g: Graph, symbols: seq<Symbol>)
    returns (reported: bool, checkAfter: set<Symbol>, errors: int, ghost order: seq<Symbol>)
    requires Closed(g) && forall s | s in symbols :: s in g
    ensures reported <==> HasCycle(PartFrom(g, symbols))
    ensures (forall s | s in g :: s in symbols) ==> (reported <==> HasCycle(g))
    ensures reported <==> HasCycle(PartFrom(WithoutSelects(g), symbols))
    ensures checkAfter == {}
    ensures errors == 0
    ensures !reported ==>
              Topological(PartFrom(g, symbols), order) && forall s | s in PartFrom(g, symbols) :: s in order
  {
    ghost var part := PartFrom(g, symbols);
    PartIsClosed(g, symbols);
    var checker := new Checker(g, part);
    errors := 0;
    assert Sound(part, START);
    for i := 0 to |symbols|
      invariant checker.g == g && checker.part == part && Sound(part, checker.View())
      invariant checker.stack == [] && checker.check == {}
      invariant errors == 0
      invariant !checker.reported ==> forall s | s in symbols[..i] :: s in checker.finished
    {
      ghost var before := checker.finished;
      assert symbols[i] in symbols;
      var r := checker.CheckDeps(symbols[i]);
      assert !checker.reported ==> forall s | s in before :: s in checker.finished;
      if r.Some? {
        errors := errors + 1;
      }
    }
    reported, checkAfter, order := checker.reported, checker.check, checker.finished;
    assert symbols[..|symbols|] == symbols;
    SelectsAddNoCycles(g, symbols);
    if forall s | s in g :: s in symbols {
      PartIsWhole(g, symbols);
    }
    if !reported {
      OrderIsWhole(g, symbols, order);
      TopologicalIsAcyclic(part, order);
    }
  }

  /** From a list of all symbols the whole graph is reached. */
  lemma {:induction false} PartIsWhole(g: Graph, symbols: seq<Symbol>)
    requires forall s | s in g :: s in symbols
    ensures PartFrom(g, symbols) == g
  {
    forall s | s in g ensures Reached(g, symbols, s) {
      assert IsWalkTo(g, [s], s);
    }
  }
}
