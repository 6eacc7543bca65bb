/** Symbols with the properties that make one depend on another (`struct symbol`, `struct property`). */
module DependencyGraph {
  import opened Wrappers
  import opened KconfigExpr

  datatype PropertyKind = Prompt | Comment | MenuPrompt | Default | ChoiceValues | Select | Range | EnvVar | SymbolEntry

  /** A range property has its bounds in place of an expression. */
  datatype Property = Property(kind: PropertyKind, visible: Option<Expr>, expr: Option<Expr>, bounds: Option<(Symbol, Symbol)>)

  datatype SymbolInfo = SymbolInfo(revDep: Option<Expr>, dirDep: Option<Expr>, props: seq<Property>)

  type Graph = map<Symbol, SymbolInfo>

  /** The symbols of an expression from left to right. */
  function ExprSymbols(e: Expr): seq<Symbol> {
    match e
    case Sym(s) => [s]
    case Not(x) => ExprSymbols(x)
    case Bin(_, l, r) => ExprSymbols(l) + ExprSymbols(r)
    case Cmp(_, lhs, rhs) => [lhs, rhs]
  }

  function ConditionSymbols(e: Option<Expr>): seq<Symbol> {
    match e
    case None => []
    case Some(x) => ExprSymbols(x)
  }

  /** What the cycle check looks at in one property. */
  function PropertySymbols(p: Property): seq<Symbol> {
    if p.kind == ChoiceValues || p.kind == Select then []
    else ConditionSymbols(p.visible) + if p.kind == Default then ConditionSymbols(p.expr) else []
  }

  function AllPropertySymbols(ps: seq<Property>): seq<Symbol> {
    if ps == [] then [] else AllPropertySymbols(ps[..|ps| - 1]) + PropertySymbols(ps[|ps| - 1])
  }

  function Dependencies(info: SymbolInfo): seq<Symbol> {
    ConditionSymbols(info.revDep) + AllPropertySymbols(info.props)
  }

  predicate Edge(g: Graph, s: Symbol, t: Symbol) {
    s in g && t in Dependencies(g[s])
  }

  predicate Mentions(e: Option<Expr>, t: Symbol) {
    e.Some? && ContainsSymbol(e.value, t)
  }

  /** The condition counts except for choice values and selects, the value only for defaults. */
  predicate PropertyMentions(p: Property, t: Symbol) {
    || (p.kind != ChoiceValues && p.kind != Select && Mentions(p.visible, t))
    || (p.kind == Default && Mentions(p.expr, t))
  }

  lemma {:induction false} SymbolsAreContained(e: Expr, t: Symbol)
    ensures t in ExprSymbols(e) <==> ContainsSymbol(e, t)
  {
    match e
    case Not(x) => SymbolsAreContained(x, t);
    case Bin(_, l, r) =>
      SymbolsAreContained(l, t);
      SymbolsAreContained(r, t);
    case _ =>
  }

  lemma {:induction false} ConditionMentions(e: Option<Expr>, t: Symbol)
    ensures t in ConditionSymbols(e) <==> Mentions(e, t)
  {
    if e.Some? {
      SymbolsAreContained(e.value, t);
    }
  }

  predicate AnyMentions(ps: seq<Property>, t: Symbol) {
    exists i | 0 <= i < |ps| :: PropertyMentions(ps[i], t)
  }

  lemma {:induction false} AnyMentionsSnoc(ps: seq<Property>, t: Symbol)
    requires ps != []
    ensures AnyMentions(ps, t) <==> AnyMentions(ps[..|ps| - 1], t) || PropertyMentions(ps[|ps| - 1], t)
  {
    var init := ps[..|ps| - 1];
    if i :| 0 <= i < |ps| && PropertyMentions(ps[i], t) {
      assert i < |init| ==> PropertyMentions(init[i], t);
    }
    if i :| 0 <= i < |init| && PropertyMentions(init[i], t) {
      assert PropertyMentions(ps[i], t);
    }
  }

  lemma {:induction false} PropertyMention(p: Property, t: Symbol)
    ensures t in PropertySymbols(p) <==> PropertyMentions(p, t)
  {
    ConditionMentions(p.visible, t);
    ConditionMentions(p.expr, t);
  }

  lemma {:induction false} PropertiesMention(ps: seq<Property>, t: Symbol)
    ensures t in AllPropertySymbols(ps) <==> AnyMentions(ps, t)
  {
    if ps != [] {
      PropertiesMention(ps[..|ps| - 1], t);
      PropertyMention(ps[|ps| - 1], t);
      AnyMentionsSnoc(ps, t);
    }
  }

  /**
   * One symbol depends on another if and only if the other stands in what selects the first, in the condition of one
   * of its properties other than choice values and selects, or in the value of one of its defaults.
   */
  lemma {:induction false} EdgeIff(g: Graph, s: Symbol, t: Symbol)
    ensures Edge(g, s, t)
            <==> s in g && (Mentions(g[s].revDep, t) || AnyMentions(g[s].props, t))
  {
    if s in g {
      ConditionMentions(g[s].revDep, t);
      PropertiesMention(g[s].props, t);
    }
  }

  /** The properties that are not selects and not choice values. */
  function Relevant(ps: seq<Property>): seq<Property> {
    if ps == [] then []
    else
      var last := ps[|ps| - 1];
      Relevant(ps[..|ps| - 1]) + if last.kind == ChoiceValues || last.kind == Select then [] else [last]
  }

  function WithoutSelects(g: Graph): Graph {
    map s | s in g :: g[s].(props := Relevant(g[s].props))
  }

  lemma {:induction false} RelevantMention(ps: seq<Property>)
    ensures AllPropertySymbols(Relevant(ps)) == AllPropertySymbols(ps)
  {
    if ps != [] {
      var init, last := ps[..|ps| - 1], ps[|ps| - 1];
      RelevantMention(init);
      if last.kind != ChoiceValues && last.kind != Select {
        assert (Relevant(init) + [last])[..|Relevant(init)|] == Relevant(init);
      } else {
        assert Relevant(ps) == Relevant(init);
      }
    }
  }

  /** Selects and choice values make no difference to what depends on what. */
  lemma {:induction false} SelectsAddNoEdges(g: Graph, s: Symbol, t: Symbol)
    ensures Edge(WithoutSelects(g), s, t) <==> Edge(g, s, t)
  {
    if s in g {
      RelevantMention(g[s].props);
    }
  }

  lemma {:induction false} SelectsAddNoWalks(g: Graph, p: seq<Symbol>)
    ensures IsWalk(WithoutSelects(g), p) <==> IsWalk(g, p)
  {
    forall i: nat | i + 1 < |p| ensures StepAt(WithoutSelects(g), p, i) <==> StepAt(g, p, i) {
      SelectsAddNoEdges(g, p[i], p[i + 1]);
    }
  }

  /** Nor to the cycles that can be reached. */
  lemma {:induction false} SelectsAddNoCycles(g: Graph, roots: seq<Symbol>)
    ensures HasCycle(PartFrom(WithoutSelects(g), roots)) <==> HasCycle(PartFrom(g, roots))
  {
    PartWithoutSelects(g, roots);
    forall p ensures IsCycle(WithoutSelects(PartFrom(g, roots)), p) <==> IsCycle(PartFrom(g, roots), p) {
      SelectsAddNoWalks(PartFrom(g, roots), p);
    }
  }

  lemma {:induction false} PartWithoutSelects(g: Graph, roots: seq<Symbol>)
    ensures PartFrom(WithoutSelects(g), roots) == WithoutSelects(PartFrom(g, roots))
  {
    forall s ensures Reached(WithoutSelects(g), roots, s) <==> Reached(g, roots, s) {
      forall p ensures IsWalkTo(WithoutSelects(g), p, s) <==> IsWalkTo(g, p, s) {
        SelectsAddNoWalks(g, p);
      }
    }
  }

  ghost predicate ClosedAt(g: Graph, s: Symbol)
    requires s in g
  {
    forall t | t in Dependencies(g[s]) :: t in g
  }

  /** Every symbol mentioned is a symbol of the graph. */
  ghost predicate Closed(g: Graph) {
    forall s {:trigger ClosedAt(g, s)} | s in g :: ClosedAt(g, s)
  }

  predicate StepAt(g: Graph, p: seq<Symbol>, i: nat)
    requires i + 1 < |p|
  {
    Edge(g, p[i], p[i + 1])
  }

  ghost predicate IsWalk(g: Graph, p: seq<Symbol>) {
    forall i: nat | i + 1 < |p| :: StepAt(g, p, i)
  }

  ghost predicate IsCycle(g: Graph, p: seq<Symbol>) {
    |p| >= 2 && p[0] == p[|p| - 1] && IsWalk(g, p)
  }

  ghost predicate HasCycle(g: Graph) {
    exists p :: IsCycle(g, p)
  }

  /** A walk from one of the symbols ends in `s`. */
  ghost predicate Reached(g: Graph, roots: seq<Symbol>, s: Symbol) {
    exists p :: IsWalkTo(g, p, s) && p[0] in roots
  }

  ghost predicate IsWalkTo(g: Graph, p: seq<Symbol>, s: Symbol) {
    p != [] && IsWalk(g, p) && p[|p| - 1] == s
  }

  /** The part of the graph that can be reached from some symbols. */
  ghost function PartFrom(g: Graph, roots: seq<Symbol>): Graph {
    map s | s in g && Reached(g, roots, s) :: g[s]
  }

  lemma {:induction false} MutualIsCycle(g: Graph, s: Symbol, t: Symbol)
    requires Edge(g, s, t) && Edge(g, t, s)
    ensures HasCycle(g)
  {
    var p := [s, t, s];
    assert StepAt(g, p, 0) && StepAt(g, p, 1);
    assert IsCycle(g, p);
  }

  ghost predicate SettledAt(g: Graph, order: seq<Symbol>, i: nat)
    requires i < |order|
  {
    forall t | Edge(g, order[i], t) :: t in order[..i]
  }

  /** A list in which every symbol comes after everything it depends on. */
  ghost predicate Topological(g: Graph, order: seq<Symbol>) {
    forall i: nat | i < |order| :: SettledAt(g, order, i)
  }

  /** From a symbol of a topological order a walk only reaches symbols further to the front. */
  lemma {:induction false} WalkDescends(g: Graph, order: seq<Symbol>, i: nat, p: seq<Symbol>)
    requires Topological(g, order) && IsWalk(g, p) && i < |order| && |p| >= 2 && p[0] == order[i]
    ensures p[|p| - 1] in order[..i]
  {
    assert StepAt(g, p, 0) && SettledAt(g, order, i);
    var j :| 0 <= j < i && order[j] == p[1];
    if |p| > 2 {
      SuffixIsWalk(g, p, 1);
      WalkDescends(g, order, j, p[1..]);
      assert forall s | s in order[..j] :: s in order[..i];
    }
  }

  lemma {:induction false} SuffixIsWalk(g: Graph, p: seq<Symbol>, k: nat)
    requires IsWalk(g, p) && k <= |p|
    ensures IsWalk(g, p[k..])
  {
    forall i: nat | i + 1 < |p| - k ensures StepAt(g, p[k..], i) {
      assert StepAt(g, p, k + i);
    }
  }

  lemma {:induction false} WalkSnoc(g: Graph, p: seq<Symbol>, s: Symbol)
    requires IsWalk(g, p) && (p != [] ==> Edge(g, p[|p| - 1], s))
    ensures IsWalk(g, p + [s])
  {
    forall i: nat | i + 1 < |p| + 1 ensures StepAt(g, p + [s], i) {
      if i + 1 < |p| {
        assert StepAt(g, p, i);
      }
    }
  }

  /** A graph with a topological order of all its symbols has no cycle. */
  lemma {:induction false} TopologicalIsAcyclic(g: Graph, order: seq<Symbol>)
    requires Topological(g, order) && forall s | s in g :: s in order
    ensures !HasCycle(g)
  {
    forall p ensures !IsCycle(g, p) {
      if |p| >= 2 && IsWalk(g, p) {
        assert StepAt(g, p, 0);
        NoReturn(g, order, p);
      }
    }
  }

  lemma {:induction false} NoReturn(g: Graph, order: seq<Symbol>, p: seq<Symbol>)
    requires Topological(g, order) && IsWalk(g, p) && |p| >= 2 && p[0] in order
    ensures p[|p| - 1] != p[0]
  {
    var i := FirstIndex(order, p[0]);
    WalkDescends(g, order, i, p);
    var j :| 0 <= j < i && order[j] == p[|p| - 1];
    FirstIndexIsFirst(order, j);
  }

  lemma {:induction false} WalkStays(g: Graph, order: seq<Symbol>, p: seq<Symbol>)
    requires Topological(g, order) && IsWalk(g, p) && p != [] && p[0] in order
    ensures forall s | s in p :: s in order
  {
    if |p| > 1 {
      var i :| 0 <= i < |order| && order[i] == p[0];
      assert StepAt(g, p, 0) && SettledAt(g, order, i);
      SuffixIsWalk(g, p, 1);
      WalkStays(g, order, p[1..]);
      assert p == [p[0]] + p[1..];
    }
  }

  lemma {:induction false} PrefixIsWalk(g: Graph, p: seq<Symbol>, k: nat)
    requires IsWalk(g, p) && k <= |p|
    ensures IsWalk(g, p[..k])
  {
    forall i: nat | i + 1 < k ensures StepAt(g, p[..k], i) {
      assert StepAt(g, p, i);
    }
  }

  /** The part from some symbols on contains them and all they mention, and walks from them stay in it. */
  lemma {:induction false} PartIsClosed(g: Graph, roots: seq<Symbol>)
    requires Closed(g) && forall s | s in roots :: s in g
    ensures Closed(PartFrom(g, roots)) && forall s | s in roots :: s in PartFrom(g, roots)
  {
    var part := PartFrom(g, roots);
    forall s | s in roots ensures s in part {
      assert IsWalkTo(g, [s], s);
    }
    forall s, t | s in part && t in Dependencies(part[s]) ensures t in part {
      var p :| IsWalkTo(g, p, s) && p[0] in roots;
      assert ClosedAt(g, s);
      WalkSnoc(g, p, t);
      assert IsWalkTo(g, p + [t], t);
    }
    assert forall s | s in part :: ClosedAt(part, s);
  }

  lemma {:induction false} WalkInPart(g: Graph, roots: seq<Symbol>, p: seq<Symbol>)
    requires p != [] && IsWalk(g, p) && p[0] in roots
    ensures IsWalk(PartFrom(g, roots), p)
  {
    forall i: nat | i + 1 < |p| ensures StepAt(PartFrom(g, roots), p, i) {
      assert StepAt(g, p, i);
      PrefixIsWalk(g, p, i + 1);
      assert IsWalkTo(g, p[..i + 1], p[i]);
    }
  }

  /** A topological order of the part with all the symbols it starts from contains the whole part. */
  lemma {:induction false} OrderIsWhole(g: Graph, roots: seq<Symbol>, order: seq<Symbol>)
    requires Topological(PartFrom(g, roots), order) && forall s | s in roots :: s in order
    ensures forall s | s in PartFrom(g, roots) :: s in order
  {
    forall s | s in PartFrom(g, roots) ensures s in order {
      var p :| IsWalkTo(g, p, s) && p[0] in roots;
      WalkInPart(g, roots, p);
      WalkStays(PartFrom(g, roots), order, p);
    }
  }

  function FirstIndex(order: seq<Symbol>, s: Symbol): (i: nat)
    requires s in order
    ensures i < |order| && order[i] == s
  {
    if order[0] == s then 0 else FirstIndex(order[1..], s) + 1
  }

  lemma {:induction false} FirstIndexIsFirst(order: seq<Symbol>, j: nat)
    requires j < |order|
    ensures FirstIndex(order, order[j]) <= j
  {
    if order[0] != order[j] {
      FirstIndexIsFirst(order[1..], j - 1);
    }
  }

  // Ranks

  /** Every symbol ranks above all it depends on. */
  ghost predicate Ranks(g: Graph, rank: Symbol -> nat) {
    forall s, t | Edge(g, s, t) :: rank(t) < rank(s)
  }

  lemma {:induction false} WalkLowersRank(g: Graph, rank: Symbol -> nat, p: seq<Symbol>)
    requires Ranks(g, rank) && IsWalk(g, p) && |p| >= 2
    ensures rank(p[|p| - 1]) < rank(p[0])
  {
    assert StepAt(g, p, 0);
    if |p| > 2 {
      SuffixIsWalk(g, p, 1);
      WalkLowersRank(g, rank, p[1..]);
    }
  }

  ghost predicate LeadsInto(g: Graph, s: Symbol, within: set<Symbol>) {
    exists t | t in within :: Edge(g, s, t)
  }

  /** Walking on within a finite set that no member leaves comes back to where it has been. */
  lemma {:induction false} WalkReturns(g: Graph, within: set<Symbol>, p: seq<Symbol>, unseen: set<Symbol>)
    requires p != [] && IsWalk(g, p) && p[|p| - 1] in within
    requires (forall s {:trigger LeadsInto(g, s, within)} | s in within :: LeadsInto(g, s, within))
    requires forall s | s in within :: s in unseen || s in p
    ensures HasCycle(g)
    decreases unseen
  {
    assert LeadsInto(g, p[|p| - 1], within);
    var t :| t in within && Edge(g, p[|p| - 1], t);
    WalkSnoc(g, p, t);
    if t in p {
      var k :| 0 <= k < |p| && p[k] == t;
      SuffixIsWalk(g, p + [t], k);
      assert IsCycle(g, (p + [t])[k..]);
    } else {
      WalkReturns(g, within, p + [t], unseen - {t});
    }
  }

  /** Without a cycle the symbols are ranked by taking away, one after the other, one that depends on none of the rest. */
  lemma {:induction false} RankWithin(g: Graph, within: set<Symbol>) returns (rank: Symbol -> nat)
    requires !HasCycle(g)
    ensures forall s, t | s in within && t in within && Edge(g, s, t) :: rank(t) < rank(s)
    decreases within
  {
    if within == {} {
      return _ => 0;
    }
    if forall s | s in within :: LeadsInto(g, s, within) {
      var s :| s in within;
      WalkReturns(g, within, [s], within);
    }
    var lowest :| lowest in within && !LeadsInto(g, lowest, within);
    var others := RankWithin(g, within - {lowest});
    rank := t => if t == lowest then 0 else others(t) + 1;
  }

  /** A graph can be ranked if and only if it has no cycle. */
  lemma {:induction false} RankedIff(g: Graph)
    ensures (exists rank :: Ranks(g, rank)) <==> !HasCycle(g)
  {
    if rank :| Ranks(g, rank) {
      forall p ensures !IsCycle(g, p) {
        if |p| >= 2 && IsWalk(g, p) {
          WalkLowersRank(g, rank, p);
        }
      }
    }
    if !HasCycle(g) {
      var inner := RankWithin(g, g.Keys);
      assert Ranks(g, t => if t in g then inner(t) + 1 else 0);
    }
  }

  lemma {:induction false} TopologicalSnoc(g: Graph, order: seq<Symbol>, s: Symbol)
    requires Topological(g, order) && s in g && forall t | t in Dependencies(g[s]) :: t in order
    ensures Topological(g, order + [s])
  {
    var more := order + [s];
    forall i: nat | i < |more| ensures SettledAt(g, more, i) {
      if i < |order| {
        assert SettledAt(g, order, i);
        assert more[..i] == order[..i];
      } else {
        assert more[..i] == order;
      }
    }
  }

  lemma {:induction false} PropertyIsLast(ps: seq<Property>, i: nat)
    requires i < |ps|
    ensures AllPropertySymbols(ps[..i + 1]) == AllPropertySymbols(ps[..i]) + PropertySymbols(ps[i])
    ensures forall t | t in PropertySymbols(ps[i]) :: t in AllPropertySymbols(ps)
  {
    assert ps[..i + 1][..i] == ps[..i];
    PropertyIsPart(ps, i);
  }

  lemma {:induction false} PropertyIsPart(ps: seq<Property>, i: nat)
    requires i < |ps|
    ensures forall t | t in PropertySymbols(ps[i]) :: t in AllPropertySymbols(ps)
  {
    if i < |ps| - 1 {
      PropertyIsPart(ps[..|ps| - 1], i);
    }
  }
}
