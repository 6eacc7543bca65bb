/** `menu_finalize` on the linked entries. */
module MenuFinalize {
  import opened Wrappers
  import opened MenuTree

  predicate Distinct(s: seq<Menu>) {
    s == [] || (s[0] !in s[1..] && Distinct(s[1..]))
  }

  /** The entry at the front, or what comes after an empty list. */
  function First(ts: seq<Tree>, end: Menu?): Menu? {
    if ts == [] then end else ts[0].m
  }

  /** The entries of `ts` are linked as the forest says, below `parent` and up to `end`. */
  ghost predicate Chain(ts: seq<Tree>, parent: Menu?, end: Menu?)
    reads Nodes(ts)
    decreases ts
  {
    ts == [] || (Linked(ts[0], parent, First(ts[1..], end)) && Chain(ts[1..], parent, end))
  }

  ghost predicate Linked(t: Tree, parent: Menu?, next: Menu?)
    reads {t.m} + Nodes(t.kids)
    decreases t
  {
    && t.m.parent == parent
    && t.m.next == next
    && t.m.list == First(t.kids, null)
    && Chain(t.kids, t.m, null)
  }

  lemma {:induction false} ChainConcat(a: seq<Tree>, b: seq<Tree>, parent: Menu?, end: Menu?)
    ensures Chain(a + b, parent, end) <==> Chain(a, parent, First(b, end)) && Chain(b, parent, end)
  {
    if a == [] {
      assert a + b == b;
    } else {
      assert (a + b)[1..] == a[1..] + b;
      ChainConcat(a[1..], b, parent, end);
    }
  }

  lemma {:induction false} DistinctParts(a: seq<Menu>, b: seq<Menu>)
    requires Distinct(a + b)
    ensures Distinct(a) && Distinct(b)
    ensures Elements(a) !! Elements(b)
  {
    if a == [] {
      assert a + b == b;
    } else {
      assert (a + b)[1..] == a[1..] + b;
      DistinctParts(a[1..], b);
      assert Elements(a) == {a[0]} + Elements(a[1..]);
      assert forall x | x in a[1..] :: x in a[1..] + b;
      assert forall x | x in b :: x in a[1..] + b;
    }
  }

  /** No entry stands in two places of the forest. */
  ghost predicate Separate(ts: seq<Tree>)
    decreases ts
  {
    ts == [] || (
      && ts[0].m !in Nodes(ts[0].kids) + Nodes(ts[1..])
      && Nodes(ts[0].kids) !! Nodes(ts[1..])
      && Separate(ts[0].kids) && Separate(ts[1..]))
  }

  lemma {:induction false} DistinctDisjoint(a: seq<Tree>, b: seq<Tree>)
    requires Distinct(Preorder(a) + Preorder(b))
    ensures Nodes(a) !! Nodes(b)
  {
    NodesArePreorder(a);
    NodesArePreorder(b);
    DistinctParts(Preorder(a), Preorder(b));
  }

  lemma {:induction false} FirstApart(t: Tree, rest: seq<Tree>)
    requires Distinct(Preorder([t] + rest))
    ensures Distinct(Preorder(t.kids)) && Distinct(Preorder(rest))
    ensures t.m !in Nodes(t.kids) && t.m !in Nodes(rest) && Nodes(t.kids) !! Nodes(rest)
  {
    var k, r := Preorder(t.kids), Preorder(rest);
    PreorderCons(t, rest);
    DistinctParts([t.m], k + r);
    DistinctParts(k, r);
    assert t.m in Elements([t.m]);
    ElementsConcat(k, r);
    NodesArePreorder(t.kids);
    NodesArePreorder(rest);
  }

  lemma {:induction false} DistinctMeansSeparate(ts: seq<Tree>)
    requires Distinct(Preorder(ts))
    ensures Separate(ts)
    decreases ts
  {
    if ts != [] {
      var t, rest := ts[0], ts[1..];
      assert ts == [t] + rest;
      FirstApart(t, rest);
      DistinctMeansSeparate(t.kids);
      DistinctMeansSeparate(rest);
    }
  }

  lemma {:induction false} NodesConcat(a: seq<Tree>, b: seq<Tree>)
    ensures Nodes(a + b) == Nodes(a) + Nodes(b)
  {
    if a == [] {
      assert a + b == b;
    } else {
      assert (a + b)[1..] == a[1..] + b;
      NodesConcat(a[1..], b);
    }
  }

  lemma {:induction false} SeparateParts(a: seq<Tree>, b: seq<Tree>)
    requires Separate(a + b)
    ensures Separate(a) && Separate(b) && Nodes(a) !! Nodes(b)
  {
    if a == [] {
      assert a + b == b;
    } else {
      assert (a + b)[1..] == a[1..] + b;
      SeparateParts(a[1..], b);
      NodesConcat(a[1..], b);
    }
  }

  lemma {:induction false} SameNodes(a: seq<Tree>, b: seq<Tree>)
    requires Preorder(a) == Preorder(b)
    ensures Nodes(a) == Nodes(b)
  {
    NodesArePreorder(a);
    NodesArePreorder(b);
  }

  /** An entry gets another parent; its siblings keep theirs. */
  method ChangeParent(menu: Menu, ghost t: Tree, ghost rest: seq<Tree>, ghost from: Menu, to: Menu)
    requires menu == t.m && Linked(t, from, First(rest, null)) && Chain(rest, from, null)
    requires menu !in Nodes(t.kids) && menu !in Nodes(rest)
    modifies menu`parent
    ensures Linked(t, to, First(rest, null)) && Chain(rest, from, null)
  {
    menu.parent := to;
  }

  /** The entry after what is done stands nowhere else. */
  lemma {:induction false} NextApart(kids: seq<Tree>, done: seq<Tree>, todo: seq<Tree>)
    requires kids == done + todo && todo != [] && Separate(kids)
    ensures var t, rest := todo[0], todo[1..];
            && t.m !in Nodes(done) && t.m !in Nodes(t.kids) && t.m !in Nodes(rest)
            && t.m in Nodes(kids) && kids == (done + [t]) + rest
  {
    SeparateParts(done, todo);
    NodesConcat(done, todo);
    assert todo[0].m in Nodes(todo);
  }

  /** The loop that gives children to another parent; it ends at the last of them. */
  method Reparent(first: Menu, ghost kids: seq<Tree>, ghost from: Menu, to: Menu) returns (last: Menu)
    requires kids != [] && first == kids[0].m && Chain(kids, from, null) && Separate(kids)
    modifies Nodes(kids)
    ensures Chain(kids, to, null) && last == kids[|kids| - 1].m
  {
    last := first;
    ghost var done, todo := [kids[0]], kids[1..];
    NextApart(kids, [], kids);
    ChangeParent(last, kids[0], todo, from, to);
    StepDone([], kids[0], to, First(todo, null));
    while last.next != null
      invariant done != [] && kids == done + todo && last == done[|done| - 1].m
      invariant last.next == First(todo, null)
      invariant Chain(done, to, First(todo, null)) && Chain(todo, from, null)
      decreases |todo|
    {
      ghost var t, rest := todo[0], todo[1..];
      NextApart(kids, done, todo);
      assert allocated(Nodes(done));
      last := last.next;
      ChangeParent(last, t, rest, from, to);
      StepDone(done, t, to, First(rest, null));
      done, todo := done + [t], rest;
    }
    assert kids == done;
  }

  lemma {:induction false} StepSeparate(kids: seq<Tree>, i: nat)
    requires Separate(kids) && i < |kids|
    ensures kids[i..] == [kids[i]] + kids[i + 1..] && kids[..i + 1] == kids[..i] + [kids[i]]
    ensures Separate(kids[i..]) && Nodes(kids[..i]) !! Nodes(kids[i..]) && kids[i].m in Nodes(kids)
  {
    assert kids == kids[..i] + kids[i..];
    SeparateParts(kids[..i], kids[i..]);
    NodesConcat(kids[..i], kids[i..]);
  }

  lemma {:induction false} ChainLast(front: seq<Tree>, t: Tree, parent: Menu?, end: Menu?)
    ensures Chain(front + [t], parent, end) <==>
              && Chain(front, parent, t.m)
              && t.m.parent == parent && t.m.next == end && t.m.list == First(t.kids, null) && Chain(t.kids, t.m, null)
  {
    ChainConcat(front, [t], parent, end);
    assert [t][1..] == [];
  }

  lemma {:induction false} LastApart(ts: seq<Tree>)
    requires ts != [] && Separate(ts)
    ensures var t := ts[|ts| - 1];
            ts == ts[..|ts| - 1] + [t] && t.m !in Nodes(t.kids) && t.m !in Nodes(ts[..|ts| - 1])
  {
    var n := |ts| - 1;
    StepSeparate(ts, n);
    assert ts == ts[..n] + [ts[n]];
  }

  /** The end of a list of siblings is set. */
  method SetNext(last: Menu, ghost ts: seq<Tree>, ghost parent: Menu?, ghost before: Menu?, end: Menu?)
    requires ts != [] && last == ts[|ts| - 1].m && Separate(ts) && Chain(ts, parent, before)
    modifies last`next
    ensures Chain(ts, parent, end)
  {
    ghost var front, t := ts[..|ts| - 1], ts[|ts| - 1];
    LastApart(ts);
    ChainLast(front, t, parent, before);
    last.next := end;
    ChainLast(front, t, parent, end);
  }

  lemma {:induction false} ConsParts(t: Tree, rest: seq<Tree>)
    ensures ([t] + rest)[0] == t && ([t] + rest)[1..] == rest
    ensures Nodes([t] + rest) == {t.m} + Nodes(t.kids) + Nodes(rest)
    ensures Separate([t] + rest) <==>
              && t.m !in Nodes(t.kids) + Nodes(rest) && Nodes(t.kids) !! Nodes(rest)
              && Separate(t.kids) && Separate(rest)
  {
    assert ([t] + rest)[1..] == rest;
  }

  lemma {:induction false} ChainCons(t: Tree, rest: seq<Tree>, parent: Menu?, end: Menu?)
    ensures Chain([t] + rest, parent, end) <==> Linked(t, parent, First(rest, end)) && Chain(rest, parent, end)
  {
    assert ([t] + rest)[1..] == rest;
  }

  /** Children get another parent and go on to what follows their old one. */
  method Release(first: Menu, ghost kids: seq<Tree>, ghost from: Menu, to: Menu, end: Menu?)
    requires kids != [] && first == kids[0].m && Chain(kids, from, null) && Separate(kids)
    modifies Nodes(kids)
    ensures Chain(kids, to, end)
  {
    StepSeparate(kids, |kids| - 1);
    var last := Reparent(first, kids, from, to);
    SetNext(last, kids, to, null, end);
  }

  /** The children of an entry become its next siblings. */
  method Splice(menu: Menu, parent: Menu, ghost t: Tree, ghost rest: seq<Tree>)
    requires t.m == menu && t.kids != [] && Chain([t] + rest, parent, null) && Separate([t] + rest)
    modifies {menu} + Nodes(t.kids)
    ensures Chain([Node(menu, [])] + (t.kids + rest), parent, null)
  {
    ConsParts(t, rest);
    ChainCons(t, rest, parent, null);
    assert allocated(Nodes(rest)) && allocated(Nodes(t.kids));
    var first := menu.list;
    Release(first, t.kids, menu, parent, menu.next);
    menu.next := first;
    menu.list := null;
    ChainConcat(t.kids, rest, parent, null);
    ChainCons(Node(menu, []), t.kids + rest, parent, null);
  }

  /** The loop of `menu_finalize` that moves the children of entries without a prompt behind them. */
  method HoistChildren(first: Menu?, ghost kids: seq<Tree>, parent: Menu)
    requires first == First(kids, null) && Chain(kids, parent, null) && Distinct(Preorder(kids))
    modifies Nodes(kids)
    ensures Chain(Hoist(kids), parent, null)
  {
    ghost var done: seq<Tree>, todo := [], kids;
    var menu := first;
    while menu != null
      invariant Split(kids, done, todo)
      invariant menu == First(todo, null) && Chain(done, parent, menu) && Chain(todo, parent, null)
      invariant Hoist(kids) == done + Hoist(todo)
      decreases Count(todo)
    {
      SplitApart(kids, done, todo);
      DistinctMeansSeparate(todo);
      HoistStep(kids, done, todo);
      HoistNext(menu, done, todo, parent);
      menu := menu.next;
      ghost var r := HoistRound(todo);
      done, todo := done + [r.tree], r.rest;
    }
    assert done + Hoist(todo) == done;
  }

  /** What one round of that loop makes of the entry at the front. */
  ghost function HoistRound(todo: seq<Tree>): (r: Outcome)
    requires todo != []
    ensures r.tree.m == todo[0].m
  {
    if todo[0].kids != [] && !todo[0].m.prompted then Outcome(Node(todo[0].m, []), todo[0].kids + todo[1..])
    else Outcome(todo[0], todo[1..])
  }

  method HoistNext(menu: Menu, ghost done: seq<Tree>, ghost todo: seq<Tree>, parent: Menu)
    requires todo != [] && todo[0].m == menu && Chain(done, parent, menu) && Chain(todo, parent, null)
    requires Nodes(done) !! Nodes(todo) && Separate(todo)
    modifies Nodes(todo)
    ensures var r := HoistRound(todo);
            Chain(done + [r.tree], parent, First(r.rest, null)) && Chain(r.rest, parent, null)
            && menu.next == First(r.rest, null)
  {
    ghost var r := HoistRound(todo);
    assert todo == [todo[0]] + todo[1..];
    assert allocated(Nodes(done));
    if menu.list != null && !menu.prompted {
      Splice(menu, parent, todo[0], todo[1..]);
    }
    ChainCons(r.tree, r.rest, parent, null);
    StepDone(done, r.tree, parent, First(r.rest, null));
  }

  lemma {:induction false} HoistStep(whole: seq<Tree>, done: seq<Tree>, todo: seq<Tree>)
    requires Split(whole, done, todo) && todo != []
    ensures var r := HoistRound(todo);
            && Split(whole, done + [r.tree], r.rest) && Count(r.rest) < Count(todo)
            && done + Hoist(todo) == (done + [r.tree]) + Hoist(r.rest)
  {
    var r := HoistRound(todo);
    HoistRoundOrder(todo);
    SplitMove(whole, done, todo, r.tree, r.rest);
    HoistEquation(todo);
    Associate(done, [r.tree], Hoist(r.rest));
  }

  lemma {:induction false} HoistEquation(todo: seq<Tree>)
    requires todo != []
    ensures Hoist(todo) == [HoistRound(todo).tree] + Hoist(HoistRound(todo).rest)
  {
  }

  lemma {:induction false} Associate<T>(a: seq<T>, b: seq<T>, c: seq<T>)
    ensures a + (b + c) == (a + b) + c
  {
  }

  lemma {:induction false} SplitMove(whole: seq<Tree>, done: seq<Tree>, todo: seq<Tree>, t: Tree, rest: seq<Tree>)
    requires Split(whole, done, todo) && Preorder(todo) == Preorder([t]) + Preorder(rest)
    ensures Split(whole, done + [t], rest)
  {
    PreorderConcat(done, [t]);
    Associate(Preorder(done), Preorder([t]), Preorder(rest));
  }

  lemma {:induction false} HoistRoundOrder(todo: seq<Tree>)
    requires todo != []
    ensures var r := HoistRound(todo);
            Preorder(todo) == Preorder([r.tree]) + Preorder(r.rest) && Count(r.rest) < Count(todo)
  {
    var t, rest := todo[0], todo[1..];
    assert todo == [t] + rest;
    if t.kids != [] && !t.m.prompted {
      HoistedOrder(t, rest);
    } else {
      PreorderConcat([t], rest);
      assert t.m in Preorder([t]);
    }
  }

  lemma {:induction false} HoistedOrder(t: Tree, rest: seq<Tree>)
    ensures Preorder([t] + rest) == Preorder([Node(t.m, [])]) + Preorder(t.kids + rest)
    ensures Count(t.kids + rest) < Count([t] + rest)
  {
    PreorderCons(t, rest);
    PreorderConcat(t.kids, rest);
    assert Preorder([Node(t.m, [])]) == [t.m];
  }

  class Finalizer {
    /** Which sibling an entry moves into its submenu. */
    const adopts: Decision
    /** The entries for which `menu_finalize` has been called, in order. */
    ghost var log: seq<Menu>

    constructor (adopts: Decision)
      ensures this.adopts == adopts && log == []
    {
      this.adopts, log := adopts, [];
    }

    /** `menu_finalize` of the entry at the front of a list of siblings. */
    method MenuFinalize(parent: Menu, ghost ts: seq<Tree>, ghost up: Menu?) returns (ghost r: Outcome)
      requires ts != [] && ts[0].m == parent && Chain(ts, up, null) && Distinct(Preorder(ts))
      modifies this`log, Nodes(ts)
      ensures r == Finalize(adopts, ts[0], ts[1..])
      ensures Linked(r.tree, up, First(r.rest, null)) && Chain(r.rest, up, null)
      ensures log == old(log) + Preorder([r.tree])
      decreases Count(ts), 3
    {
      log := log + [parent];
      ChainParts(ts, up);
      DistinctMeansSeparate(ts);
      if parent.list != null {
        r := WithSubmenu(parent, ts, up);
      } else if parent.hasSym {
        r := WithoutSubmenu(parent, ts, up);
      } else {
        r := Outcome(ts[0], ts[1..]);
      }
      LogFirst(r.tree, old(log));
    }

    method WithSubmenu(parent: Menu, ghost ts: seq<Tree>, ghost up: Menu?) returns (ghost r: Outcome)
      requires ts != [] && ts[0].m == parent && ts[0].kids != [] && Distinct(Preorder(ts)) && Separate(ts)
      requires Linked(ts[0], up, First(ts[1..], null)) && Chain(ts[1..], up, null)
      modifies this`log, Nodes(ts)
      ensures r == Finalize(adopts, ts[0], ts[1..])
      ensures Linked(r.tree, up, First(r.rest, null)) && Chain(r.rest, up, null)
      ensures log == old(log) + Preorder(r.tree.kids)
      decreases Count(ts), 2
    {
      SubmenuHolds(adopts, ts);
      ghost var finalized := FinalizeAll(adopts, ts[0].kids);
      FinalizeSubmenu(parent, ts[0].kids, finalized, ts[1..], up);
      r := Outcome(Node(parent, Hoist(finalized)), ts[1..]);
    }

    method WithoutSubmenu(parent: Menu, ghost ts: seq<Tree>, ghost up: Menu?) returns (ghost r: Outcome)
      requires ts != [] && ts[0].m == parent && ts[0].kids == [] && parent.hasSym && Distinct(Preorder(ts)) && Separate(ts)
      requires Linked(ts[0], up, First(ts[1..], null)) && Chain(ts[1..], up, null)
      modifies this`log, Nodes(ts)
      ensures r == Finalize(adopts, ts[0], ts[1..])
      ensures Linked(r.tree, up, First(r.rest, null)) && Chain(r.rest, up, null)
      ensures log == old(log) + Preorder(r.tree.kids)
      decreases Count(ts), 2
    {
      ghost var taken := Adopt(adopts, parent, ts[1..]);
      SymbolHolds(adopts, ts, taken);
      FinalizeSymbol(parent, ts[1..], taken, up);
      r := Outcome(Node(parent, Hoist(taken.kids)), taken.rest);
    }

    /** The case of an entry with a submenu. */
    method FinalizeSubmenu(parent: Menu, ghost kids: seq<Tree>, ghost finalized: seq<Tree>, ghost rest: seq<Tree>, ghost up: Menu?)
      requires finalized == FinalizeAll(adopts, kids) && Nodes(finalized) == Nodes(kids)
      requires Distinct(Preorder(kids)) && Distinct(Preorder(finalized))
      requires First(finalized, null) == First(kids, null) == First(Hoist(finalized), null)
      requires Linked(Node(parent, kids), up, First(rest, null)) && Chain(rest, up, null)
      requires parent !in Nodes(kids) && Nodes(kids) !! Nodes(rest)
      modifies this`log, Nodes(kids)
      ensures Linked(Node(parent, Hoist(finalized)), up, First(rest, null)) && Chain(rest, up, null)
      ensures log == old(log) + Preorder(kids)
      decreases Count(kids), 6
    {
      assert allocated(Nodes(rest));
      FinalizeChildren(parent.list, kids, finalized, parent);
      HoistChildren(parent.list, finalized, parent);
    }

    /** The loop of `menu_finalize` over the entries of a submenu. */
    method FinalizeChildren(first: Menu?, ghost kids: seq<Tree>, ghost finalized: seq<Tree>, ghost parent: Menu)
      requires finalized == FinalizeAll(adopts, kids)
      requires first == First(kids, null) && Chain(kids, parent, null) && Distinct(Preorder(kids))
      modifies this`log, Nodes(kids)
      ensures Chain(finalized, parent, null)
      ensures log == old(log) + Preorder(kids)
      decreases Count(kids), 5
    {
      ghost var done: seq<Tree>, todo := [], kids;
      var menu := first;
      while menu != null
        invariant Split(kids, done, todo)
        invariant menu == First(todo, null) && Chain(done, parent, menu) && Chain(todo, parent, null)
        invariant finalized == done + FinalizeAll(adopts, todo)
        invariant log == old(log) + Preorder(done)
        decreases Count(todo)
      {
        ghost var r := FinalizeNext(menu, kids, done, todo, parent, old(log));
        menu := menu.next;
        done, todo := done + [r.tree], r.rest;
      }
      assert todo == [] && finalized == done + [] == done;
    }

    /** One round of that loop. */
    method FinalizeNext(menu: Menu, ghost whole: seq<Tree>, ghost done: seq<Tree>, ghost todo: seq<Tree>, ghost parent: Menu?,
                        ghost start: seq<Menu>) returns (ghost r: Outcome)
      requires Split(whole, done, todo) && Distinct(Preorder(whole)) && log == start + Preorder(done)
      requires todo != [] && todo[0].m == menu && Chain(done, parent, menu) && Chain(todo, parent, null)
      modifies this`log, Nodes(whole)
      ensures Chain(done + [r.tree], parent, First(r.rest, null)) && Chain(r.rest, parent, null)
      ensures menu.next == First(r.rest, null)
      ensures log == start + Preorder(done + [r.tree])
      ensures Split(whole, done + [r.tree], r.rest) && Count(r.rest) < Count(todo)
      ensures done + FinalizeAll(adopts, todo) == (done + [r.tree]) + FinalizeAll(adopts, r.rest)
      decreases Count(todo), 4
    {
      SplitApart(whole, done, todo);
      assert allocated(Nodes(done));
      r := MenuFinalize(menu, todo, parent);
      StepDone(done, r.tree, parent, First(r.rest, null));
      FinalizeRound(adopts, whole, done, todo, r, start);
    }

    /** The case of a symbol without a submenu: it may take the siblings after it into one. */
    method FinalizeSymbol(parent: Menu, ghost rest: seq<Tree>, ghost taken: Adopted, ghost up: Menu?)
      requires taken == Adopt(adopts, parent, rest) && SymbolFacts(parent, rest, taken)
      requires Linked(Node(parent, []), up, First(rest, null)) && Chain(rest, up, null)
      modifies this`log, {parent} + Nodes(rest)
      ensures Linked(Node(parent, Hoist(taken.kids)), up, First(taken.rest, null)) && Chain(taken.rest, up, null)
      ensures log == old(log) + Preorder(taken.kids)
      decreases Count(rest), 6
    {
      var last := AdoptSiblings(parent, rest, taken, up);
      MoveAdopted(parent, last, rest, taken, up);
    }

    /** The loop of `menu_finalize` over the siblings that may be adopted. */
    method AdoptSiblings(parent: Menu, ghost rest: seq<Tree>, ghost taken: Adopted, ghost up: Menu?) returns (last: Menu?)
      requires taken == Adopt(adopts, parent, rest)
      requires parent.next == First(rest, null) && Chain(rest, up, null) && Distinct(Preorder(rest)) && parent !in Nodes(rest)
      modifies this`log, Nodes(rest)
      ensures Chain(taken.kids, parent, First(taken.rest, null)) && Chain(taken.rest, up, null)
      ensures log == old(log) + Preorder(taken.kids)
      ensures last == LastOf(taken.kids)
      decreases Count(rest), 5
    {
      ghost var done: seq<Tree>, todo := [], rest;
      last := null;
      var menu := parent.next;
      while menu != null && adopts(parent, menu)
        invariant Split(rest, done, todo)
        invariant menu == First(todo, null) && Chain(done, parent, menu) && Chain(todo, up, null)
        invariant taken == Prepended(done, Adopt(adopts, parent, todo))
        invariant log == old(log) + Preorder(done)
        invariant last == LastOf(done)
        decreases Count(todo)
      {
        ghost var r := AdoptNext(menu, parent, rest, done, todo, up, old(log));
        last := menu;
        menu := menu.next;
        done, todo := done + [r.tree], r.rest;
      }
      AdoptEnd(adopts, parent, done, todo);
    }

    /** One round of that loop. */
    method AdoptNext(menu: Menu, parent: Menu, ghost whole: seq<Tree>, ghost done: seq<Tree>, ghost todo: seq<Tree>,
                     ghost up: Menu?, ghost start: seq<Menu>) returns (ghost r: Outcome)
      requires Split(whole, done, todo) && Distinct(Preorder(whole)) && log == start + Preorder(done)
      requires todo != [] && todo[0].m == menu && Chain(done, parent, menu) && Chain(todo, up, null) && adopts(parent, menu)
      modifies this`log, Nodes(whole)
      ensures Chain(done + [r.tree], parent, First(r.rest, null)) && Chain(r.rest, up, null)
      ensures menu.next == First(r.rest, null) && r.tree.m == menu
      ensures log == start + Preorder(done + [r.tree])
      ensures Split(whole, done + [r.tree], r.rest) && Count(r.rest) < Count(todo)
      ensures Prepended(done, Adopt(adopts, parent, todo)) == Prepended(done + [r.tree], Adopt(adopts, parent, r.rest))
      decreases Count(todo), 4
    {
      SplitApart(whole, done, todo);
      assert allocated(Nodes(done));
      FinalizedApart(adopts, todo);
      r := MenuFinalize(menu, todo, up);
      SetParent(menu, r.tree, r.rest, up, parent, First(r.rest, null));
      StepDone(done, r.tree, parent, First(r.rest, null));
      AdoptRound(adopts, parent, whole, done, todo, r, start);
    }
  }

  function LastOf(ts: seq<Tree>): Menu? {
    if ts == [] then null else ts[|ts| - 1].m
  }

  function Prepended(front: seq<Tree>, r: Adopted): Adopted {
    Adopted(front + r.kids, r.rest)
  }

  lemma {:induction false} AdoptEnd(adopts: Decision, m: Menu, done: seq<Tree>, todo: seq<Tree>)
    requires todo == [] || !adopts(m, todo[0].m)
    ensures Prepended(done, Adopt(adopts, m, todo)) == Adopted(done, todo)
  {
    assert done + [] == done;
  }

  lemma {:induction false} AdoptStep(adopts: Decision, m: Menu, done: seq<Tree>, todo: seq<Tree>, r: Outcome)
    requires todo != [] && adopts(m, todo[0].m) && r == Finalize(adopts, todo[0], todo[1..])
    ensures Prepended(done, Adopt(adopts, m, todo)) == Prepended(done + [r.tree], Adopt(adopts, m, r.rest))
  {
    var more := Adopt(adopts, m, r.rest);
    assert Adopt(adopts, m, todo) == Adopted([r.tree] + more.kids, more.rest);
    Associate(done, [r.tree], more.kids);
  }

  /** What one round of the loop over the siblings does to the forests and to the log. */
  lemma {:induction false} AdoptRound(adopts: Decision, m: Menu, whole: seq<Tree>, done: seq<Tree>, todo: seq<Tree>,
                                      r: Outcome, log: seq<Menu>)
    requires Split(whole, done, todo) && todo != [] && adopts(m, todo[0].m) && r == Finalize(adopts, todo[0], todo[1..])
    ensures Split(whole, done + [r.tree], r.rest) && Count(r.rest) < Count(todo)
    ensures Prepended(done, Adopt(adopts, m, todo)) == Prepended(done + [r.tree], Adopt(adopts, m, r.rest))
    ensures log + Preorder(done) + Preorder([r.tree]) == log + Preorder(done + [r.tree])
  {
    SplitStep(adopts, whole, done, todo, r);
    AdoptStep(adopts, m, done, todo, r);
    LogStep(log, done, r.tree);
  }

  /** What one round of the loop over a submenu does to the forests and to the log. */
  lemma {:induction false} FinalizeRound(adopts: Decision, whole: seq<Tree>, done: seq<Tree>, todo: seq<Tree>,
                                         r: Outcome, log: seq<Menu>)
    requires Split(whole, done, todo) && todo != [] && r == Finalize(adopts, todo[0], todo[1..])
    ensures Split(whole, done + [r.tree], r.rest) && Count(r.rest) < Count(todo)
    ensures done + FinalizeAll(adopts, todo) == (done + [r.tree]) + FinalizeAll(adopts, r.rest)
    ensures log + Preorder(done) + Preorder([r.tree]) == log + Preorder(done + [r.tree])
  {
    SplitStep(adopts, whole, done, todo, r);
    assert FinalizeAll(adopts, todo) == [r.tree] + FinalizeAll(adopts, r.rest);
    Associate(done, [r.tree], FinalizeAll(adopts, r.rest));
    LogStep(log, done, r.tree);
  }

  lemma {:induction false} FinalizedApart(adopts: Decision, todo: seq<Tree>)
    requires todo != [] && Distinct(Preorder(todo))
    ensures var r := Finalize(adopts, todo[0], todo[1..]);
            && todo[0].m in Nodes(todo) && todo[0].m !in Nodes(r.tree.kids) && todo[0].m !in Nodes(r.rest)
            && Nodes(r.rest) <= Nodes(todo) && Nodes(r.tree.kids) <= Nodes(todo)
  {
    var r := Finalize(adopts, todo[0], todo[1..]);
    assert todo == [todo[0]] + todo[1..];
    FinalizeKeepsOrder(adopts, todo[0], todo[1..]);
    DistinctMeansSeparate([r.tree] + r.rest);
    SameNodes([r.tree] + r.rest, todo);
    ConsParts(r.tree, r.rest);
  }

  /** An entry gets another parent while it stays linked to the siblings after it. */
  method SetParent(menu: Menu, ghost t: Tree, ghost rest: seq<Tree>, ghost from: Menu?, to: Menu, ghost next: Menu?)
    requires t.m == menu && Linked(t, from, next) && Chain(rest, from, null)
    requires menu !in Nodes(t.kids) && menu !in Nodes(rest)
    modifies menu`parent
    ensures Linked(t, to, next) && Chain(rest, from, null)
  {
    menu.parent := to;
  }

  lemma {:induction false} ChainEnd(ts: seq<Tree>, parent: Menu?, end: Menu?)
    requires ts != [] && Chain(ts, parent, end)
    ensures ts[|ts| - 1].m.next == end
  {
    if |ts| > 1 {
      ChainEnd(ts[1..], parent, end);
    }
  }

  /** The adopted siblings become the submenu, and the list of siblings goes on after them. */
  method Detach(parent: Menu, last: Menu, ghost kids: seq<Tree>, ghost rest: seq<Tree>, ghost up: Menu?)
    requires kids != [] && last == kids[|kids| - 1].m && last in Nodes(kids)
    requires parent.next == kids[0].m && parent.parent == up
    requires Chain(kids, parent, First(rest, null)) && Chain(rest, up, null)
    requires Separate(kids) && parent !in Nodes(kids) && parent !in Nodes(rest) && Nodes(kids) !! Nodes(rest)
    modifies parent, last`next
    ensures Chain(kids, parent, null) && Chain(rest, up, null)
    ensures parent.parent == up && parent.list == kids[0].m && parent.next == First(rest, null)
  {
    ChainEnd(kids, parent, First(rest, null));
    assert allocated(Nodes(rest));
    parent.list := parent.next;
    parent.next := last.next;
    SetNext(last, kids, parent, First(rest, null), null);
  }

  /** What follows the loop over the siblings. */
  method MoveAdopted(parent: Menu, last: Menu?, ghost rest: seq<Tree>, ghost taken: Adopted, ghost up: Menu?)
    requires SymbolFacts(parent, rest, taken) && last == LastOf(taken.kids)
    requires parent.parent == up && parent.list == null && parent.next == First(rest, null)
    requires Chain(taken.kids, parent, First(taken.rest, null)) && Chain(taken.rest, up, null)
    modifies {parent} + Nodes(rest)
    ensures Linked(Node(parent, Hoist(taken.kids)), up, First(taken.rest, null)) && Chain(taken.rest, up, null)
  {
    assert allocated(Nodes(taken.rest)) && allocated(Nodes(taken.kids));
    if last != null {
      Detach(parent, last, taken.kids, taken.rest, up);
    }
    HoistChildren(parent.list, taken.kids, parent);
  }

  /** Two forests that read the same start with the same entry. */
  lemma {:induction false} FirstKept(a: seq<Tree>, b: seq<Tree>)
    requires Preorder(a) == Preorder(b)
    ensures First(a, null) == First(b, null)
  {
    if a != [] && b != [] {
      assert Preorder(a)[0] == a[0].m && Preorder(b)[0] == b[0].m;
    }
  }

  lemma {:induction false} LogStep(log: seq<Menu>, done: seq<Tree>, t: Tree)
    ensures log + Preorder(done) + Preorder([t]) == log + Preorder(done + [t])
  {
    PreorderConcat(done, [t]);
    Associate(log, Preorder(done), Preorder([t]));
  }

  /** `whole` reads like what is done followed by what is left. */
  ghost predicate Split(whole: seq<Tree>, done: seq<Tree>, todo: seq<Tree>) {
    Preorder(whole) == Preorder(done) + Preorder(todo)
  }

  lemma {:induction false} SplitApart(whole: seq<Tree>, done: seq<Tree>, todo: seq<Tree>)
    requires Split(whole, done, todo) && Distinct(Preorder(whole))
    ensures Nodes(done) !! Nodes(todo) && Nodes(done) <= Nodes(whole) && Nodes(todo) <= Nodes(whole)
    ensures Distinct(Preorder(todo)) && Count(todo) <= Count(whole)
  {
    DistinctDisjoint(done, todo);
    DistinctParts(Preorder(done), Preorder(todo));
    NodesArePreorder(whole);
    NodesArePreorder(done);
    NodesArePreorder(todo);
    ElementsConcat(Preorder(done), Preorder(todo));
  }

  lemma {:induction false} SplitStep(adopts: Decision, whole: seq<Tree>, done: seq<Tree>, todo: seq<Tree>, r: Outcome)
    requires Split(whole, done, todo) && todo != [] && r == Finalize(adopts, todo[0], todo[1..])
    ensures Split(whole, done + [r.tree], r.rest) && Count(r.rest) < Count(todo)
  {
    assert todo == [todo[0]] + todo[1..];
    FinalizeKeepsOrder(adopts, todo[0], todo[1..]);
    PreorderConcat([r.tree], r.rest);
    PreorderCons(r.tree, []);
    SplitMove(whole, done, todo, r.tree, r.rest);
  }

  /** The first entry of what is left joins what is done. */
  lemma {:induction false} StepDone(done: seq<Tree>, t: Tree, parent: Menu?, next: Menu?)
    requires Chain(done, parent, t.m) && Linked(t, parent, next)
    ensures Chain(done + [t], parent, next)
  {
    ChainCons(t, [], parent, next);
    ChainConcat(done, [t], parent, next);
  }

  lemma {:induction false} LogFirst(t: Tree, log: seq<Menu>)
    ensures log + [t.m] + Preorder(t.kids) == log + Preorder([t])
  {
    PreorderCons(t, []);
    Associate(log, [t.m], Preorder(t.kids));
  }

  lemma {:induction false} ChainParts(ts: seq<Tree>, up: Menu?)
    requires ts != [] && Chain(ts, up, null)
    ensures Linked(ts[0], up, First(ts[1..], null)) && Chain(ts[1..], up, null)
    ensures ts[0].m.list == First(ts[0].kids, null)
  {
  }

  ghost predicate SubmenuFacts(adopts: Decision, ts: seq<Tree>)
    requires ts != []
  {
    var kids, finalized := ts[0].kids, FinalizeAll(adopts, ts[0].kids);
    && Nodes(finalized) == Nodes(kids)
    && Distinct(Preorder(kids)) && Distinct(Preorder(finalized))
    && First(finalized, null) == First(kids, null) == First(Hoist(finalized), null)
    && Preorder(Hoist(finalized)) == Preorder(kids)
    && Finalize(adopts, ts[0], ts[1..]) == Outcome(Node(ts[0].m, Hoist(finalized)), ts[1..])
    && Count(kids) < Count(ts)
    && ts[0].m !in Nodes(kids) && Nodes(kids) !! Nodes(ts[1..]) && Nodes(kids) <= Nodes(ts)
  }

  lemma {:induction false} SubmenuHolds(adopts: Decision, ts: seq<Tree>)
    requires ts != [] && ts[0].kids != [] && Distinct(Preorder(ts)) && Separate(ts)
    ensures SubmenuFacts(adopts, ts)
  {
    var kids, finalized := ts[0].kids, FinalizeAll(adopts, ts[0].kids);
    FinalizeAllKeepsOrder(adopts, kids);
    HoistKeepsOrder(finalized);
    SameNodes(finalized, kids);
    FirstKept(kids, finalized);
    FirstKept(kids, Hoist(finalized));
    PartsDistinct(ts);
  }

  lemma {:induction false} PartsDistinct(ts: seq<Tree>)
    requires ts != [] && Distinct(Preorder(ts))
    ensures Distinct(Preorder(ts[0].kids)) && Distinct(Preorder(ts[1..]))
    ensures Count(ts[0].kids) < Count(ts) && Count(ts[1..]) < Count(ts)
  {
    assert ts == [ts[0]] + ts[1..];
    FirstApart(ts[0], ts[1..]);
    CountOfKids(ts[0], ts[1..]);
  }

  ghost predicate SymbolFacts(m: Menu, rest: seq<Tree>, taken: Adopted) {
    && m !in Nodes(rest) && Nodes(taken.kids) <= Nodes(rest) && m !in Nodes(taken.rest)
    && Nodes(taken.kids) !! Nodes(taken.rest)
    && Distinct(Preorder(rest)) && Distinct(Preorder(taken.kids)) && Separate(taken.kids)
    && First(Hoist(taken.kids), null) == First(taken.kids, null)
    && First(rest, null) == First(taken.kids, First(taken.rest, null))
    && Nodes(Hoist(taken.kids)) == Nodes(taken.kids)
    && (taken.kids != [] ==> LastOf(taken.kids) in Nodes(taken.kids))
  }

  lemma {:induction false} SymbolHolds(adopts: Decision, ts: seq<Tree>, taken: Adopted)
    requires ts != [] && ts[0].kids == [] && ts[0].m.hasSym && Distinct(Preorder(ts)) && Separate(ts)
    requires taken == Adopt(adopts, ts[0].m, ts[1..])
    ensures SymbolFacts(ts[0].m, ts[1..], taken)
    ensures Finalize(adopts, ts[0], ts[1..]) == Outcome(Node(ts[0].m, Hoist(taken.kids)), taken.rest)
    ensures Preorder(Hoist(taken.kids)) == Preorder(taken.kids) && Count(ts[1..]) < Count(ts)
    ensures {ts[0].m} + Nodes(ts[1..]) <= Nodes(ts)
  {
    var rest := ts[1..];
    PartsDistinct(ts);
    AdoptKeepsOrder(adopts, ts[0].m, rest);
    SplitApart(rest, taken.kids, taken.rest);
    DistinctParts(Preorder(taken.kids), Preorder(taken.rest));
    DistinctMeansSeparate(taken.kids);
    HoistKeepsOrder(taken.kids);
    SameNodes(Hoist(taken.kids), taken.kids);
    FirstKept(taken.kids, Hoist(taken.kids));
    PreorderConcat(taken.kids, taken.rest);
    FirstKept(rest, taken.kids + taken.rest);
    if taken.kids != [] {
      StepSeparate(taken.kids, |taken.kids| - 1);
    }
  }

  /**
   * `menu_finalize(&rootmenu)`: the menu still reads the same, every entry has been finalized exactly once, each entry
   * is linked to the entry whose submenu holds it, and only entries with a prompt have a submenu.
   */
  method FinalizeRoot(root: Menu, adopts: Decision, ghost t: Tree) returns (ghost r: Tree, ghost log: seq<Menu>)
    requires t.m == root && Linked(t, null, null) && Distinct(Preorder([t]))
    modifies Nodes([t])
    ensures Linked(r, null, null) && r.m == root
    ensures Preorder([r]) == Preorder([t]) && log == Preorder([t])
    ensures OnlyPromptedHaveKids(r)
  {
    assert allocated(Nodes([t]));
    assert [t][1..] == [] && Chain([t], null, null);
    var finalizer := new Finalizer(adopts);
    FinalizeKeepsOrder(adopts, t, []);
    FinalizeHoists(adopts, t, []);
    ghost var outcome := finalizer.MenuFinalize(root, [t], null);
    assert [t] + [] == [t] && [outcome.tree] + outcome.rest == [outcome.tree];
    r, log := outcome.tree, finalizer.log;
  }
}
