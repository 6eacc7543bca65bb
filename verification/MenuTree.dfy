/** The menu as a forest, and what `menu_finalize` does to its shape. */
module MenuTree {
  import opened Wrappers

  /** The links of `struct menu`, whether the entry belongs to a symbol and whether it has a prompt with text. */
  class Menu {
    var next: Menu?
    var parent: Menu?
    var list: Menu?
    const hasSym: bool
    const prompted: bool

    constructor (hasSym: bool, prompted: bool)
      ensures this.hasSym == hasSym && this.prompted == prompted
      ensures next == null && parent == null && list == null
    {
      this.hasSym, this.prompted := hasSym, prompted;
      next, parent, list := null, null, null;
    }
  }

  datatype Tree = Node(m: Menu, kids: seq<Tree>)

  function Preorder(ts: seq<Tree>): seq<Menu>
    decreases ts
  {
    if ts == [] then [] else [ts[0].m] + (Preorder(ts[0].kids) + Preorder(ts[1..]))
  }

  function Nodes(ts: seq<Tree>): set<Menu>
    decreases ts
  {
    if ts == [] then {} else {ts[0].m} + Nodes(ts[0].kids) + Nodes(ts[1..])
  }

  lemma {:induction false} NodesArePreorder(ts: seq<Tree>)
    ensures Nodes(ts) == Elements(Preorder(ts))
    decreases ts
  {
    if ts != [] {
      NodesArePreorder(ts[0].kids);
      NodesArePreorder(ts[1..]);
      ElementsConcat([ts[0].m], Preorder(ts[0].kids) + Preorder(ts[1..]));
      ElementsConcat(Preorder(ts[0].kids), Preorder(ts[1..]));
    }
  }

  function Count(ts: seq<Tree>): nat {
    |Preorder(ts)|
  }

  lemma {:induction false} PreorderConcat(a: seq<Tree>, b: seq<Tree>)
    ensures Preorder(a + b) == Preorder(a) + Preorder(b)
  {
    if a == [] {
      assert a + b == b;
    } else {
      assert (a + b)[1..] == a[1..] + b;
      PreorderConcat(a[1..], b);
      Regroup([a[0].m], Preorder(a[0].kids), Preorder(a[1..]), Preorder(b));
    }
  }

  lemma {:induction false} Regroup<T>(a: seq<T>, b: seq<T>, c: seq<T>, d: seq<T>)
    ensures a + (b + (c + d)) == (a + (b + c)) + d
  {
  }

  lemma {:induction false} PreorderCons(t: Tree, rest: seq<Tree>)
    ensures Preorder([t] + rest) == [t.m] + (Preorder(t.kids) + Preorder(rest))
  {
    assert ([t] + rest)[1..] == rest;
  }

  // The shape after `menu_finalize`, for any answer to the question which siblings an entry adopts

  type Decision = (Menu, Menu) -> bool

  /** A finalized entry and the siblings after it that are still its siblings. */
  datatype Outcome = Outcome(tree: Tree, rest: seq<Tree>)

  datatype Adopted = Adopted(kids: seq<Tree>, rest: seq<Tree>)

  function Finalize(adopts: Decision, t: Tree, rest: seq<Tree>): (r: Outcome)
    ensures Count(r.rest) <= Count(rest) && r.tree.m == t.m
    decreases Count([t] + rest), 0
  {
    if t.kids != [] then
      assert Count(t.kids) < Count([t] + rest);
      Outcome(Node(t.m, Hoist(FinalizeAll(adopts, t.kids))), rest)
    else if t.m.hasSym then
      assert ([t] + rest)[1..] == rest;
      var adopted := Adopt(adopts, t.m, rest);
      Outcome(Node(t.m, Hoist(adopted.kids)), adopted.rest)
    else Outcome(t, rest)
  }

  /** The loop over the siblings after an entry without a submenu. */
  function Adopt(adopts: Decision, m: Menu, rest: seq<Tree>): (r: Adopted)
    ensures Count(r.rest) <= Count(rest)
    decreases Count(rest), 2
  {
    if rest == [] || !adopts(m, rest[0].m) then Adopted([], rest)
    else
      assert [rest[0]] + rest[1..] == rest;
      var first := Finalize(adopts, rest[0], rest[1..]);
      var more := Adopt(adopts, m, first.rest);
      Adopted([first.tree] + more.kids, more.rest)
  }

  /** The loop over the entries of a submenu. */
  function FinalizeAll(adopts: Decision, ts: seq<Tree>): seq<Tree>
    decreases Count(ts), 2
  {
    if ts == [] then []
    else
      assert [ts[0]] + ts[1..] == ts;
      var first := Finalize(adopts, ts[0], ts[1..]);
      [first.tree] + FinalizeAll(adopts, first.rest)
  }

  /** The loop that moves the children of entries without a prompt behind them. */
  function Hoist(ts: seq<Tree>): seq<Tree>
    decreases Count(ts)
  {
    if ts == [] then []
    else if ts[0].kids != [] && !ts[0].m.prompted then
      PreorderConcat(ts[0].kids, ts[1..]);
      [Node(ts[0].m, [])] + Hoist(ts[0].kids + ts[1..])
    else [ts[0]] + Hoist(ts[1..])
  }

  lemma {:induction false} HoistKeepsOrder(ts: seq<Tree>)
    ensures Preorder(Hoist(ts)) == Preorder(ts)
    decreases Count(ts)
  {
    if ts != [] {
      if ts[0].kids != [] && !ts[0].m.prompted {
        PreorderConcat(ts[0].kids, ts[1..]);
        HoistKeepsOrder(ts[0].kids + ts[1..]);
        PreorderCons(Node(ts[0].m, []), Hoist(ts[0].kids + ts[1..]));
      } else {
        HoistKeepsOrder(ts[1..]);
        PreorderCons(ts[0], Hoist(ts[1..]));
      }
    }
  }

  lemma {:induction false} SameKids(t: Tree, kids: seq<Tree>, rest: seq<Tree>)
    requires Preorder(kids) == Preorder(t.kids)
    ensures Preorder([Node(t.m, kids)] + rest) == Preorder([t] + rest)
  {
    PreorderCons(t, rest);
    PreorderCons(Node(t.m, kids), rest);
  }

  /** Siblings that become children stay behind the entry. */
  lemma {:induction false} KidsFromRest(t: Tree, kids: seq<Tree>, after: seq<Tree>, rest: seq<Tree>)
    requires t.kids == [] && Preorder(kids) + Preorder(after) == Preorder(rest)
    ensures Preorder([Node(t.m, kids)] + after) == Preorder([t] + rest)
  {
    PreorderCons(t, rest);
    PreorderCons(Node(t.m, kids), after);
    assert Preorder(t.kids) == [];
  }

  /** No entry is lost, duplicated or moved in the order in which the menu is read. */
  lemma {:induction false} FinalizeKeepsOrder(adopts: Decision, t: Tree, rest: seq<Tree>)
    ensures var r := Finalize(adopts, t, rest); Preorder([r.tree] + r.rest) == Preorder([t] + rest)
    decreases Count([t] + rest), 1
  {
    if t.kids != [] {
      var kids := FinalizeAll(adopts, t.kids);
      CountOfKids(t, rest);
      FinalizeAllKeepsOrder(adopts, t.kids);
      HoistKeepsOrder(kids);
      SameKids(t, Hoist(kids), rest);
    } else if t.m.hasSym {
      var adopted := Adopt(adopts, t.m, rest);
      CountOfKids(t, rest);
      AdoptKeepsOrder(adopts, t.m, rest);
      HoistKeepsOrder(adopted.kids);
      KidsFromRest(t, Hoist(adopted.kids), adopted.rest, rest);
    }
  }

  lemma {:induction false} CountOfKids(t: Tree, rest: seq<Tree>)
    ensures Count(t.kids) < Count([t] + rest) && Count(rest) < Count([t] + rest)
  {
    PreorderCons(t, rest);
  }

  /** One more entry in front changes nothing. */
  lemma {:induction false} OrderCons(t: Tree, kids: seq<Tree>, after: seq<Tree>, rest: seq<Tree>)
    requires Preorder(kids) + Preorder(after) == Preorder(rest)
    ensures Preorder([t] + kids) + Preorder(after) == Preorder([t] + rest)
  {
    PreorderCons(t, kids);
    PreorderCons(t, rest);
    Regroup([t.m], Preorder(t.kids), Preorder(kids), Preorder(after));
  }

  lemma {:induction false} AdoptKeepsOrder(adopts: Decision, m: Menu, rest: seq<Tree>)
    ensures var r := Adopt(adopts, m, rest); Preorder(r.kids) + Preorder(r.rest) == Preorder(rest)
    decreases Count(rest), 3
  {
    if rest != [] && adopts(m, rest[0].m) {
      assert [rest[0]] + rest[1..] == rest;
      var first := Finalize(adopts, rest[0], rest[1..]);
      FinalizeKeepsOrder(adopts, rest[0], rest[1..]);
      AdoptKeepsOrder(adopts, m, first.rest);
      var more := Adopt(adopts, m, first.rest);
      OrderCons(first.tree, more.kids, more.rest, first.rest);
    }
  }

  lemma {:induction false} FinalizeAllKeepsOrder(adopts: Decision, ts: seq<Tree>)
    ensures Preorder(FinalizeAll(adopts, ts)) == Preorder(ts)
    decreases Count(ts), 3
  {
    if ts != [] {
      assert [ts[0]] + ts[1..] == ts;
      var first := Finalize(adopts, ts[0], ts[1..]);
      FinalizeKeepsOrder(adopts, ts[0], ts[1..]);
      FinalizeAllKeepsOrder(adopts, first.rest);
      PreorderConcat([first.tree], first.rest);
      PreorderConcat([first.tree], FinalizeAll(adopts, first.rest));
    }
  }

  /** Below `t` only entries with a prompt have children. */
  predicate OnlyPromptedHaveKids(t: Tree)
    decreases t
  {
    AllPromptedOrLeaf(t.kids)
  }

  predicate AllPromptedOrLeaf(ts: seq<Tree>)
    decreases ts
  {
    ts == [] || ((ts[0].kids == [] || ts[0].m.prompted) && OnlyPromptedHaveKids(ts[0]) && AllPromptedOrLeaf(ts[1..]))
  }

  predicate AllFinal(ts: seq<Tree>)
    decreases ts
  {
    ts == [] || (OnlyPromptedHaveKids(ts[0]) && AllFinal(ts[1..]))
  }

  lemma {:induction false} PromptedIsFinal(ts: seq<Tree>)
    requires AllPromptedOrLeaf(ts)
    ensures AllFinal(ts)
  {
    if ts != [] {
      PromptedIsFinal(ts[1..]);
    }
  }

  lemma {:induction false} AllFinalConcat(a: seq<Tree>, b: seq<Tree>)
    requires AllFinal(a) && AllFinal(b)
    ensures AllFinal(a + b)
  {
    if a == [] {
      assert a + b == b;
    } else {
      assert (a + b)[1..] == a[1..] + b;
      AllFinalConcat(a[1..], b);
    }
  }

  lemma {:induction false} HoistLeavesPrompted(ts: seq<Tree>)
    requires AllFinal(ts)
    ensures AllPromptedOrLeaf(Hoist(ts))
    decreases Count(ts)
  {
    if ts != [] {
      if ts[0].kids != [] && !ts[0].m.prompted {
        PreorderConcat(ts[0].kids, ts[1..]);
        PromptedIsFinal(ts[0].kids);
        AllFinalConcat(ts[0].kids, ts[1..]);
        HoistLeavesPrompted(ts[0].kids + ts[1..]);
        assert Hoist(ts)[1..] == Hoist(ts[0].kids + ts[1..]);
      } else {
        HoistLeavesPrompted(ts[1..]);
        assert Hoist(ts)[1..] == Hoist(ts[1..]);
      }
    }
  }

  /** After `menu_finalize` only entries with a prompt have a submenu, the finalized entry itself aside. */
  lemma {:induction false} FinalizeHoists(adopts: Decision, t: Tree, rest: seq<Tree>)
    ensures OnlyPromptedHaveKids(Finalize(adopts, t, rest).tree)
    decreases Count([t] + rest), 1
  {
    assert ([t] + rest)[1..] == rest;
    if t.kids != [] {
      FinalizeAllHoists(adopts, t.kids);
      HoistLeavesPrompted(FinalizeAll(adopts, t.kids));
    } else if t.m.hasSym {
      AdoptHoists(adopts, t.m, rest);
      HoistLeavesPrompted(Adopt(adopts, t.m, rest).kids);
    }
  }

  lemma {:induction false} AdoptHoists(adopts: Decision, m: Menu, rest: seq<Tree>)
    ensures AllFinal(Adopt(adopts, m, rest).kids)
    decreases Count(rest), 3
  {
    if rest != [] && adopts(m, rest[0].m) {
      assert [rest[0]] + rest[1..] == rest;
      var first := Finalize(adopts, rest[0], rest[1..]);
      FinalizeHoists(adopts, rest[0], rest[1..]);
      AdoptHoists(adopts, m, first.rest);
      assert Adopt(adopts, m, rest).kids[1..] == Adopt(adopts, m, first.rest).kids;
    }
  }

  lemma {:induction false} FinalizeAllHoists(adopts: Decision, ts: seq<Tree>)
    ensures AllFinal(FinalizeAll(adopts, ts))
    decreases Count(ts), 3
  {
    if ts != [] {
      assert [ts[0]] + ts[1..] == ts;
      var first := Finalize(adopts, ts[0], ts[1..]);
      FinalizeHoists(adopts, ts[0], ts[1..]);
      FinalizeAllHoists(adopts, first.rest);
      assert FinalizeAll(adopts, ts)[1..] == FinalizeAll(adopts, first.rest);
    }
  }

  predicate AllAccepted(adopts: Decision, m: Menu, kids: seq<Tree>) {
    kids == [] || (adopts(m, kids[0].m) && AllAccepted(adopts, m, kids[1..]))
  }

  /** Exactly the siblings before the first one turned down are taken, not counting those taken by one of them. */
  lemma {:induction false} AdoptStopsAtFirstRefusal(adopts: Decision, m: Menu, rest: seq<Tree>)
    ensures var r := Adopt(adopts, m, rest);
            AllAccepted(adopts, m, r.kids) && (r.rest != [] ==> !adopts(m, r.rest[0].m))
    decreases Count(rest)
  {
    if rest != [] && adopts(m, rest[0].m) {
      assert [rest[0]] + rest[1..] == rest;
      var first := Finalize(adopts, rest[0], rest[1..]);
      AdoptStopsAtFirstRefusal(adopts, m, first.rest);
      assert Adopt(adopts, m, rest).kids[1..] == Adopt(adopts, m, first.rest).kids;
    }
  }

  /** The loop of hoisting, unfolded once with more entries behind. */
  lemma {:induction false} HoistStepOf(t: Tree, rest: seq<Tree>)
    ensures t.kids != [] && !t.m.prompted ==> Hoist([t] + rest) == [Node(t.m, [])] + Hoist(t.kids + rest)
    ensures t.kids == [] || t.m.prompted ==> Hoist([t] + rest) == [t] + Hoist(rest)
  {
    assert ([t] + rest)[1..] == rest;
  }

  lemma {:induction false} Regrouped(t: Tree, a: seq<Tree>, b: seq<Tree>, c: seq<Tree>)
    ensures ([t] + a) + b == [t] + (a + b) && (a + b) + c == a + (b + c)
  {
  }

  /** Hoisting treats each entry on its own. */
  lemma {:induction false} HoistConcat(a: seq<Tree>, b: seq<Tree>)
    ensures Hoist(a + b) == Hoist(a) + Hoist(b)
    decreases Count(a)
  {
    if a == [] {
      assert a + b == b;
    } else {
      var t, rest := a[0], a[1..];
      assert a == [t] + rest;
      PreorderCons(t, rest);
      HoistStepOf(t, rest);
      HoistStepOf(t, rest + b);
      Regrouped(t, rest, b, []);
      if t.kids != [] && !t.m.prompted {
        PreorderConcat(t.kids, rest);
        HoistConcat(t.kids + rest, b);
        Regrouped(t, t.kids, rest, b);
        HoistCons(Node(t.m, []), Hoist(t.kids + rest), Hoist(b));
      } else {
        HoistConcat(rest, b);
        HoistCons(t, Hoist(rest), Hoist(b));
      }
    }
  }

  lemma {:induction false} HoistCons(t: Tree, a: seq<Tree>, b: seq<Tree>)
    ensures [t] + (a + b) == ([t] + a) + b
  {
  }

  /** An entry keeps its submenu if it has a prompt, and else is followed by what was in it. */
  lemma {:induction false} HoistOne(t: Tree)
    ensures t.kids == [] || t.m.prompted ==> Hoist([t]) == [t]
    ensures t.kids != [] && !t.m.prompted ==> Hoist([t]) == [Node(t.m, [])] + Hoist(t.kids)
  {
    assert [t][1..] == [];
    assert t.kids + [] == t.kids;
  }

  /** Entries with a prompt stay at their level with all they have. */
  lemma {:induction false} HoistKeepsPrompted(ts: seq<Tree>, i: nat)
    requires i < |ts| && (ts[i].kids == [] || ts[i].m.prompted)
    ensures ts[i] in Hoist(ts)
  {
    assert ts == ts[..i] + ([ts[i]] + ts[i + 1..]);
    HoistConcat(ts[..i], [ts[i]] + ts[i + 1..]);
    HoistConcat([ts[i]], ts[i + 1..]);
    HoistOne(ts[i]);
  }

  /** Only an entry of a symbol without a submenu adopts siblings, and then as many as it may; another one without stays. */
  lemma {:induction false} OnlySymbolsAdopt(adopts: Decision, t: Tree, rest: seq<Tree>)
    ensures var r := Finalize(adopts, t, rest);
            if t.kids == [] && t.m.hasSym then r.rest == [] || !adopts(t.m, r.rest[0].m)
            else r.rest == rest && (t.kids == [] ==> r.tree == t)
  {
    if t.kids == [] && t.m.hasSym {
      AdoptStopsAtFirstRefusal(adopts, t.m, rest);
    }
  }
}
