/** The walk of `conf_write` and `conf_write_defconfig` over the linked menu entries. */
module MenuWalk {
  import opened MenuTree
  import opened MenuFinalize

  /** An entry whose submenu is being walked, and the siblings that come after it. */
  datatype Level = Level(owner: Menu, rest: seq<Tree>)

  function Owner(levels: seq<Level>, root: Menu): Menu {
    if levels == [] then root else levels[0].owner
  }

  function LevelNodes(levels: seq<Level>): set<Menu> {
    if levels == [] then {} else {levels[0].owner} + Nodes(levels[0].rest) + LevelNodes(levels[1..])
  }

  /** Following parent pointers leads through the owners, innermost first, to the root. */
  ghost predicate Above(levels: seq<Level>, root: Menu)
    reads {root} + LevelNodes(levels)
  {
    if levels == [] then root.parent == null && root.next == null
    else
      var outer := levels[1..];
      && levels[0].owner.parent == Owner(outer, root)
      && levels[0].owner.next == First(levels[0].rest, null)
      && Chain(levels[0].rest, Owner(outer, root), null)
      && Above(outer, root)
  }

  /** What the walk has still to visit after the current submenu. */
  function Remaining(levels: seq<Level>): seq<Menu> {
    if levels == [] then [] else Preorder(levels[0].rest) + Remaining(levels[1..])
  }

  /** What the walk has still to visit, the current submenu first. */
  function Pending(here: seq<Tree>, levels: seq<Level>): seq<Menu> {
    Preorder(here) + Remaining(levels)
  }

  /** The walk stands at the front of `here`, below the submenus `levels`. */
  ghost predicate At(menu: Menu?, here: seq<Tree>, levels: seq<Level>, root: Menu)
    reads {root} + LevelNodes(levels) + Nodes(here)
  {
    && menu == First(here, null) && Chain(here, Owner(levels, root), null) && Above(levels, root)
    && (here == [] ==> levels == [])
  }

  /** The loop visits exactly the entries below the root, each once, a submenu right after its owner. */
  method Walk(root: Menu, ghost t: Tree) returns (visited: seq<Menu>)
    requires t.m == root && Linked(t, null, null)
    ensures visited == Preorder(t.kids)
  {
    visited := [];
    var menu := root.list;
    ghost var here, levels: seq<Level> := t.kids, [];
    while menu != null
      invariant At(menu, here, levels, root)
      invariant visited + Pending(here, levels) == Preorder(t.kids)
      decreases |Pending(here, levels)|
    {
      ghost var before := visited;
      visited := visited + [menu];
      ghost var m, pending := menu, Pending(here, levels);
      menu, here, levels := Next(menu, root, here, levels);
      assert pending == [m] + Pending(here, levels);
      assert before + ([m] + Pending(here, levels)) == (before + [m]) + Pending(here, levels);
    }
  }

  /** Down into the submenu, or on to the next sibling, or up. */
  method Next(menu: Menu, root: Menu, ghost here: seq<Tree>, ghost levels: seq<Level>)
    returns (menu': Menu?, ghost here': seq<Tree>, ghost levels': seq<Level>)
    requires At(menu, here, levels, root)
    ensures At(menu', here', levels', root)
    ensures Pending(here, levels) == [menu] + Pending(here', levels')
  {
    VisitStep(menu, here, levels);
    assert Linked(here[0], Owner(levels, root), First(here[1..], null)) && Chain(here[1..], Owner(levels, root), null);
    assert ([Level(menu, here[1..])] + levels)[1..] == levels;
    assert Preorder([]) + Remaining(levels) == Remaining(levels);
    if menu.list != null {
      here', levels' := here[0].kids, [Level(menu, here[1..])] + levels;
      menu' := menu.list;
    } else if menu.next != null {
      here', levels' := here[1..], levels;
      menu' := menu.next;
    } else {
      menu', here', levels' := Climb(menu, root, levels);
    }
  }

  /** After the visit of `here[0]` come its submenu, the siblings after it and what was pending before. */
  lemma {:induction false} VisitStep(menu: Menu, here: seq<Tree>, levels: seq<Level>)
    requires here != [] && here[0].m == menu
    ensures Pending(here, levels) == [menu] + Pending(here[0].kids, [Level(menu, here[1..])] + levels)
    ensures here[0].kids == [] ==> Pending(here, levels) == [menu] + Pending(here[1..], levels)
  {
    var kids, rest, above := Preorder(here[0].kids), Preorder(here[1..]), Remaining(levels);
    RemainingCons(menu, here[1..], levels);
    AfterVisit(menu, kids, rest, above);
    if here[0].kids == [] {
      assert [] + (rest + above) == rest + above;
    }
  }

  lemma {:induction false} RemainingCons(m: Menu, rest: seq<Tree>, levels: seq<Level>)
    ensures Remaining([Level(m, rest)] + levels) == Preorder(rest) + Remaining(levels)
  {
    assert ([Level(m, rest)] + levels)[1..] == levels;
  }

  lemma {:induction false} AfterVisit(m: Menu, kids: seq<Menu>, rest: seq<Menu>, pending: seq<Menu>)
    ensures ([m] + (kids + rest)) + pending == [m] + (kids + (rest + pending))
  {
  }

  /** The first entry after the submenus being walked. */
  function NextAfter(levels: seq<Level>): Menu? {
    if levels == [] then null
    else if levels[0].rest != [] then levels[0].rest[0].m
    else NextAfter(levels[1..])
  }

  /** From the last entry of a submenu up to the first ancestor that has a sibling after it. */
  method Climb(last: Menu, root: Menu, ghost levels: seq<Level>)
    returns (menu: Menu?, ghost here: seq<Tree>, ghost left: seq<Level>)
    requires last.parent == Owner(levels, root) && Above(levels, root)
    ensures menu == NextAfter(levels)
    ensures menu == First(here, null) && Chain(here, Owner(left, root), null) && Above(left, root)
    ensures here == [] ==> left == []
    ensures Preorder(here) + Remaining(left) == Remaining(levels)
  {
    here, left := [], levels;
    menu := last.parent;
    while menu != null
      invariant Above(left, root) && Remaining(left) == Remaining(levels) && NextAfter(left) == NextAfter(levels)
      invariant menu == (if menu == null then null else Owner(left, root)) && (menu == null ==> left == [])
      decreases |left|, menu != null
    {
      if menu.next != null {
        here, left := left[0].rest, left[1..];
        menu := menu.next;
        return;
      }
      menu := menu.parent;
      left := if left == [] then [] else left[1..];
    }
  }
}
