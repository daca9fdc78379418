/** Selecting one department from scratch, and rebuilding the tree when the store has grown. */
module DepartmentRebuild {
  import opened Departments

  /** All marks off. */
  function Cleared(t: Tree): Tree {
    map x | x in t :: t[x].(checked := false, half := false)
  }

  /** What the selector does when a box is clicked: clear every mark, then toggle the one department
      (front/src/components/OrganizationSelect/index.tsx). */
  ghost function Select(t: Tree, d: Depths, id: int, c: bool): Tree
    requires WellFormed(t, d) && id in t
  {
    ShapeKeepsWellFormed(t, Cleared(t), d);
    Toggle(Cleared(t), d, id, c)
  }

  lemma ClearedAgrees(t: Tree, d: Depths)
    requires WellFormed(t, d)
    ensures WellFormed(Cleared(t), d) && TriState(Cleared(t), d)
  {
    ShapeKeepsWellFormed(t, Cleared(t), d);
    forall x | x in t
      ensures Placed(Cleared(t), d, x) && Agrees(Cleared(t), x)
    {
      assert Placed(t, d, x) && Placed(Cleared(t), d, x);
      if t[x].children != [] {
        var y := t[x].children[0];
        assert y in t[x].children && y in t && !Cleared(t)[y].checked;
      }
    }
  }

  lemma {:induction false} UnderOneMeansAt(t: Tree, d: Depths, id: int, x: int)
    requires WellFormed(t, d) && x in t && Under(t, d, [id], x)
    ensures At(t, d, id, x)
    decreases if x in d.of then d.of[x] else 0
  {
    assert Placed(t, d, x);
    if x != id {
      UnderOneMeansAt(t, d, id, t[x].parent);
    }
  }

  /** Whatever the marks were, after a selection they agree, and what is shown is the department itself or an ancestor
      all of whose children are checked with it; after a deselection nothing is shown. */
  lemma SelectingShowsTheDepartmentOrAnAncestor(t: Tree, d: Depths, roots: seq<int>, id: int, c: bool)
    requires WellFormed(t, d) && Closed(t) && Roots(t, roots) && id in t
    ensures var r := Select(t, d, id, c);
            && id in r && WellFormed(r, d) && TriState(r, d) && (forall x | x in roots :: x in r && x in d.of)
            && var shown := Picked(r, d, roots, [], 0);
            if c then |shown| == 1 && shown[0] in r && (shown[0] == id || Above(r, d, shown[0], id)) else shown == []
  {
    var u, r := Cleared(t), Select(t, d, id, c);
    ClearedAgrees(t, d);
    ToggleKeepsTriState(u, d, id, c);
    assert Closed(r) && Roots(r, roots);
    SelectionIsATopmostChecked(r, d, roots);
    var shown := Picked(r, d, roots, [], 0);
    forall x | x in r && r[x].checked
      ensures c || Above(r, d, x, id)
      ensures x == id || Above(r, d, id, x) || Above(r, d, x, id)
    {
      ShapeKeepsAbove(u, r, d, x, id);
      ShapeKeepsAbove(u, r, d, id, x);
      if !Above(u, d, x, id) {
        ToggleIsLocal(u, d, id, c, x);
        UnderOneMeansAt(u, d, id, x);
      }
    }
    NotAboveItself(r, d, id);
    NotAboveItself(u, d, id);
    ToggleIsLocal(u, d, id, c, id);
    if !c && shown != [] {
      UncheckedAncestors(r, d, shown[0], id);
    }
  }

  lemma {:induction false} AboveIsShallower(t: Tree, d: Depths, a: int, x: int)
    requires WellFormed(t, d) && x in t && Above(t, d, a, x)
    ensures a in t && a in d.of && x in d.of && d.of[a] < d.of[x]
    decreases if x in d.of then d.of[x] else 0
  {
    assert Placed(t, d, x);
    if t[x].parent != a {
      AboveIsShallower(t, d, a, t[x].parent);
    }
  }

  lemma NotAboveItself(t: Tree, d: Depths, x: int)
    requires WellFormed(t, d) && x in t
    ensures !Above(t, d, x, x)
  {
    if Above(t, d, x, x) {
      AboveIsShallower(t, d, x, x);
    }
  }

  /** An ancestor of an unchecked department is unchecked. */
  lemma {:induction false} UncheckedAncestors(t: Tree, d: Depths, a: int, x: int)
    requires WellFormed(t, d) && TriState(t, d) && x in t && !t[x].checked && Above(t, d, a, x)
    ensures a in t && !t[a].checked
    decreases if x in d.of then d.of[x] else 0
  {
    assert Placed(t, d, x);
    assert Placed(t, d, t[x].parent) && Agrees(t, t[x].parent);
    if t[x].parent != a {
      UncheckedAncestors(t, d, a, t[x].parent);
    }
  }

  /** What the store holds of a department. */
  datatype Item = Item(parent: int, hasChildren: bool, loaded: bool)

  /** The store's insertion-ordered map. */
  datatype Store = Store(order: seq<int>, items: map<int, Item>)

  ghost predicate ValidStore(s: Store) {
    && (forall x :: x in s.order <==> x in s.items)
    && (forall i, j | 0 <= i < j < |s.order| :: s.order[i] != s.order[j])
  }

  /** The ids among `order` whose parent is `x`, in order. */
  function ChildrenOf(items: map<int, Item>, order: seq<int>, x: int): seq<int> {
    if order == [] then []
    else
      var n := |order| - 1;
      ChildrenOf(items, order[..n], x) + (if order[n] in items && items[order[n]].parent == x then [order[n]] else [])
  }

  /** The department made for an item: it inherits a check from its old parent, and keeps its own old marks. */
  function Carried(t: Tree, id: int, it: Item): Dept {
    Dept(it.parent, it.hasChildren, it.loaded, [],
         (it.parent in t && t[it.parent].checked) || (id in t && t[id].checked),
         id in t && t[id].half)
  }

  /** Children are attached only to a department that may have some, which is then loaded. */
  function Attach(v: Dept, children: seq<int>): Dept {
    if v.hasChildren && children != [] then v.(children := children, loaded := true) else v
  }

  /** The tree rebuilt from a store over the old tree, with the departments of `attached` pushed to their parents. */
  function Rebuilt(t: Tree, s: Store, attached: seq<int>): Tree {
    map x | x in s.items :: Attach(Carried(t, x, s.items[x]), ChildrenOf(s.items, attached, x))
  }

  function Rebuild(t: Tree, s: Store): Tree {
    Rebuilt(t, s, s.order)
  }

  lemma {:induction false} ChildrenAreExact(items: map<int, Item>, order: seq<int>, x: int)
    ensures forall c :: c in ChildrenOf(items, order, x) <==> c in order && c in items && items[c].parent == x
  {
    if order != [] {
      ChildrenAreExact(items, order[..|order| - 1], x);
      assert order == order[..|order| - 1] + [order[|order| - 1]];
    }
  }

  /** A department gets its children in the order of the store, each once. */
  lemma {:induction false} ChildrenInStoreOrder(items: map<int, Item>, order: seq<int>, x: int, i: nat, j: nat)
    returns (p: nat, q: nat)
    requires i < j < |ChildrenOf(items, order, x)|
    ensures p < q < |order| && order[p] == ChildrenOf(items, order, x)[i] && order[q] == ChildrenOf(items, order, x)[j]
    decreases |order|
  {
    var n := |order| - 1;
    var before := ChildrenOf(items, order[..n], x);
    if j < |before| {
      p, q := ChildrenInStoreOrder(items, order[..n], x, i, j);
    } else {
      ChildrenAreExact(items, order[..n], x);
      assert before[i] in before;
      p :| 0 <= p < n && order[..n][p] == before[i];
      q := n;
    }
  }

  /** The store is a forest in which parents may have children; a parent may be missing. */
  ghost predicate ForestStore(s: Store, d: Depths) {
    && ValidStore(s) && 0 !in s.items
    && (forall x | x in s.items :: x in d.of && d.of[x] < d.limit)
    && (forall x | x in s.items && s.items[x].parent in s.items ::
          s.items[s.items[x].parent].hasChildren && d.of[s.items[x].parent] < d.of[x])
  }

  /** The store still has every department of the tree, under the same parent. */
  ghost predicate Grown(t: Tree, s: Store) {
    forall x | x in t :: x in s.items && s.items[x].parent == t[x].parent
  }

  lemma RebuiltIsWellFormed(t: Tree, s: Store, d: Depths)
    requires ForestStore(s, d)
    ensures WellFormed(Rebuild(t, s), d)
    ensures (forall x | x in s.items :: s.items[x].parent == 0 || s.items[x].parent in s.items) ==>
              Closed(Rebuild(t, s))
  {
    forall x | x in s.items
      ensures Placed(Rebuild(t, s), d, x)
    {
      RebuiltIsPlaced(t, s, d, x);
    }
  }

  lemma RebuiltIsPlaced(t: Tree, s: Store, d: Depths, x: int)
    requires ForestStore(s, d) && x in s.items
    ensures Placed(Rebuild(t, s), d, x)
  {
    hide Carried;
    ChildrenAreExact(s.items, s.order, x);
    CarriedShape(t, x, s.items[x]);
    var p := s.items[x].parent;
    if p in s.items {
      ChildrenAreExact(s.items, s.order, p);
      CarriedShape(t, p, s.items[p]);
    }
    forall c | c in ChildrenOf(s.items, s.order, x)
      ensures c in s.items && Rebuild(t, s)[c].parent == x
    {
      CarriedShape(t, c, s.items[c]);
    }
  }

  lemma CarriedShape(t: Tree, id: int, it: Item)
    ensures var v := Carried(t, id, it);
            v.parent == it.parent && v.hasChildren == it.hasChildren && v.loaded == it.loaded && v.children == []
  {
  }

  /** The check a department takes over from its parent. */
  predicate Inherits(t: Tree, s: Store, x: int)
    requires x in s.items
  {
    s.items[x].parent in t && t[s.items[x].parent].checked
  }

  /** A department that arrives after or together with children of its own whose marks do not suit the check it
      inherits: under a check all of them would have to be checked already, otherwise none may have a mark. Children
      that arrive together with it have none. */
  ghost predicate ArrivesAtOdds(t: Tree, s: Store, x: int)
    requires x in s.items
  {
    var cs := ChildrenOf(s.items, s.order, x);
    && x !in t && cs != []
    && if Inherits(t, s, x) then exists c :: c in cs && !(c in t && t[c].checked && !t[c].half)
       else exists c :: c in cs && c in t && (t[c].checked || t[c].half)
  }

  /** Every department of the store is attached to its parent. */
  lemma AllChildrenAreAttached(t: Tree, s: Store, d: Depths, x: int)
    requires ForestStore(s, d) && x in s.items
    ensures Rebuild(t, s)[x].children == ChildrenOf(s.items, s.order, x)
  {
    ChildrenAreExact(s.items, s.order, x);
    var cs := ChildrenOf(s.items, s.order, x);
    if cs != [] {
      var c := cs[0];
      assert c in cs && s.items[c].parent != 0;
    }
  }

  /** The marks a department has after the rebuild, for one that was there before and for one that was not. */
  lemma CarriedMarks(t: Tree, s: Store, d: Depths, x: int)
    requires WellFormed(t, d) && TriState(t, d) && Grown(t, s) && x in s.items
    ensures var v := Rebuild(t, s)[x];
            if x in t then v.checked == t[x].checked && v.half == t[x].half
            else v.checked == Inherits(t, s, x) && !v.half
  {
    if x in t && t[x].parent in t {
      assert Placed(t, d, x);
      assert Placed(t, d, t[x].parent) && Agrees(t, t[x].parent);
    }
  }

  /** Children of an old department: the old ones, and new ones that take its check. */
  lemma OldDepartmentAgrees(t: Tree, u: Tree, x: int)
    requires x in t && (forall c | c in t[x].children :: c in t) && Agrees(t, x)
    requires x in u && u[x].checked == t[x].checked && u[x].half == t[x].half
    requires forall c | c in t[x].children ::
               c in u[x].children && c in u && u[c].checked == t[c].checked && u[c].half == t[c].half
    requires forall c | c in u[x].children && c !in t[x].children ::
               c in u && u[c].checked == t[x].checked && !u[c].half
    ensures (forall c | c in u[x].children :: c in u) && Agrees(u, x)
  {
    var was, cs := t[x].children, u[x].children;
    if was == [] {
      if cs != [] {
        var c := cs[0];
        assert c in cs && u[c].checked == t[x].checked;
      }
    } else {
      var first := was[0];
      assert first in was && first in cs;
      if t[x].checked {
        assert AllChecked(u, cs);
      } else {
        var c :| c in was && !t[c].checked;
        assert c in cs && !u[c].checked;
      }
    }
  }

  /** The marks of one rebuilt department, told from the old tree. */
  lemma RebuiltDepartmentAgrees(t: Tree, s: Store, d: Depths, x: int)
    requires WellFormed(t, d) && TriState(t, d) && ForestStore(s, d) && Grown(t, s) && x in s.items
    ensures var u := Rebuild(t, s);
            && WellFormed(u, d) && Placed(u, d, x)
            && (Agrees(u, x) <==> !ArrivesAtOdds(t, s, x))
  {
    var u := Rebuild(t, s);
    RebuiltIsWellFormed(t, s, d);
    assert Placed(u, d, x);
    AllChildrenAreAttached(t, s, d, x);
    ChildrenAreExact(s.items, s.order, x);
    CarriedMarks(t, s, d, x);
    var cs := u[x].children;
    forall c | c in cs
      ensures c in s.items && s.items[c].parent == x
      ensures if c in t then u[c].checked == t[c].checked && u[c].half == t[c].half
              else u[c].checked == (x in t && t[x].checked) && !u[c].half
    {
      CarriedMarks(t, s, d, c);
    }
    if x in t {
      assert Placed(t, d, x) && Agrees(t, x);
      forall c | c in cs && c in t
        ensures c in t[x].children
      {
        assert Placed(t, d, c);
      }
      OldDepartmentAgrees(t, u, x);
    } else {
      NewDepartmentAgrees(t, s, u, x);
    }
  }

  lemma NewDepartmentAgrees(t: Tree, s: Store, u: Tree, x: int)
    requires x in s.items && x !in t && x in u
    requires u[x].children == ChildrenOf(s.items, s.order, x) && !u[x].half && u[x].checked == Inherits(t, s, x)
    requires forall c | c in u[x].children :: c in u
    requires forall c | c in u[x].children ::
               if c in t then u[c].checked == t[c].checked && u[c].half == t[c].half else !u[c].checked && !u[c].half
    ensures Agrees(u, x) <==> !ArrivesAtOdds(t, s, x)
  {
    var cs := u[x].children;
    if cs != [] {
      var c := cs[0];
      assert c in cs;
    }
  }

  /** Rebuilding after the store has grown keeps the invariant exactly when no new department arrives at odds with
      its children. */
  lemma RebuildKeepsTriStateIff(t: Tree, s: Store, d: Depths)
    requires WellFormed(t, d) && TriState(t, d) && ForestStore(s, d) && Grown(t, s)
    ensures WellFormed(Rebuild(t, s), d)
    ensures TriState(Rebuild(t, s), d) <==> forall x | x in s.items :: !ArrivesAtOdds(t, s, x)
  {
    RebuiltIsWellFormed(t, s, d);
    forall x | x in s.items
      ensures Placed(Rebuild(t, s), d, x) && (Agrees(Rebuild(t, s), x) <==> !ArrivesAtOdds(t, s, x))
    {
      RebuiltDepartmentAgrees(t, s, d, x);
    }
  }

  /** When no parent is missing in the old tree, it comes down to arriving with children under a checked parent. */
  lemma ArrivingTogetherUnderACheck(t: Tree, s: Store, x: int)
    requires Closed(t) && Grown(t, s) && 0 !in s.items && x in s.items && x !in t
    ensures ArrivesAtOdds(t, s, x) <==> Inherits(t, s, x) && ChildrenOf(s.items, s.order, x) != []
  {
    var cs := ChildrenOf(s.items, s.order, x);
    ChildrenAreExact(s.items, s.order, x);
    if cs != [] {
      var c := cs[0];
      assert c in cs && c !in t;
    }
  }
  /** A checked root without children. */
  lemma CheckedRootAgrees(t: Tree, d: Depths)
    requires t == map[1 := Dept(0, true, false, [], true, false)] && 1 in d.of && d.of[1] < d.limit
    ensures WellFormed(t, d) && TriState(t, d)
  {
    assert Placed(t, d, 1) && Agrees(t, 1);
  }

  /** A root, its child and its grandchild. */
  lemma ThreeLevelsAreAForest(s: Store, d: Depths)
    requires s.order == [1, 2, 3]
    requires s.items == map[1 := Item(0, true, false), 2 := Item(1, true, false), 3 := Item(2, false, false)]
    requires d == Depths(map[1 := 0, 2 := 1, 3 := 2], 3)
    ensures ForestStore(s, d)
  {
    assert forall x :: x in s.order <==> x == 1 || x == 2 || x == 3;
  }

  /** For instance a checked root whose child and grandchild arrive in one rebuild: the child takes the check and the
      grandchild, whose parent is new, does not. */
  lemma ArrivingTwoLevelsBreaksTriState() returns (t: Tree, s: Store, d: Depths)
    ensures WellFormed(t, d) && TriState(t, d) && ForestStore(s, d) && Grown(t, s) && WellFormed(Rebuild(t, s), d)
    ensures s.order == [1, 2, 3] && s.items.Keys == {1, 2, 3} && s.items[2].parent == 1 && s.items[3].parent == 2
    ensures 1 in t && t[1].checked && 2 !in t && 3 !in t
    ensures Rebuild(t, s)[2].checked && !Rebuild(t, s)[3].checked && !TriState(Rebuild(t, s), d)
  {
    hide WellFormed, TriState, ForestStore, Rebuild, Rebuilt, ChildrenOf;
    t := map[1 := Dept(0, true, false, [], true, false)];
    s := Store([1, 2, 3], map[1 := Item(0, true, false), 2 := Item(1, true, false), 3 := Item(2, false, false)]);
    d := Depths(map[1 := 0, 2 := 1, 3 := 2], 3);
    CheckedRootAgrees(t, d);
    ThreeLevelsAreAForest(s, d);
    CarriedMarks(t, s, d, 2);
    CarriedMarks(t, s, d, 3);
    ChildrenAreExact(s.items, s.order, 2);
    assert 3 in ChildrenOf(s.items, s.order, 2);
    assert ArrivesAtOdds(t, s, 2);
    RebuildKeepsTriStateIff(t, s, d);
  }
}
