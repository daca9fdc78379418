/** The department tree as the hook holds it: shared objects, reachable from the map and from their parents. */
module DepartmentObjects {
  import opened Departments
  import opened DepartmentRebuild

  class Department {
    const id: int
    const parent: int
    const hasChildren: bool
    var loaded: bool
    var children: seq<Department>
    var checked: bool
    var indeterminate: bool

    constructor (id: int, it: Item, checked: bool, indeterminate: bool)
      ensures this.id == id && this.parent == it.parent && this.hasChildren == it.hasChildren
      ensures this.loaded == it.loaded && this.children == []
      ensures this.checked == checked && this.indeterminate == indeterminate
    {
      this.id, this.parent, this.hasChildren, this.loaded := id, it.parent, it.hasChildren, it.loaded;
      this.children, this.checked, this.indeterminate := [], checked, indeterminate;
    }

    ghost function Value(): Dept
      reads this
    {
      Dept(parent, hasChildren, loaded, Ids(children), checked, indeterminate)
    }
  }

  function Ids(ds: seq<Department>): seq<int> {
    seq(|ds|, i requires 0 <= i < |ds| => ds[i].id)
  }

  /** The levels left from `depth` on. */
  function Room(d: Depths, depth: nat): nat {
    if depth <= d.limit then d.limit - depth else 0
  }

  /** The map's objects are filed under their ids, and a child is the very object filed under its id. */
  ghost predicate Shared(m: map<int, Department>)
    reads m.Values
  {
    && (forall x | x in m :: m[x].id == x)
    && (forall x | x in m :: Filed(m, m[x].children))
  }

  ghost predicate Filed(m: map<int, Department>, ds: seq<Department>) {
    forall i | 0 <= i < |ds| :: ds[i].id in m && m[ds[i].id] == ds[i]
  }

  ghost function TreeOf(m: map<int, Department>): Tree
    reads m.Values
  {
    map x | x in m :: m[x].Value()
  }

  class DepartmentHook {
    var departmentMap: map<int, Department>

    constructor ()
      ensures departmentMap == map[]
    {
      departmentMap := map[];
    }

    ghost predicate Valid()
      reads this, departmentMap.Values
    {
      Shared(departmentMap)
    }

    ghost function View(): Tree
      reads this, departmentMap.Values
    {
      TreeOf(departmentMap)
    }

    /** Assign the marks in place; filing the object again under its own id changes nothing. */
    method UpdateDepartment(id: int, checked: bool, indeterminate: bool)
      requires Valid()
      modifies departmentMap.Values
      ensures Valid() && departmentMap == old(departmentMap)
      ensures View() == if id in departmentMap then
                          old(View())[id := old(View())[id].(checked := checked, half := indeterminate)]
                        else old(View())
    {
      if id in departmentMap {
        var dept := departmentMap[id];
        dept.checked := checked;
        dept.indeterminate := indeterminate;
        forall x | x in departmentMap && x != id
          ensures departmentMap[x].Value() == old(departmentMap[x].Value())
          ensures Filed(departmentMap, departmentMap[x].children)
        {
          assert old(Filed(departmentMap, departmentMap[x].children));
        }
        assert old(Filed(departmentMap, departmentMap[id].children));
      }
    }

    /** Mark every department of `list` and everything loaded below. */
    method RecursionCheckChildDept(list: seq<Department>, checked: bool, ghost d: Depths, ghost depth: nat)
      requires Valid() && WellFormed(View(), d) && Filed(departmentMap, list)
      requires forall x | x in Ids(list) :: x in d.of && depth <= d.of[x]
      modifies departmentMap.Values
      ensures Valid() && departmentMap == old(departmentMap)
      ensures View() == MarkDown(old(View()), d, Ids(list), checked)
      decreases Room(d, depth), 1
    {
      hide MarkDown, WellFormed;
      ghost var t, ids := View(), Ids(list);
      MarkNothing(t, d, checked);
      assert ids[..0] == [];
      var i := 0;
      while i < |list|
        invariant 0 <= i <= |list|
        invariant Valid() && departmentMap == old(departmentMap)
        invariant View() == MarkDown(t, d, ids[..i], checked)
      {
        var item := list[i];
        assert item.id == ids[i] && ids[i] in ids;
        ChildrenAreDeeper(t, d, ids[i]);
        MarksCompose(t, d, ids[..i], [ids[i]], checked);
        assert ids[..i + 1] == ids[..i] + [ids[i]];
        MarkDepartment(item.id, checked, d);
        i := i + 1;
      }
      assert ids[..|list|] == ids;
    }

    /** Mark one department and, if it is open, everything below it. */
    method MarkDepartment(id: int, checked: bool, ghost d: Depths)
      requires Valid() && WellFormed(View(), d) && id in departmentMap
      modifies departmentMap.Values
      ensures Valid() && departmentMap == old(departmentMap)
      ensures View() == MarkDown(old(View()), d, [id], checked)
      decreases if id in d.of then Room(d, d.of[id]) else 0, 0
    {
      ghost var t := View();
      MarkFirst(t, d, id, checked);
      ChildrenAreDeeper(t, d, id);
      UpdateDepartment(id, checked, false);
      var dept := departmentMap[id];
      ghost var u := View();
      assert u[id] == dept.Value();
      if dept.hasChildren && dept.loaded {
        RecursionCheckChildDept(dept.children, checked, d, d.of[id] + 1);
      }
    }

    /** The half test, by counting. */
    method CountsAsHalf(children: seq<Department>) returns (half: bool)
      requires Valid() && Filed(departmentMap, children)
      ensures half == IsHalf(View(), Ids(children))
    {
      var checkedLength, halfLength := 0, 0;
      var i := 0;
      while i < |children|
        invariant 0 <= i <= |children| && 0 <= checkedLength <= i && halfLength >= 0
        invariant checkedLength > 0 <==> exists j :: 0 <= j < i && children[j].checked
        invariant checkedLength < i <==> exists j :: 0 <= j < i && !children[j].checked
        invariant halfLength > 0 <==> exists j :: 0 <= j < i && children[j].indeterminate
      {
        if children[i].checked {
          checkedLength := checkedLength + 1;
        }
        if children[i].indeterminate {
          halfLength := halfLength + 1;
        }
        i := i + 1;
      }
      MarksByPosition(departmentMap, children);
      half := (checkedLength > 0 && checkedLength < |children|) || halfLength > 0;
    }

    /** Recompute the ancestors of `id`. */
    method RecursionCheckParentDept(id: int, checked: bool, ghost d: Depths)
      requires Valid() && WellFormed(View(), d) && id in departmentMap
      modifies departmentMap.Values
      ensures Valid() && departmentMap == old(departmentMap)
      ensures View() == WalkUp(old(View()), d, id, checked)
      decreases if id in d.of then d.of[id] else 0
    {
      ghost var t := View();
      var p := departmentMap[id].parent;
      if p in departmentMap {
        WalkUpUnfolds(t, d, id, checked);
        var parent := departmentMap[p];
        assert t[p] == parent.Value();
        var indeterminate := CountsAsHalf(parent.children);
        UpdateDepartment(p, checked && !indeterminate, indeterminate);
        assert View() == Recompute(t, p, checked);
        if parent.parent != 0 {
          RecursionCheckParentDept(p, checked, d);
        }
      }
    }

    /** Leave both marks on department `id` only. */
    method KeepOnly(id: int)
      requires Valid()
      modifies departmentMap.Values
      ensures Valid() && departmentMap == old(departmentMap)
      ensures View() == OnlyOn(old(View()), id)
    {
      forall e | e in departmentMap.Values {
        e.checked := e.id == id;
      }
      forall e | e in departmentMap.Values {
        e.indeterminate := e.id == id;
      }
      forall x | x in departmentMap
        ensures departmentMap[x].Value() == old(departmentMap[x].Value()).(checked := x == id, half := x == id)
        ensures Filed(departmentMap, departmentMap[x].children)
      {
        assert departmentMap[x] in departmentMap.Values;
        assert old(Filed(departmentMap, departmentMap[x].children));
      }
    }

    /** A click on the box of department `id`. */
    method HandleCheck(id: int, checked: bool, ghost d: Depths)
      requires Valid() && WellFormed(View(), d) && id in departmentMap
      modifies departmentMap.Values
      ensures Valid() && departmentMap == old(departmentMap)
      ensures View() == Select(old(View()), d, id, checked)
    {
      ghost var t := View();
      SelectSteps(t, d, id, checked);
      KeepOnly(id);
      MarkDepartment(id, checked, d);
      if departmentMap[id].parent != 0 {
        RecursionCheckParentDept(id, checked, d);
      }
    }

    /** The selection shown for a list of departments. */
    method GetCheckedDept(list: seq<Department>, ghost d: Depths, ghost depth: nat) returns (acc: seq<int>)
      requires Valid() && WellFormed(View(), d) && Filed(departmentMap, list)
      requires forall x | x in Ids(list) :: x in View() && x in d.of && depth <= d.of[x]
      ensures acc == Picked(View(), d, Ids(list), [], depth)
      decreases d.limit - depth
    {
      hide Picked, WellFormed;
      ghost var t, ids := View(), Ids(list);
      acc := [];
      var i := 0;
      assert ids[0..] == ids;
      while i < |list|
        invariant 0 <= i <= |list|
        invariant forall x | x in ids[i..] :: x in t && x in d.of && depth <= d.of[x]
        invariant Picked(t, d, ids[i..], acc, depth) == Picked(t, d, ids, [], depth)
      {
        var item := list[i];
        assert ids[i..] == [item.id] + ids[i + 1..];
        assert t[item.id] == item.Value();
        ChildrenAreDeeper(t, d, item.id);
        PickedUnfolds(t, d, ids[i..], acc, depth);
        if item.checked && !item.indeterminate {
          acc := [item.id];
        } else if item.indeterminate {
          acc := GetCheckedDept(item.children, d, d.of[item.id] + 1);
        }
        i := i + 1;
      }
      assert ids[|list|..] == [];
      PickedFromNothing(t, d, acc, depth);
    }

    /** A new object for one department: a checked parent or its own earlier mark checks it. */
    method MakeDepartment(id: int, it: Item) returns (dept: Department)
      requires Valid()
      ensures fresh(dept) && dept.id == id && dept.children == [] && dept.Value() == Carried(View(), id, it)
    {
      var isChecked := it.parent in departmentMap && departmentMap[it.parent].checked;
      var curChecked := id in departmentMap && departmentMap[id].checked;
      var curHalf := id in departmentMap && departmentMap[id].indeterminate;
      dept := new Department(id, it, isChecked || curChecked, curHalf);
    }

    /** One new object for every department of the store. */
    method MakeDepartments(store: Store) returns (acc: map<int, Department>)
      requires Valid() && ValidStore(store)
      ensures acc.Keys == store.items.Keys && Shared(acc) && forall x | x in acc :: fresh(acc[x])
      ensures TreeOf(acc) == Rebuilt(View(), store, [])
    {
      hide Carried, Rebuilt, CarriedTree;
      acc := map[];
      var order := store.order;
      ghost var t := View();
      NoneCarried(t, store);
      var i := 0;
      while i < |order|
        invariant 0 <= i <= |order|
        invariant Shared(acc) && forall x | x in acc :: fresh(acc[x])
        invariant TreeOf(acc) == CarriedTree(t, store, i)
      {
        NextIsNew(t, store, i);
        var id := order[i];
        var dept := MakeDepartment(id, store.items[id]);
        OneMoreObject(acc, dept);
        acc := acc[id := dept];
        i := i + 1;
      }
      AllCarried(t, store);
    }

    /** Build a new map of new objects from the store, carrying marks over from the old map, and file every department
        with its parent. */
    method GenerateDeptTreeMap(store: Store) returns (acc: map<int, Department>)
      requires Valid() && ValidStore(store)
      ensures Shared(acc) && forall x | x in acc :: fresh(acc[x])
      ensures TreeOf(acc) == Rebuild(View(), store)
    {
      acc := MakeDepartments(store);
      var order := store.order;
      ghost var t := View();
      var i := 0;
      while i < |order|
        invariant 0 <= i <= |order|
        invariant acc.Keys == store.items.Keys && Shared(acc) && (forall x | x in acc :: fresh(acc[x]))
        invariant TreeOf(acc) == Rebuilt(t, store, order[..i])
      {
        var id := order[i];
        assert id in order;
        AttachOne(t, store, i);
        FileWithParent(acc, id);
        i := i + 1;
      }
      assert order[..|order|] == order;
    }
  }

  /** Push one department to its parent, if the parent is there and may have children. */
  method FileWithParent(acc: map<int, Department>, id: int)
    requires Shared(acc) && id in acc
    modifies acc.Values
    ensures Shared(acc) && TreeOf(acc) == Attached(old(TreeOf(acc)), id)
  {
    var dept := acc[id];
    if dept.parent in acc && acc[dept.parent].hasChildren {
      var parent := acc[dept.parent];
      parent.children := parent.children + [dept];
      parent.loaded := true;
      assert Ids(parent.children) == old(Ids(parent.children)) + [id];
      forall x | x in acc && x != parent.id
        ensures acc[x].Value() == old(acc[x].Value()) && Filed(acc, acc[x].children)
      {
        assert old(Filed(acc, acc[x].children));
      }
      assert old(Filed(acc, acc[parent.id].children));
    }
  }

  /** A new object without children, filed under its id. */
  lemma OneMoreObject(m: map<int, Department>, o: Department)
    requires Shared(m) && o.id !in m && o.children == []
    ensures Shared(m[o.id := o]) && TreeOf(m[o.id := o]) == TreeOf(m)[o.id := o.Value()]
  {
    forall x | x in m
      ensures Filed(m[o.id := o], m[x].children)
    {
      assert Filed(m, m[x].children);
    }
  }

  function Attached(u: Tree, id: int): Tree
    requires id in u
  {
    var p := u[id].parent;
    if p in u && u[p].hasChildren then u[p := u[p].(children := u[p].children + [id], loaded := true)] else u
  }

  /** The first `n` departments of the store as carried over, none attached to its parent. */
  function CarriedTree(t: Tree, s: Store, n: nat): Tree
    requires n <= |s.order| && forall x | x in s.order :: x in s.items
  {
    if n == 0 then map[]
    else
      var id := s.order[n - 1];
      CarriedTree(t, s, n - 1)[id := Carried(t, id, s.items[id])]
  }

  lemma {:induction false} CarriedMembers(t: Tree, s: Store, n: nat)
    requires n <= |s.order| && forall x | x in s.order :: x in s.items
    ensures forall x :: x in CarriedTree(t, s, n) <==> x in s.order[..n]
    ensures forall x | x in CarriedTree(t, s, n) :: x in s.items && CarriedTree(t, s, n)[x] == Carried(t, x, s.items[x])
  {
    if n > 0 {
      CarriedMembers(t, s, n - 1);
      assert s.order[..n] == s.order[..n - 1] + [s.order[n - 1]];
    }
  }

  lemma NoneCarried(t: Tree, s: Store)
    requires forall x | x in s.order :: x in s.items
    ensures CarriedTree(t, s, 0) == map[]
  {
  }

  lemma NextIsNew(t: Tree, s: Store, i: nat)
    requires ValidStore(s) && i < |s.order|
    ensures var id := s.order[i];
            id in s.items && id !in CarriedTree(t, s, i)
            && CarriedTree(t, s, i + 1) == CarriedTree(t, s, i)[id := Carried(t, id, s.items[id])]
  {
    var id := s.order[i];
    assert id in s.order;
    CarriedMembers(t, s, i);
  }

  /** With nothing attached yet the rebuilt tree is the departments as carried over. */
  lemma AllCarried(t: Tree, s: Store)
    requires ValidStore(s)
    ensures CarriedTree(t, s, |s.order|) == Rebuilt(t, s, []) && CarriedTree(t, s, |s.order|).Keys == s.items.Keys
  {
    hide Carried, CarriedTree;
    CarriedMembers(t, s, |s.order|);
    assert s.order[..|s.order|] == s.order;
    var all, bare := CarriedTree(t, s, |s.order|), Rebuilt(t, s, []);
    assert forall x :: x in all <==> x in s.items;
    forall x | x in s.items
      ensures all[x] == bare[x]
    {
      BareDepartment(t, s, x);
    }
  }

  lemma BareDepartment(t: Tree, s: Store, x: int)
    requires x in s.items
    ensures Rebuilt(t, s, [])[x] == Carried(t, x, s.items[x])
  {
  }

  lemma ChildrenSnoc(items: map<int, Item>, order: seq<int>, id: int, x: int)
    requires id in items
    ensures ChildrenOf(items, order + [id], x) ==
              ChildrenOf(items, order, x) + (if items[id].parent == x then [id] else [])
  {
    assert (order + [id])[..|order|] == order;
  }

  lemma AttachOneAt(t: Tree, s: Store, i: nat, x: int)
    requires i < |s.order| && s.order[i] in s.items && x in s.items
    ensures Rebuilt(t, s, s.order[..i + 1])[x] == Attached(Rebuilt(t, s, s.order[..i]), s.order[i])[x]
  {
    assert s.order[..i + 1] == s.order[..i] + [s.order[i]];
    ChildrenSnoc(s.items, s.order[..i], s.order[i], x);
  }

  /** Pushing one more department to its parent. */
  lemma AttachOne(t: Tree, s: Store, i: nat)
    requires i < |s.order| && s.order[i] in s.items
    ensures Rebuilt(t, s, s.order[..i + 1]) == Attached(Rebuilt(t, s, s.order[..i]), s.order[i])
  {
    forall x | x in s.items
      ensures Rebuilt(t, s, s.order[..i + 1])[x] == Attached(Rebuilt(t, s, s.order[..i]), s.order[i])[x]
    {
      AttachOneAt(t, s, i, x);
    }
  }

  lemma MarkFirst(t: Tree, d: Depths, id: int, c: bool)
    requires WellFormed(t, d) && id in t
    ensures var u := t[id := t[id].(checked := c, half := false)];
            && WellFormed(u, d)
            && MarkDown(t, d, [id], c) == if Open(u[id]) then MarkDown(u, d, u[id].children, c) else u
  {
    MarkOneMore(t, d, [], id, c);
    NothingIsUnderNothing(t, d);
    assert MarkDown(t, d, [], c) == t;
    assert [] + [id] == [id];
  }

  /** Marks below the department do not matter to its marking. */
  lemma MarkOverwrites(t: Tree, u: Tree, d: Depths, id: int, c: bool)
    requires WellFormed(t, d) && WellFormed(u, d) && SameShape(t, u) && id in t
    requires forall x | x in t && x != id :: u[x] == t[x]
    ensures MarkDown(u, d, [id], c) == MarkDown(t, d, [id], c)
  {
    forall x | x in t
      ensures Under(u, d, [id], x) <==> Under(t, d, [id], x)
    {
      ShapeKeepsUnder(t, u, d, [id], x);
    }
  }

  /** Both marks on one department and on no other. */
  function OnlyOn(t: Tree, id: int): Tree {
    map x | x in t :: t[x].(checked := x == id, half := x == id)
  }

  /** A click, step by step: keep the marks of the department only, mark it and what is below, walk up. */
  lemma SelectSteps(t: Tree, d: Depths, id: int, c: bool)
    requires WellFormed(t, d) && id in t
    ensures WellFormed(OnlyOn(t, id), d)
    ensures var v := MarkDown(OnlyOn(t, id), d, [id], c);
            WellFormed(v, d) && Select(t, d, id, c) == if v[id].parent != 0 then WalkUp(v, d, id, c) else v
  {
    hide Under, Placed, WalkUp;
    var k := OnlyOn(t, id);
    ShapeKeepsWellFormed(t, k, d);
    ShapeKeepsWellFormed(t, Cleared(t), d);
    MarkOverwrites(Cleared(t), k, d, id, c);
    ShapeKeepsWellFormed(k, MarkDown(k, d, [id], c), d);
    WalkUpFromRoot(MarkDown(k, d, [id], c), d, id, c);
  }

  lemma WalkUpFromRoot(t: Tree, d: Depths, id: int, c: bool)
    requires WellFormed(t, d) && id in t
    ensures t[id].parent == 0 ==> WalkUp(t, d, id, c) == t
  {
  }

  lemma {:induction false} NothingIsUnder(t: Tree, d: Depths, x: int)
    requires WellFormed(t, d) && x in t
    ensures !Under(t, d, [], x)
    decreases if x in d.of then d.of[x] else 0
  {
    assert Placed(t, d, x);
    if t[x].parent in t {
      NothingIsUnder(t, d, t[x].parent);
    }
  }

  lemma MarkNothing(t: Tree, d: Depths, c: bool)
    requires WellFormed(t, d)
    ensures MarkDown(t, d, [], c) == t
  {
    NothingIsUnderNothing(t, d);
  }

  lemma NothingIsUnderNothing(t: Tree, d: Depths)
    requires WellFormed(t, d)
    ensures forall x | x in t :: !Under(t, d, [], x)
  {
    forall x | x in t
      ensures !Under(t, d, [], x)
    {
      NothingIsUnder(t, d, x);
    }
  }

  /** The marks of objects in a list are those of their ids. */
  lemma MarksByPosition(m: map<int, Department>, ds: seq<Department>)
    requires Shared(m) && Filed(m, ds)
    ensures var t, ids := TreeOf(m), Ids(ds);
            && (forall c | c in ids :: c in t)
            && ((exists c | c in ids :: t[c].checked) <==> exists j :: 0 <= j < |ds| && ds[j].checked)
            && ((exists c | c in ids :: !t[c].checked) <==> exists j :: 0 <= j < |ds| && !ds[j].checked)
            && ((exists c | c in ids :: t[c].half) <==> exists j :: 0 <= j < |ds| && ds[j].indeterminate)
  {
    var t, ids := TreeOf(m), Ids(ds);
    forall j | 0 <= j < |ds|
      ensures ids[j] in t && t[ids[j]].checked == ds[j].checked && t[ids[j]].half == ds[j].indeterminate
    {
      assert m[ds[j].id] == ds[j];
    }
    assert forall j | 0 <= j < |ds| :: ids[j] == ds[j].id && ids[j] in ids;
  }
}
