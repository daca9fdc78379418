/**
 The tri-state department tree (front/src/hooks/useDepartment.ts) as values: a map from id to department, in which
 children are ids. An id stands for the one object that both the map and its parent's children refer to.
 */
module Departments {

  /** `half` is the indeterminate mark. A parent of 0 means none. */
  datatype Dept = Dept(parent: int, hasChildren: bool, loaded: bool, children: seq<int>, checked: bool, half: bool)

  type Tree = map<int, Dept>

  /** A depth for every department: it grows from parent to child and stays below `limit`. */
  datatype Depths = Depths(of: map<int, nat>, limit: nat)

  /** The links of one department: it is deeper than its parent and among the parent's children, its children name
      it as their parent, and it has children only if it has loaded them. */
  ghost predicate Placed(t: Tree, d: Depths, x: int)
    requires x in t
  {
    var v := t[x];
    && x in d.of && d.of[x] < d.limit
    && (v.parent in t ==> v.parent in d.of && d.of[v.parent] < d.of[x] && x in t[v.parent].children)
    && (forall c | c in v.children :: c in t && t[c].parent == x)
    && (v.children != [] ==> v.hasChildren && v.loaded)
  }

  /** Parent and child links agree and no department is its own ancestor. */
  ghost predicate WellFormed(t: Tree, d: Depths) {
    0 !in t && forall x {:trigger Placed(t, d, x)} | x in t :: Placed(t, d, x)
  }

  /** The recursion descends into the children of a department. */
  predicate Open(v: Dept) {
    v.hasChildren && v.loaded
  }

  predicate AllChecked(t: Tree, ids: seq<int>)
    requires forall c | c in ids :: c in t
  {
    forall c | c in ids :: t[c].checked
  }

  /** Some but not all are checked, or some is half. */
  predicate IsHalf(t: Tree, ids: seq<int>)
    requires forall c | c in ids :: c in t
  {
    || ((exists c | c in ids :: t[c].checked) && (exists c | c in ids :: !t[c].checked))
    || (exists c | c in ids :: t[c].half)
  }

  /** The marks of one department agree with those of its children. */
  predicate Agrees(t: Tree, x: int)
    requires x in t && forall c | c in t[x].children :: c in t
  {
    var v := t[x];
    if v.children == [] then !v.half
    else (v.checked <==> AllChecked(t, v.children)) && (v.half <==> IsHalf(t, v.children)) && !(v.checked && v.half)
  }

  ghost predicate TriState(t: Tree, d: Depths)
    requires WellFormed(t, d)
  {
    forall x {:trigger Agrees(t, x)} | x in t :: assert Placed(t, d, x); Agrees(t, x)
  }

  /** Only marks differ. */
  ghost predicate SameShape(t: Tree, u: Tree) {
    t.Keys == u.Keys && forall x | x in t :: u[x] == t[x].(checked := u[x].checked, half := u[x].half)
  }

  lemma ShapeKeepsWellFormed(t: Tree, u: Tree, d: Depths)
    requires WellFormed(t, d) && SameShape(t, u)
    ensures WellFormed(u, d)
  {
    forall x | x in u
      ensures Placed(u, d, x)
    {
      assert Placed(t, d, x);
    }
  }

  /** `x` is one of `ids` or below one of them along open departments. */
  ghost predicate Under(t: Tree, d: Depths, ids: seq<int>, x: int)
    requires WellFormed(t, d) && x in t
    decreases if x in d.of then d.of[x] else 0
  {
    assert Placed(t, d, x);
    x in ids || (t[x].parent in t && Open(t[t[x].parent]) && Under(t, d, ids, t[x].parent))
  }

  /** Push a mark down: every department under `ids` gets it, and nothing else changes. */
  ghost function MarkDown(t: Tree, d: Depths, ids: seq<int>, c: bool): Tree
    requires WellFormed(t, d)
  {
    map x | x in t :: if Under(t, d, ids, x) then t[x].(checked := c, half := false) else t[x]
  }

  lemma {:induction false} ShapeKeepsUnder(t: Tree, u: Tree, d: Depths, ids: seq<int>, x: int)
    requires WellFormed(t, d) && WellFormed(u, d) && SameShape(t, u) && x in t
    ensures Under(u, d, ids, x) <==> Under(t, d, ids, x)
    decreases if x in d.of then d.of[x] else 0
  {
    assert Placed(t, d, x);
    if t[x].parent in t {
      ShapeKeepsUnder(t, u, d, ids, t[x].parent);
    }
  }

  /** Being under a list that ends with `y` means being under the rest, or `y`, or under the children of an open `y`. */
  lemma {:induction false} UnderOneMore(t: Tree, d: Depths, ids: seq<int>, y: int, x: int)
    requires WellFormed(t, d) && x in t && y in t
    ensures Under(t, d, ids + [y], x) <==>
              Under(t, d, ids, x) || x == y || (Open(t[y]) && Under(t, d, t[y].children, x))
    decreases if x in d.of then d.of[x] else 0
  {
    assert Placed(t, d, x);
    assert Placed(t, d, y);
    if t[x].parent in t {
      UnderOneMore(t, d, ids, y, t[x].parent);
    }
  }

  lemma {:induction false} UnderEither(t: Tree, d: Depths, a: seq<int>, b: seq<int>, x: int)
    requires WellFormed(t, d) && x in t
    ensures Under(t, d, a + b, x) <==> Under(t, d, a, x) || Under(t, d, b, x)
    decreases if x in d.of then d.of[x] else 0
  {
    assert Placed(t, d, x);
    if t[x].parent in t {
      UnderEither(t, d, a, b, t[x].parent);
    }
  }

  /** Marking one list after another is marking both. */
  lemma MarksCompose(t: Tree, d: Depths, a: seq<int>, b: seq<int>, c: bool)
    requires WellFormed(t, d)
    ensures WellFormed(MarkDown(t, d, a, c), d) && SameShape(t, MarkDown(t, d, a, c))
    ensures MarkDown(MarkDown(t, d, a, c), d, b, c) == MarkDown(t, d, a + b, c)
  {
    var u := MarkDown(t, d, a, c);
    ShapeKeepsWellFormed(t, u, d);
    var v, w := MarkDown(u, d, b, c), MarkDown(t, d, a + b, c);
    forall x | x in t
      ensures v[x] == w[x]
    {
      UnderEither(t, d, a, b, x);
      ShapeKeepsUnder(t, u, d, b, x);
    }
  }

  /** One turn of the downward recursion: mark one department, then, if it is open, everything below it. */
  lemma MarkOneMore(t: Tree, d: Depths, ids: seq<int>, y: int, c: bool)
    requires WellFormed(t, d) && y in t
    ensures var before := MarkDown(t, d, ids, c);
            var marked := before[y := before[y].(checked := c, half := false)];
            && SameShape(t, marked) && WellFormed(marked, d)
            && MarkDown(t, d, ids + [y], c) ==
                 if Open(marked[y]) then MarkDown(marked, d, marked[y].children, c) else marked
  {
    hide Under, Placed;
    var before := MarkDown(t, d, ids, c);
    var marked := before[y := before[y].(checked := c, half := false)];
    ShapeKeepsWellFormed(t, marked, d);
    var more, want := MarkDown(t, d, ids + [y], c),
                      if Open(marked[y]) then MarkDown(marked, d, marked[y].children, c) else marked;
    forall x | x in t
      ensures more[x] == want[x]
    {
      MarkOneMoreAt(t, marked, d, ids, y, c, x);
    }
  }

  lemma MarkOneMoreAt(t: Tree, marked: Tree, d: Depths, ids: seq<int>, y: int, c: bool, x: int)
    requires WellFormed(t, d) && WellFormed(marked, d) && y in t && x in t && SameShape(t, marked)
    requires var before := MarkDown(t, d, ids, c); marked == before[y := before[y].(checked := c, half := false)]
    ensures MarkDown(t, d, ids + [y], c)[x] ==
              if Open(marked[y]) then MarkDown(marked, d, marked[y].children, c)[x] else marked[x]
  {
    UnderOneMore(t, d, ids, y, x);
    ShapeKeepsUnder(t, marked, d, t[y].children, x);
  }

  /** The parent after its recomputation. */
  ghost function Recompute(t: Tree, p: int, c: bool): Tree
    requires p in t && forall y | y in t[p].children :: y in t
  {
    var half := IsHalf(t, t[p].children);
    t[p := t[p].(checked := c && !half, half := half)]
  }

  /** The upward recursion: recompute the parent from its children, then go on from the parent if it has one itself. */
  ghost function WalkUp(t: Tree, d: Depths, id: int, c: bool): Tree
    requires WellFormed(t, d) && id in t
    decreases if id in d.of then d.of[id] else 0
  {
    assert Placed(t, d, id);
    var p := t[id].parent;
    if p !in t then t
    else
      assert Placed(t, d, p);
      var u := Recompute(t, p, c);
      ShapeKeepsWellFormed(t, u, d);
      if u[p].parent != 0 then WalkUp(u, d, p, c) else u
  }

  /** One turn of the upward recursion, for a department whose parent is there. */
  lemma WalkUpUnfolds(t: Tree, d: Depths, id: int, c: bool)
    requires WellFormed(t, d) && id in t && t[id].parent in t
    ensures var p := t[id].parent;
            && id in d.of && p in d.of && d.of[p] < d.of[id] && (forall y | y in t[p].children :: y in t)
            && var u := Recompute(t, p, c);
               WellFormed(u, d) && WalkUp(t, d, id, c) == if u[p].parent != 0 then WalkUp(u, d, p, c) else u
  {
    assert Placed(t, d, id) && Placed(t, d, t[id].parent);
    ShapeKeepsWellFormed(t, Recompute(t, t[id].parent, c), d);
  }

  /** Toggling one department. */
  ghost function Toggle(t: Tree, d: Depths, id: int, c: bool): Tree
    requires WellFormed(t, d) && id in t
  {
    var u := MarkDown(t, d, [id], c);
    ShapeKeepsWellFormed(t, u, d);
    WalkUp(u, d, id, c)
  }

  /** The marks of `id` fit a toggle to `c`: not checked when clearing; checked or half when setting. */
  predicate Fits(v: Dept, c: bool) {
    if c then v.checked || v.half else !v.checked
  }

  /** Everything agrees except perhaps the parent of `id`. */
  ghost predicate AgreesBut(t: Tree, d: Depths, id: int)
    requires WellFormed(t, d) && id in t
  {
    forall x {:trigger Agrees(t, x)} | x in t && x != t[id].parent :: assert Placed(t, d, x); Agrees(t, x)
  }

  lemma MarkedDepartmentAgrees(t: Tree, u: Tree, d: Depths, id: int, c: bool, x: int)
    requires WellFormed(t, d) && WellFormed(u, d) && id in t && u == MarkDown(t, d, [id], c)
    requires x in t && x != t[id].parent && Placed(t, d, x) && Agrees(t, x)
    ensures Placed(u, d, x) && Agrees(u, x)
  {
    var cs := t[x].children;
    assert Placed(u, d, x);
    if Under(t, d, [id], x) {
      assert forall y | y in cs :: Under(t, d, [id], y) && u[y] == t[y].(checked := c, half := false);
      if cs != [] {
        var y := cs[0];
        assert y in cs && y in t && y in u && u[y].checked == c;
      }
    } else {
      assert forall y | y in cs :: !Under(t, d, [id], y) && u[y] == t[y];
    }
  }

  lemma MarkedSubtreeAgrees(t: Tree, d: Depths, id: int, c: bool)
    requires WellFormed(t, d) && TriState(t, d) && id in t
    ensures var u := MarkDown(t, d, [id], c);
            WellFormed(u, d) && AgreesBut(u, d, id) && u[id].checked == c && !u[id].half
  {
    var u := MarkDown(t, d, [id], c);
    ShapeKeepsWellFormed(t, u, d);
    forall x | x in u && x != u[id].parent
      ensures Placed(u, d, x) && Agrees(u, x)
    {
      assert Placed(t, d, x) && Agrees(t, x);
      MarkedDepartmentAgrees(t, u, d, id, c, x);
    }
  }

  /** Recomputing a parent from agreeing children, one of which fits the toggle, makes it agree and fit. */
  lemma RecomputedParentAgrees(t: Tree, d: Depths, id: int, c: bool)
    requires WellFormed(t, d) && id in t && AgreesBut(t, d, id) && Fits(t[id], c) && t[id].parent in t
    requires Placed(t, d, id) && Placed(t, d, t[id].parent)
    ensures var p := t[id].parent;
            var u := Recompute(t, p, c);
            WellFormed(u, d) && AgreesBut(u, d, p) && Placed(u, d, p) && Agrees(u, p) && Fits(u[p], c)
  {
    var p := t[id].parent;
    var u := Recompute(t, p, c);
    ShapeKeepsWellFormed(t, u, d);
    assert Placed(u, d, p);
    forall y | y in t[p].children
      ensures y in t && y != p && !(t[y].checked && t[y].half)
    {
      assert Placed(t, d, y);
      assert Agrees(t, y);
    }
    RecomputedFromChildren(t, p, id, c);
    forall x | x in u && x != u[p].parent
      ensures Placed(u, d, x) && Agrees(u, x)
    {
      assert Placed(t, d, x) && Placed(u, d, x);
      if x != p {
        assert Agrees(t, x);
        assert p !in t[x].children;
        OneChangeElsewhere(t, u, p, x);
      }
    }
  }

  /** The recomputed marks of `p` agree with those of its children, of which `id` is one. */
  lemma RecomputedFromChildren(t: Tree, p: int, id: int, c: bool)
    requires p in t && id in t[p].children
    requires forall y | y in t[p].children :: y in t && y != p && !(t[y].checked && t[y].half)
    requires Fits(t[id], c)
    ensures var u := Recompute(t, p, c);
            (forall y | y in u[p].children :: y in u) && Agrees(u, p) && Fits(u[p], c)
  {
    var u, cs := Recompute(t, p, c), t[p].children;
    assert forall y | y in cs :: u[y] == t[y];
    assert AllChecked(u, cs) <==> AllChecked(t, cs);
    assert IsHalf(u, cs) <==> IsHalf(t, cs);
  }

  /** A change of one department leaves the others that are not its parents in agreement. */
  lemma OneChangeElsewhere(t: Tree, u: Tree, p: int, x: int)
    requires p in t && p in u && x in t && x != p && p !in t[x].children && forall y | y in t[x].children :: y in t
    requires u == t[p := u[p]] && Agrees(t, x)
    ensures Agrees(u, x)
  {
    assert forall y | y in t[x].children :: u[y] == t[y];
  }

  /** So the walk up repairs everything. */
  lemma {:induction false} WalkUpRestoresAgreement(t: Tree, d: Depths, id: int, c: bool)
    requires WellFormed(t, d) && id in t && AgreesBut(t, d, id) && Fits(t[id], c)
    ensures var r := WalkUp(t, d, id, c);
            SameShape(t, r) && WellFormed(r, d) && TriState(r, d)
    decreases if id in d.of then d.of[id] else 0
  {
    assert Placed(t, d, id);
    var p := t[id].parent;
    if p in t {
      assert Placed(t, d, p);
      var u := Recompute(t, p, c);
      RecomputedParentAgrees(t, d, id, c);
      if u[p].parent != 0 {
        WalkUpRestoresAgreement(u, d, p, c);
      }
    }
  }

  /** Toggling any department of any tree keeps the tri-state invariant. */
  lemma ToggleKeepsTriState(t: Tree, d: Depths, id: int, c: bool)
    requires WellFormed(t, d) && TriState(t, d) && id in t
    ensures var r := Toggle(t, d, id, c);
            SameShape(t, r) && WellFormed(r, d) && TriState(r, d)
  {
    var u := MarkDown(t, d, [id], c);
    MarkedSubtreeAgrees(t, d, id, c);
    assert Placed(u, d, id);
    WalkUpRestoresAgreement(u, d, id, c);
  }

  /** `a` is a proper ancestor of `x`. */
  ghost predicate Above(t: Tree, d: Depths, a: int, x: int)
    requires WellFormed(t, d) && x in t
    decreases if x in d.of then d.of[x] else 0
  {
    assert Placed(t, d, x);
    t[x].parent in t && (t[x].parent == a || Above(t, d, a, t[x].parent))
  }

  /** Toggling touches nothing but the subtree of the department, which gets the mark, and its ancestors. */
  lemma ToggleIsLocal(t: Tree, d: Depths, id: int, c: bool, x: int)
    requires WellFormed(t, d) && id in t && x in t && !Above(t, d, x, id)
    ensures var r := Toggle(t, d, id, c);
            x in r && r[x] == if Under(t, d, [id], x) then t[x].(checked := c, half := false) else t[x]
  {
    var u := MarkDown(t, d, [id], c);
    ShapeKeepsWellFormed(t, u, d);
    ShapeKeepsAbove(t, u, d, x, id);
    WalkUpTouchesAncestors(u, d, id, c, x);
  }

  lemma {:induction false} ShapeKeepsAbove(t: Tree, u: Tree, d: Depths, a: int, x: int)
    requires WellFormed(t, d) && WellFormed(u, d) && SameShape(t, u) && x in t
    ensures Above(u, d, a, x) <==> Above(t, d, a, x)
    decreases if x in d.of then d.of[x] else 0
  {
    assert Placed(t, d, x);
    if t[x].parent in t {
      ShapeKeepsAbove(t, u, d, a, t[x].parent);
    }
  }

  lemma {:induction false} WalkUpTouchesAncestors(t: Tree, d: Depths, id: int, c: bool, x: int)
    requires WellFormed(t, d) && id in t && x in t && !Above(t, d, x, id)
    ensures var r := WalkUp(t, d, id, c); x in r && r[x] == t[x]
    decreases if id in d.of then d.of[id] else 0
  {
    assert Placed(t, d, id);
    var p := t[id].parent;
    if p in t {
      assert Placed(t, d, p);
      var u := Recompute(t, p, c);
      ShapeKeepsWellFormed(t, u, d);
      ShapeKeepsAbove(t, u, d, x, p);
      if u[p].parent != 0 {
        WalkUpTouchesAncestors(u, d, p, c, x);
      }
    }
  }

  /** Every department is a root or has its parent in the map. */
  ghost predicate Closed(t: Tree) {
    forall x | x in t :: t[x].parent == 0 || t[x].parent in t
  }

  /** The single selection shown: the reduce keeps the last hit. */
  ghost function Picked(t: Tree, d: Depths, ids: seq<int>, acc: seq<int>, depth: nat): seq<int>
    requires WellFormed(t, d) && forall x | x in ids :: x in t && x in d.of && depth <= d.of[x]
    decreases d.limit - depth, |ids|
  {
    if ids == [] then acc
    else
      var x := ids[0];
      assert Placed(t, d, x);
      var next :=
        if t[x].checked && !t[x].half then [x]
        else if t[x].half then
          ChildrenAreDeeper(t, d, x);
          Picked(t, d, t[x].children, [], d.of[x] + 1)
        else acc;
      Picked(t, d, ids[1..], next, depth)
  }

  lemma ChildrenAreDeeper(t: Tree, d: Depths, x: int)
    requires WellFormed(t, d) && x in t
    ensures x in d.of && d.of[x] < d.limit
    ensures forall c | c in t[x].children :: c in t && c in d.of && d.of[x] < d.of[c]
  {
    assert Placed(t, d, x);
    forall c | c in t[x].children
      ensures c in t && c in d.of && d.of[x] < d.of[c]
    {
      assert Placed(t, d, c);
    }
  }

  /** One turn of the reduce. */
  lemma PickedUnfolds(t: Tree, d: Depths, ids: seq<int>, acc: seq<int>, depth: nat)
    requires WellFormed(t, d) && ids != [] && forall x | x in ids :: x in t && x in d.of && depth <= d.of[x]
    ensures var x := ids[0];
            && x in d.of && (forall c | c in t[x].children :: c in t && c in d.of && d.of[x] + 1 <= d.of[c])
            && var next := if t[x].checked && !t[x].half then [x]
                           else if t[x].half then Picked(t, d, t[x].children, [], d.of[x] + 1)
                           else acc;
               Picked(t, d, ids, acc, depth) == Picked(t, d, ids[1..], next, depth)
  {
    ChildrenAreDeeper(t, d, ids[0]);
  }

  /** Of several departments with a mark the last one decides: it is shown itself if checked, and else the selection
      among its children. */
  lemma {:induction false} LastMarkedDecides(t: Tree, d: Depths, ids: seq<int>, x: int, acc: seq<int>, depth: nat)
    requires WellFormed(t, d) && forall y | y in ids + [x] :: y in t && y in d.of && depth <= d.of[y]
    ensures x in t && x in d.of && (forall c | c in t[x].children :: c in t && c in d.of && d.of[x] + 1 <= d.of[c])
    ensures forall y | y in ids :: y in ids + [x]
    ensures Picked(t, d, ids + [x], acc, depth) ==
            if t[x].checked && !t[x].half then [x]
            else if t[x].half then Picked(t, d, t[x].children, [], d.of[x] + 1)
            else Picked(t, d, ids, acc, depth)
    decreases |ids|
  {
    assert x in ids + [x];
    ChildrenAreDeeper(t, d, x);
    PickedUnfolds(t, d, ids + [x], acc, depth);
    if ids == [] {
      assert (ids + [x])[1..] == [];
    } else {
      PickedUnfolds(t, d, ids, acc, depth);
      var y := ids[0];
      var next := if t[y].checked && !t[y].half then [y]
                  else if t[y].half then Picked(t, d, t[y].children, [], d.of[y] + 1) else acc;
      assert (ids + [x])[1..] == ids[1..] + [x];
      LastMarkedDecides(t, d, ids[1..], x, next, depth);
    }
  }

  lemma PickedFromNothing(t: Tree, d: Depths, acc: seq<int>, depth: nat)
    requires WellFormed(t, d)
    ensures Picked(t, d, [], acc, depth) == acc
  {
  }

  /** `x` is `r` or below it. */
  ghost predicate At(t: Tree, d: Depths, r: int, x: int)
    requires WellFormed(t, d) && x in t
  {
    x == r || Above(t, d, r, x)
  }

  /** `x` is checked and none of its ancestors is. */
  ghost predicate Topmost(t: Tree, d: Depths, x: int)
    requires WellFormed(t, d)
  {
    x in t && t[x].checked && forall a | a in t && Above(t, d, a, x) :: !t[a].checked
  }

  /** Below a department with neither mark nothing is checked; a department with either mark has something checked at
      or below it. */
  lemma {:induction false} MarksTellOfChecks(t: Tree, d: Depths, x: int)
    requires WellFormed(t, d) && TriState(t, d) && x in t && x in d.of && d.of[x] < d.limit
    ensures (t[x].checked || t[x].half) <==> exists y :: y in t && At(t, d, x, y) && t[y].checked
    decreases d.limit - d.of[x]
  {
    assert Placed(t, d, x) && Agrees(t, x);
    ChildrenAreDeeper(t, d, x);
    if t[x].half && !t[x].checked {
      var c :| c in t[x].children && (t[c].checked || t[c].half);
      assert Placed(t, d, c);
      MarksTellOfChecks(t, d, c);
      var y :| y in t && At(t, d, c, y) && t[y].checked;
      AboveThroughChild(t, d, x, c, y);
    } else if !t[x].checked {
      forall y | y in t && At(t, d, x, y)
        ensures !t[y].checked
      {
        if y != x {
          var c := ChildOnTheWay(t, d, x, y);
          assert Placed(t, d, c) && Agrees(t, c);
          assert !t[c].checked && !t[c].half;
          MarksTellOfChecks(t, d, c);
        }
      }
    } else {
      assert At(t, d, x, x);
    }
  }

  lemma {:induction false} AboveThroughChild(t: Tree, d: Depths, x: int, c: int, y: int)
    requires WellFormed(t, d) && x in t && c in t && t[c].parent == x && y in t && At(t, d, c, y)
    ensures Above(t, d, x, y)
    decreases if y in d.of then d.of[y] else 0
  {
    assert Placed(t, d, y);
    if y != c && t[y].parent != c {
      AboveThroughChild(t, d, x, c, t[y].parent);
    }
  }

  /** The way down from an ancestor starts with one of its children. */
  lemma {:induction false} ChildOnTheWay(t: Tree, d: Depths, x: int, y: int) returns (c: int)
    requires WellFormed(t, d) && x in t && y in t && Above(t, d, x, y)
    ensures c in t && c in t[x].children && At(t, d, c, y)
    decreases if y in d.of then d.of[y] else 0
  {
    assert Placed(t, d, y);
    if t[y].parent == x {
      c := y;
    } else {
      c := ChildOnTheWay(t, d, x, t[y].parent);
    }
  }

  /** A department without children at or below `x` has the check `c`. */
  ghost predicate SomeLeaf(t: Tree, d: Depths, x: int, c: bool)
    requires WellFormed(t, d)
  {
    exists y :: y in t && t[y].children == [] && At(t, d, x, y) && t[y].checked == c
  }

  /** The leaves at or below a department with children are those at or below its children. */
  lemma LeavesAreBelowChildren(t: Tree, d: Depths, x: int, c: bool)
    requires WellFormed(t, d) && x in t && t[x].children != []
    ensures SomeLeaf(t, d, x, c) <==> exists z :: z in t[x].children && SomeLeaf(t, d, z, c)
  {
    if y :| y in t && t[y].children == [] && At(t, d, x, y) && t[y].checked == c {
      var z := ChildOnTheWay(t, d, x, y);
      assert SomeLeaf(t, d, z, c);
    }
    if z :| z in t[x].children && SomeLeaf(t, d, z, c) {
      var y :| y in t && t[y].children == [] && At(t, d, z, y) && t[y].checked == c;
      assert Placed(t, d, x);
      AboveThroughChild(t, d, x, z, y);
    }
  }

  lemma LeafIsItsOwnLeaf(t: Tree, d: Depths, x: int, c: bool)
    requires WellFormed(t, d) && x in t && t[x].children == []
    ensures SomeLeaf(t, d, x, c) <==> t[x].checked == c
  {
    assert At(t, d, x, x);
    forall y | y in t && Above(t, d, x, y)
      ensures exists z :: z in t[x].children
    {
      var z := ChildOnTheWay(t, d, x, y);
    }
  }

  /** What the marks mean: a department is checked exactly when every leaf at or below it is, and half exactly when some
      but not all are. */
  lemma {:induction false} MarksCountLeaves(t: Tree, d: Depths, x: int)
    requires WellFormed(t, d) && TriState(t, d) && x in t && x in d.of && d.of[x] < d.limit
    ensures t[x].checked <==> !SomeLeaf(t, d, x, false)
    ensures t[x].half <==> SomeLeaf(t, d, x, true) && SomeLeaf(t, d, x, false)
    ensures SomeLeaf(t, d, x, true) || SomeLeaf(t, d, x, false)
    decreases d.limit - d.of[x]
  {
    hide SomeLeaf;
    assert Placed(t, d, x) && Agrees(t, x);
    if t[x].children == [] {
      LeafIsItsOwnLeaf(t, d, x, true);
      LeafIsItsOwnLeaf(t, d, x, false);
    } else {
      ChildrenAreDeeper(t, d, x);
      forall z | z in t[x].children
        ensures z in t && (t[z].checked <==> !SomeLeaf(t, d, z, false))
        ensures t[z].half <==> SomeLeaf(t, d, z, true) && SomeLeaf(t, d, z, false)
        ensures SomeLeaf(t, d, z, true) || SomeLeaf(t, d, z, false)
      {
        assert Placed(t, d, z);
        MarksCountLeaves(t, d, z);
      }
      LeavesAreBelowChildren(t, d, x, true);
      LeavesAreBelowChildren(t, d, x, false);
      var first := t[x].children[0];
      assert first in t[x].children;
    }
  }

  /** Something at or below one of `ids` is checked. */
  ghost predicate AnyChecked(t: Tree, d: Depths, ids: seq<int>)
    requires WellFormed(t, d)
  {
    exists x, y :: x in ids && x in t && y in t && At(t, d, x, y) && t[y].checked
  }

  /** No proper ancestor of `x` is checked. */
  ghost predicate NothingCheckedAbove(t: Tree, d: Depths, x: int)
    requires WellFormed(t, d) && x in t
  {
    forall a | a in t && Above(t, d, a, x) :: !t[a].checked
  }

  /** Under the invariant a pass over `ids` ends with one topmost checked department if any is checked at or below
      them, and otherwise with what it started from. */
  lemma {:induction false} PickFindsATopmost(t: Tree, d: Depths, ids: seq<int>, acc: seq<int>, depth: nat)
    requires WellFormed(t, d) && TriState(t, d)
    requires forall x | x in ids :: x in t && x in d.of && depth <= d.of[x]
    requires forall x | x in ids :: x in t && NothingCheckedAbove(t, d, x)
    ensures var r := Picked(t, d, ids, acc, depth);
            if AnyChecked(t, d, ids) then |r| == 1 && Topmost(t, d, r[0]) else r == acc
    decreases d.limit - depth, |ids|
  {
    if ids != [] {
      var x, rest := ids[0], ids[1..];
      assert ids == [x] + rest;
      assert Placed(t, d, x) && Agrees(t, x);
      MarksTellOfChecks(t, d, x);
      assert AnyChecked(t, d, ids) <==> (t[x].checked || t[x].half) || AnyChecked(t, d, rest);
      var next := acc;
      if t[x].checked {
        next := [x];
      } else if t[x].half {
        next := PickBelow(t, d, x);
      }
      PickFindsATopmost(t, d, rest, next, depth);
    }
  }

  lemma PickBelow(t: Tree, d: Depths, x: int) returns (r: seq<int>)
    requires WellFormed(t, d) && TriState(t, d) && x in t && x in d.of
    requires t[x].half && !t[x].checked && NothingCheckedAbove(t, d, x)
    ensures forall c | c in t[x].children :: c in t && c in d.of && d.of[x] + 1 <= d.of[c]
    ensures r == Picked(t, d, t[x].children, [], d.of[x] + 1)
    ensures |r| == 1 && Topmost(t, d, r[0])
    decreases d.limit - d.of[x], 0
  {
    assert Placed(t, d, x) && Agrees(t, x);
    ChildrenAreDeeper(t, d, x);
    forall c | c in t[x].children
      ensures c in t && NothingCheckedAbove(t, d, c)
    {
      assert Placed(t, d, c);
    }
    MarksTellOfChecks(t, d, x);
    var y :| y in t && At(t, d, x, y) && t[y].checked;
    var c := ChildOnTheWay(t, d, x, y);
    assert AnyChecked(t, d, t[x].children);
    PickFindsATopmost(t, d, t[x].children, [], d.of[x] + 1);
    r := Picked(t, d, t[x].children, [], d.of[x] + 1);
  }

  /** `roots` lists the departments without a parent. */
  ghost predicate Roots(t: Tree, roots: seq<int>) {
    forall x :: x in roots <==> x in t && t[x].parent == 0
  }

  lemma {:induction false} EveryDepartmentHasARoot(t: Tree, d: Depths, roots: seq<int>, y: int) returns (r: int)
    requires WellFormed(t, d) && Closed(t) && Roots(t, roots) && y in t
    ensures r in roots && At(t, d, r, y)
    decreases if y in d.of then d.of[y] else 0
  {
    assert Placed(t, d, y);
    if t[y].parent == 0 {
      r := y;
    } else {
      r := EveryDepartmentHasARoot(t, d, roots, t[y].parent);
      assert At(t, d, r, t[y].parent);
    }
  }

  /** Under the invariant the selection shown is at most one department; it is checked with no checked ancestor, and
      it is missing exactly when nothing at all is checked. */
  lemma SelectionIsATopmostChecked(t: Tree, d: Depths, roots: seq<int>)
    requires WellFormed(t, d) && TriState(t, d) && Closed(t) && Roots(t, roots)
    ensures forall x | x in roots :: x in t && x in d.of
    ensures var r := Picked(t, d, roots, [], 0);
            && |r| <= 1
            && (r == [] <==> forall x | x in t :: !t[x].checked)
            && (r != [] ==> Topmost(t, d, r[0]))
  {
    forall x | x in roots
      ensures x in t && x in d.of && NothingCheckedAbove(t, d, x)
    {
      assert Placed(t, d, x);
    }
    PickFindsATopmost(t, d, roots, [], 0);
    forall y | y in t && t[y].checked
      ensures AnyChecked(t, d, roots)
    {
      var r := EveryDepartmentHasARoot(t, d, roots, y);
    }
  }
}
