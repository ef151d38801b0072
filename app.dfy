/** The host application's selection and drop rules (example/App.tsx): which
    nodes a drag carries, where they may land, and the selection and rename
    reducers. The scene is the three.js object hierarchy. */
module App {
  import opened Lists
  import opened Trees
  import opened RowEvents

  // ---------------------------------------------------------------------------
  // Selection roots

  /** `getSelectionRoots`: a selected node is taken whole and not searched further;
      an unselected node is searched child by child. */
  function SelectionRoots(t: Tree, sel: seq<int>): (r: seq<Tree>)
    ensures forall k :: 0 <= k < |r| ==> r[k].id in sel
    decreases t, 1
  {
    if t.id in sel then [t] else RootsOf(t.children, sel)
  }

  function RootsOf(ts: seq<Tree>, sel: seq<int>): (r: seq<Tree>)
    ensures forall k :: 0 <= k < |r| ==> r[k].id in sel
    decreases ts, 0
  {
    if ts == [] then [] else SelectionRoots(ts[0], sel) + RootsOf(ts[1..], sel)
  }

  /** The node at `p` is selected. */
  predicate SelectedAt(t: Tree, p: seq<nat>, sel: seq<int>)
  {
    At(t, p).Some? && At(t, p).value.id in sel
  }

  /** The node at `p` is selected and no proper ancestor on the path is. */
  predicate RootPath(t: Tree, p: seq<nat>, sel: seq<int>)
  {
    SelectedAt(t, p, sel) && forall k :: 0 <= k < |p| ==> !SelectedAt(t, p[..k], sel)
  }

  /** Every selection root is a selected node without a selected proper ancestor. */
  lemma {:induction false} RootsArePaths(t: Tree, sel: seq<int>, n: Tree) returns (p: seq<nat>)
    requires n in SelectionRoots(t, sel)
    ensures RootPath(t, p, sel) && At(t, p) == Some(n)
    decreases t
  {
    if t.id in sel {
      p := [];
    } else {
      var i := RootsOfMember(t.children, sel, n);
      var q := RootsArePaths(t.children[i], sel, n);
      p := [i] + q;
      assert p[1..] == q;
      forall k | 0 <= k < |p| ensures !SelectedAt(t, p[..k], sel) {
        if k == 0 {
          assert p[..k] == [];
        } else {
          assert p[..k][0] == i && p[..k][1..] == q[..k - 1];
        }
      }
    }
  }

  lemma {:induction false} RootsOfMember(ts: seq<Tree>, sel: seq<int>, n: Tree) returns (i: nat)
    requires n in RootsOf(ts, sel)
    ensures i < |ts| && n in SelectionRoots(ts[i], sel)
    decreases |ts|
  {
    if n in SelectionRoots(ts[0], sel) {
      i := 0;
    } else {
      var j := RootsOfMember(ts[1..], sel, n);
      i := j + 1;
    }
  }

  /** Every selected node without a selected proper ancestor is a selection root. */
  lemma {:induction false} PathsAreRoots(t: Tree, sel: seq<int>, p: seq<nat>)
    requires RootPath(t, p, sel)
    ensures At(t, p).value in SelectionRoots(t, sel)
    decreases |p|
  {
    if p != [] {
      assert p[..0] == [];
      var i := p[0];
      var c := t.children[i];
      forall k | 0 <= k < |p[1..]| ensures !SelectedAt(c, p[1..][..k], sel) {
        assert p[..k + 1][0] == i && p[..k + 1][1..] == p[1..][..k];
      }
      PathsAreRoots(c, sel, p[1..]);
      RootsOfHas(t.children, sel, i, At(t, p).value);
    }
  }

  lemma {:induction false} RootsOfHas(ts: seq<Tree>, sel: seq<int>, i: nat, n: Tree)
    requires i < |ts| && n in SelectionRoots(ts[i], sel)
    ensures n in RootsOf(ts, sel)
    decreases i
  {
    if i > 0 {
      RootsOfHas(ts[1..], sel, i - 1, n);
    }
  }

  /** The roots come in pre-order: their identifiers are a subsequence of the scene's. */
  lemma {:induction false} SelectionRootsInOrder(t: Tree, sel: seq<int>)
    ensures Subseq(NodeIds(SelectionRoots(t, sel)), Ids(t))
    decreases t, 1
  {
    if t.id in sel {
      SubseqRefl([t.id]);
      SubseqEmpty(IdsOf(t.children));
      SubseqAppend([t.id], [t.id], [], IdsOf(t.children));
      assert NodeIds([t]) == [t.id] + [];
    } else {
      RootsOfInOrder(t.children, sel);
      SubseqEmpty([t.id]);
      SubseqAppend([], [t.id], NodeIds(RootsOf(t.children, sel)), IdsOf(t.children));
    }
  }

  lemma {:induction false} RootsOfInOrder(ts: seq<Tree>, sel: seq<int>)
    ensures Subseq(NodeIds(RootsOf(ts, sel)), IdsOf(ts))
    decreases ts, 0
  {
    if ts == [] {
      SubseqEmpty([]);
    } else {
      SelectionRootsInOrder(ts[0], sel);
      RootsOfInOrder(ts[1..], sel);
      NodeIdsAppend(SelectionRoots(ts[0], sel), RootsOf(ts[1..], sel));
      SubseqAppend(NodeIds(SelectionRoots(ts[0], sel)), Ids(ts[0]),
                   NodeIds(RootsOf(ts[1..], sel)), IdsOf(ts[1..]));
    }
  }

  // ---------------------------------------------------------------------------
  // Dragging and dropping

  /** DnDItem: the identifiers a drag carries, when it carries any. */
  datatype DragItem = DragItem(nodeIds: Option<seq<int>>)

  /** Some root holds the node with identifier `target` (three.js `getObjectById` on each root). */
  predicate SomeRootHolds(roots: seq<Tree>, target: Option<int>)
  {
    target.Some? && exists k :: 0 <= k < |roots| && FindById(roots[k], target.value).Some?
  }

  /** `canDrop` of the host. */
  function CanDrop(scene: Tree, item: DragItem, target: Option<int>, position: DropPosition): (r: bool)
    ensures item.nodeIds.None? ==> !r
    ensures target == Some(scene.id) && (position == Before || position == After) ==> !r
    ensures target.None? ==> r == item.nodeIds.Some?
  {
    if item.nodeIds.None? then false
    else if target == Some(scene.id) && (position == Before || position == After) then false
    else !SomeRootHolds(SelectionRoots(scene, item.nodeIds.value), target)
  }

  /** `canDrag`: nothing may be dragged while the scene itself is selected. */
  function CanDrag(scene: Tree, selected: seq<int>, nodeId: int): (r: bool)
    ensures r <==> scene.id !in selected
  {
    scene.id !in selected
  }

  /** `getDragItem`: a drag carries the whole current selection, whichever row it starts on. */
  function GetDragItem(selected: seq<int>, nodeId: int): (r: DragItem)
    ensures r.nodeIds == Some(selected)
  {
    DragItem(Some(selected))
  }

  /** A target node is refused exactly when it is a selected node or lies
      below one (or is the scene with `Before`/`After`): `canDrop` in terms of
      the target's path `p` from the scene. */
  lemma CanDropIffOutsideSelection(scene: Tree, sel: seq<int>, p: seq<nat>, position: DropPosition)
    requires UniqueIds(scene) && At(scene, p).Some?
    ensures CanDrop(scene, DragItem(Some(sel)), Some(At(scene, p).value.id), position) <==>
      !(p == [] && (position == Before || position == After)) &&
      forall k :: 0 <= k <= |p| ==> !SelectedAt(scene, p[..k], sel)
  {
    RootHoldsIffSelectedPrefix(scene, sel, p);
    if p == [] {
      assert At(scene, p) == Some(scene);
    } else {
      ChildUnique(scene, p[0]);
      AtIdIn(scene.children[p[0]], p[1..]);
    }
  }

  /** Some selection root holds the node at `p` iff some prefix of `p` is selected. */
  lemma RootHoldsIffSelectedPrefix(scene: Tree, sel: seq<int>, p: seq<nat>)
    requires UniqueIds(scene) && At(scene, p).Some?
    ensures SomeRootHolds(SelectionRoots(scene, sel), Some(At(scene, p).value.id)) <==>
      exists k :: 0 <= k <= |p| && SelectedAt(scene, p[..k], sel)
  {
    var x := At(scene, p).value.id;
    var roots := SelectionRoots(scene, sel);
    if SomeRootHolds(roots, Some(x)) {
      var k :| 0 <= k < |roots| && FindById(roots[k], x).Some?;
      var j := RootHoldsPrefix(scene, sel, p, roots[k]);
      assert SelectedAt(scene, p[..j], sel);
    }
    if exists k :: 0 <= k <= |p| && SelectedAt(scene, p[..k], sel) {
      var k :| 0 <= k <= |p| && SelectedAt(scene, p[..k], sel);
      PrefixInRoot(scene, sel, p, k);
    }
  }

  /** A root holding the node at `p` sits at a prefix of `p`. */
  lemma RootHoldsPrefix(scene: Tree, sel: seq<int>, p: seq<nat>, r: Tree) returns (j: nat)
    requires UniqueIds(scene) && At(scene, p).Some?
    requires r in SelectionRoots(scene, sel) && At(scene, p).value.id in Ids(r)
    ensures j <= |p| && At(scene, p[..j]) == Some(r) && SelectedAt(scene, p[..j], sel)
  {
    var q := RootsArePaths(scene, sel, r);
    var q2 := IdAtSomePath(r, At(scene, p).value.id);
    AtAppend(scene, q, q2);
    UniquePath(scene, q + q2, p);
    j := |q|;
    assert p[..j] == q;
  }

  /** A selected prefix of `p` puts the node at `p` inside a selection root. */
  lemma PrefixInRoot(scene: Tree, sel: seq<int>, p: seq<nat>, k: nat)
    requires At(scene, p).Some? && k <= |p| && SelectedAt(scene, p[..k], sel)
    ensures SomeRootHolds(SelectionRoots(scene, sel), Some(At(scene, p).value.id))
  {
    var k0 := 0;
    while !SelectedAt(scene, p[..k0], sel)
      invariant k0 <= k
      invariant forall j :: 0 <= j < k0 ==> !SelectedAt(scene, p[..j], sel)
      decreases k - k0
    {
      k0 := k0 + 1;
    }
    var q := p[..k0];
    forall j | 0 <= j < |q| ensures !SelectedAt(scene, q[..j], sel) {
      assert q[..j] == p[..j];
    }
    PathsAreRoots(scene, sel, q);
    var r := At(scene, q).value;
    assert p == q + p[k0..];
    AtAppend(scene, q, p[k0..]);
    AtIdIn(r, p[k0..]);
    var roots := SelectionRoots(scene, sel);
    var i :| 0 <= i < |roots| && roots[i] == r;
    assert FindById(roots[i], At(scene, p).value.id).Some?;
  }

  /** A drag allowed by `canDrag` carries an item that never holds the scene. */
  lemma DraggedItemsExcludeScene(scene: Tree, selected: seq<int>, nodeId: int)
    requires CanDrag(scene, selected, nodeId)
    ensures GetDragItem(selected, nodeId).nodeIds.Some? && scene.id !in GetDragItem(selected, nodeId).nodeIds.value
  {
  }

  // ---------------------------------------------------------------------------
  // Selection reducers

  /** The selected identifiers and the active one. */
  datatype Selection = Selection(selected: seq<int>, active: Option<int>)

  /** The reducers keep the selection duplicate-free, and `active` names a selected
      node exactly when there is one. */
  predicate SelectionOk(s: Selection)
  {
    Distinct(s.selected) &&
    (s.active.None? <==> s.selected == []) &&
    (s.active.Some? ==> s.active.value in s.selected)
  }

  /** `onToggleSelectedNode`. */
  function ToggleSelected(s: Selection, id: int): (r: Selection)
    ensures id in r.selected <==> id !in s.selected
    ensures forall x :: x != id ==> (x in r.selected <==> x in s.selected)
    ensures r.active.None? <==> r.selected == []
    ensures r.active.Some? ==> r.active.value == r.selected[|r.selected| - 1]
    ensures id !in s.selected ==> r.selected == s.selected + [id] && r.active == Some(id)
    ensures id in s.selected ==> Subseq(r.selected, s.selected) && multiset(r.selected) == multiset(s.selected)[id := 0]
  {
    RemoveOneCounts(s.selected, id);
    var next := if id in s.selected then RemoveAll(s.selected, [id]) else s.selected + [id];
    Selection(next, if |next| > 0 then Some(next[|next| - 1]) else None)
  }

  /** `onAddSelectedNode`. */
  function AddSelected(s: Selection, id: int): (r: Selection)
    ensures forall x :: x in r.selected <==> x in s.selected || x == id
    ensures |s.selected| <= |r.selected| && r.selected[..|s.selected|] == s.selected
    ensures r.active == Some(id)
  {
    Selection(if id !in s.selected then s.selected + [id] else s.selected, Some(id))
  }

  /** `onSetSelectedNode`. */
  function SetSelected(s: Selection, id: int): (r: Selection)
    ensures forall x :: x in r.selected <==> x == id
    ensures |r.selected| == 1 && r.active == Some(id)
  {
    Selection([id], Some(id))
  }

  lemma ToggleKeepsSelectionOk(s: Selection, id: int)
    requires SelectionOk(s)
    ensures SelectionOk(ToggleSelected(s, id))
  {
    if id in s.selected {
      RemoveAllDistinct(s.selected, [id]);
    } else {
      DistinctSnoc(s.selected, id);
    }
  }

  lemma AddKeepsSelectionOk(s: Selection, id: int)
    requires SelectionOk(s)
    ensures SelectionOk(AddSelected(s, id))
  {
    if id !in s.selected {
      DistinctSnoc(s.selected, id);
    }
  }

  lemma SetKeepsSelectionOk(s: Selection, id: int)
    requires SelectionOk(s)
    ensures SelectionOk(SetSelected(s, id))
  {
  }

  /** Toggling an unselected node twice restores the selection, order included. */
  lemma ToggleTwice(s: Selection, id: int)
    requires SelectionOk(s) && id !in s.selected
    ensures ToggleSelected(ToggleSelected(s, id), id).selected == s.selected
  {
    var once := s.selected + [id];
    assert ToggleSelected(s, id).selected == once;
    assert forall i :: 0 <= i < |s.selected| ==> s.selected[i] !in [id];
    RemoveAllNoneDropped(s.selected, [id]);
    RemoveAllAppend(s.selected, [id], [id]);
    assert RemoveAll([id], [id]) == [];
  }

  // ---------------------------------------------------------------------------
  // Renaming

  /** `onRenameNode`: the first node in pre-order with identifier `id` takes the
      new name; without such a node nothing changes. */
  function Rename(t: Tree, id: int, name: string): (r: Tree)
    ensures Ids(r) == Ids(t)
    ensures id !in Ids(t) ==> r == t
    ensures id in Ids(t) ==> FindById(r, id) == Some(Node(id, name, FindById(t, id).value.children))
    decreases t, 1
  {
    if t.id == id then Node(id, name, t.children)
    else Node(t.id, t.name, RenameIn(t.children, id, name))
  }

  function RenameIn(ts: seq<Tree>, id: int, name: string): (r: seq<Tree>)
    ensures IdsOf(r) == IdsOf(ts) && |r| == |ts|
    ensures id !in IdsOf(ts) ==> r == ts
    ensures id in IdsOf(ts) ==> FindIn(r, id) == Some(Node(id, name, FindIn(ts, id).value.children))
    decreases ts, 0
  {
    if ts == [] then []
    else if id in Ids(ts[0]) then
      assert ts == [ts[0]] + ts[1..];
      [Rename(ts[0], id, name)] + ts[1..]
    else
      var rest := RenameIn(ts[1..], id, name);
      assert ([ts[0]] + rest)[1..] == rest;
      [ts[0]] + rest
  }

  /** Renaming touches no other node: at every path, a node with another
      identifier keeps its identifier and its name. */
  lemma {:induction false} RenameElsewhere(t: Tree, id: int, name: string, p: seq<nat>)
    requires At(t, p).Some? && At(t, p).value.id != id
    ensures At(Rename(t, id, name), p).Some?
    ensures At(Rename(t, id, name), p).value.id == At(t, p).value.id
    ensures At(Rename(t, id, name), p).value.name == At(t, p).value.name
    decreases |p|
  {
    if p != [] && t.id != id {
      var i := p[0];
      RenameInAt(t.children, id, name, i);
      var c := t.children[i];
      var c' := RenameIn(t.children, id, name)[i];
      if c' == c {
      } else {
        RenameElsewhere(c, id, name, p[1..]);
      }
    }
  }

  /** Renaming a child list renames at most one child, in place. */
  lemma {:induction false} RenameInAt(ts: seq<Tree>, id: int, name: string, i: nat)
    requires i < |ts|
    ensures RenameIn(ts, id, name)[i] == ts[i] || RenameIn(ts, id, name)[i] == Rename(ts[i], id, name)
    decreases i
  {
    if i > 0 && id !in Ids(ts[0]) {
      RenameInAt(ts[1..], id, name, i - 1);
    }
  }
}
