/** `onDrop` of the host (example/App.tsx): the drag item's selection roots
    are moved to the scene, onto the target, or next to it among its parent's
    children, through `reparentObjects`. */
module Dropping {
  import opened Lists
  import opened Trees
  import opened RowEvents
  import opened App
  import opened Reparenting
  import opened MoveFrame

  // ---------------------------------------------------------------------------
  // Parents

  /** `node.parent`: the first node, in pre-order, with a child carrying `id`. */
  function ParentOf(t: Tree, id: int): (r: Option<Tree>)
    ensures r.Some? ==> IndexOfId(r.value.children, id) >= 0
    ensures r.None? <==> id !in IdsOf(t.children)
    decreases t, 1
  {
    if IndexOfId(t.children, id) >= 0 then
      ChildIdIn(t.children, IndexOfId(t.children, id));
      Some(t)
    else
      IdsOfMember(t.children, id);
      ParentIn(t.children, id)
  }

  function ParentIn(ts: seq<Tree>, id: int): (r: Option<Tree>)
    ensures r.Some? ==> IndexOfId(r.value.children, id) >= 0
    ensures r.None? <==> forall k :: 0 <= k < |ts| ==> id !in IdsOf(ts[k].children)
    decreases ts, 0
  {
    if ts == [] then None
    else match ParentOf(ts[0], id)
      case Some(p) => Some(p)
      case None =>
        assert forall k :: 0 < k < |ts| ==> ts[1..][k - 1] == ts[k];
        ParentIn(ts[1..], id)
  }

  /** The identifier of a child is an identifier of the child list. */
  lemma ChildIdIn(ts: seq<Tree>, i: nat)
    requires i < |ts|
    ensures ts[i].id in IdsOf(ts)
  {
    assert Ids(ts[i])[0] == ts[i].id;
    IdsOfMember(ts, ts[i].id);
  }

  /** The parent found sits at some path. */
  lemma {:induction false} ParentPath(t: Tree, id: int) returns (q: seq<nat>)
    requires ParentOf(t, id).Some?
    ensures At(t, q) == ParentOf(t, id)
    decreases t, 1
  {
    if IndexOfId(t.children, id) >= 0 {
      q := [];
    } else {
      var i, q1 := ParentInPath(t.children, id);
      q := [i] + q1;
      assert q[1..] == q1;
    }
  }

  lemma {:induction false} ParentInPath(ts: seq<Tree>, id: int) returns (i: nat, q: seq<nat>)
    requires ParentIn(ts, id).Some?
    ensures i < |ts| && At(ts[i], q) == ParentIn(ts, id)
    decreases ts, 0
  {
    if ParentOf(ts[0], id).Some? {
      i := 0;
      q := ParentPath(ts[0], id);
    } else {
      var j;
      j, q := ParentInPath(ts[1..], id);
      i := j + 1;
      assert ts[1..][j] == ts[i];
    }
  }

  /** With unique identifiers, looking the parent up by its identifier finds it again. */
  lemma ParentFound(scene: Tree, id: int) returns (q: seq<nat>)
    requires UniqueIds(scene) && ParentOf(scene, id).Some?
    ensures At(scene, q) == ParentOf(scene, id)
    ensures FindById(scene, ParentOf(scene, id).value.id) == ParentOf(scene, id)
  {
    var p := ParentOf(scene, id).value;
    q := ParentPath(scene, id);
    AtIdIn(scene, q);
    var q2 := FindPath(scene, p.id);
    UniquePath(scene, q, q2);
  }

  /** Only the scene lacks a parent. */
  lemma NoParentIsScene(scene: Tree, id: int)
    requires UniqueIds(scene) && id in Ids(scene)
    ensures ParentOf(scene, id).None? <==> id == scene.id
  {
    DistinctAppend([scene.id], IdsOf(scene.children));
  }

  // ---------------------------------------------------------------------------
  // The dispatch

  /** Where `onDrop` sends the roots. */
  datatype Plan =
    | Ignore                               // returns early: nothing changes
    | NoParent                             // `node.parent` is null: throws before any change
    | Move(pid: int, before: Option<int>)  // `reparentObjects(node pid, roots, before)`

  /** The branches of `onDrop` up to the call of `reparentObjects`. A target of 0
      counts as no target (`!target`); `After` takes the sibling that follows the
      target before anything moves. */
  function DropPlan(scene: Tree, target: Option<int>, position: DropPosition): (r: Plan)
    ensures position == Root ==> r == Move(scene.id, None)
    ensures r.Ignore? <==>
      position != Root && (target.None? || target.value == 0 || target.value !in Ids(scene))
    ensures r.NoParent? <==>
      (position == Before || position == After) && target.Some? && target.value != 0 &&
      target.value in Ids(scene) && target.value !in IdsOf(scene.children)
    ensures position == On && r.Move? ==> r == Move(target.value, None)
    ensures (position == Before || position == After) && r.Move? ==>
      target.Some? && ParentOf(scene, target.value).Some? && r.pid == ParentOf(scene, target.value).value.id
    ensures position == Before && r.Move? ==> r.before == target
    ensures position == After && r.Move? ==>
      var siblings := ParentOf(scene, target.value).value.children;
      var i := IndexOfId(siblings, target.value);
      r.before == (if i + 1 < |siblings| then Some(siblings[i + 1].id) else None)
  {
    if position == Root then Move(scene.id, None)
    else if target.None? || target.value == 0 then Ignore
    else
      var t := target.value;
      if FindById(scene, t).None? then Ignore
      else if position == On then Move(t, None)
      else
        var parent := ParentOf(scene, t);
        if parent.None? then
          assert t in Ids(scene) && t !in IdsOf(scene.children);
          assert position == Before || position == After;
          NoParent
        else if position == Before then Move(parent.value.id, Some(t))
        else
          var siblings := parent.value.children;
          var i := IndexOfId(siblings, t);
          Move(parent.value.id, if i + 1 < |siblings| then Some(siblings[i + 1].id) else None)
  }

  /** What `reparentObjects` needs of the model: the node receiving the roots is
      still in the scene once the roots are out (it is not inside a dragged subtree). */
  predicate DestinationKept(scene: Tree, item: DragItem, target: Option<int>, position: DropPosition)
  {
    item.nodeIds.Some? ==>
      var plan := DropPlan(scene, target, position);
      plan.Move? ==> plan.pid in Ids(Detach(scene, NodeIds(SelectionRoots(scene, item.nodeIds.value))))
  }

  /** Carrying out a plan: the scene after `onDrop`, or as an exception left it. */
  function Carry(scene: Tree, roots: seq<Tree>, plan: Plan): (r: Outcome)
    requires plan.Move? ==> plan.pid in Ids(Detach(scene, NodeIds(roots)))
    ensures plan.Ignore? ==> r == Done(scene)
    ensures plan.NoParent? ==> r == Thrown(scene)
  {
    match plan
    case Ignore => Done(scene)
    case NoParent => Thrown(scene)
    case Move(pid, before) => Reparent(scene, pid, roots, before)
  }

  /** `onDrop(item, target, position)`. Without `nodeIds` the search for the
      roots throws at once. */
  function DropOutcome(scene: Tree, item: DragItem, target: Option<int>, position: DropPosition): (r: Outcome)
    requires DestinationKept(scene, item, target, position)
    ensures item.nodeIds.None? ==> r == Thrown(scene)
    ensures item.nodeIds.Some? && position != Root ==>
      (target.None? || target.value == 0 || target.value !in Ids(scene)) ==> r == Done(scene)
  {
    if item.nodeIds.None? then Thrown(scene)
    else Carry(scene, SelectionRoots(scene, item.nodeIds.value), DropPlan(scene, target, position))
  }

  /** `onDrop`, branch by branch. */
  method OnDrop(scene: Tree, item: DragItem, target: Option<int>, position: DropPosition) returns (out: Outcome)
    requires DestinationKept(scene, item, target, position)
    ensures out == DropOutcome(scene, item, target, position)
  {
    if item.nodeIds.None? {
      return Thrown(scene);
    }
    var roots := SelectionRoots(scene, item.nodeIds.value);
    if position == Root {
      out := ReparentObjects(scene, scene.id, roots, None);
      return;
    }
    if target.None? || target.value == 0 {
      return Done(scene);
    }
    var node := FindById(scene, target.value);
    if node.None? {
      return Done(scene);
    }
    if position == On {
      out := ReparentObjects(scene, node.value.id, roots, None);
      return;
    }
    var parent := ParentOf(scene, node.value.id);
    if parent.None? {
      return Thrown(scene);
    }
    if position == Before {
      out := ReparentObjects(scene, parent.value.id, roots, Some(node.value.id));
    } else {
      var siblings := parent.value.children;
      var nodeIndex := IndexOfId(siblings, node.value.id);
      var next := if nodeIndex + 1 < |siblings| then Some(siblings[nodeIndex + 1].id) else None;
      out := ReparentObjects(scene, parent.value.id, roots, next);
    }
  }

  // ---------------------------------------------------------------------------
  // Drops the host accepts

  /** The roots of `sel` do not hold `x`, and `x` is not among their identifiers. */
  lemma NotHeldNotRoot(scene: Tree, sel: seq<int>, x: int)
    requires !SomeRootHolds(SelectionRoots(scene, sel), Some(x))
    ensures x !in NodeIds(SelectionRoots(scene, sel))
    ensures x !in IdsOf(SelectionRoots(scene, sel))
  {
    var roots := SelectionRoots(scene, sel);
    assert forall k :: 0 <= k < |roots| ==> FindById(roots[k], x).None?;
    IdsOfMember(roots, x);
  }

  /** A node no root holds stays in the scene when the roots leave. */
  lemma NotHeldIsKept(scene: Tree, sel: seq<int>, x: int)
    requires UniqueIds(scene) && x in Ids(scene)
    requires !SomeRootHolds(SelectionRoots(scene, sel), Some(x))
    ensures x in Ids(Detach(scene, NodeIds(SelectionRoots(scene, sel))))
  {
    SelectedSceneHolds(scene, sel, x);
    if x != scene.id && scene.id !in sel {
      RootsSplit(scene, sel);
      NotHeldNotRoot(scene, sel, x);
      assert x in multiset(Ids(scene));
    }
  }

  /** With the scene selected, its one root holds every node. */
  lemma SelectedSceneHolds(scene: Tree, sel: seq<int>, x: int)
    ensures scene.id in sel && x in Ids(scene) ==> SomeRootHolds(SelectionRoots(scene, sel), Some(x))
  {
    if scene.id in sel && x in Ids(scene) {
      assert FindById(SelectionRoots(scene, sel)[0], x).Some?;
    }
  }

  /** The parent of a node no root holds is not held either. */
  lemma ParentNotHeld(scene: Tree, sel: seq<int>, q: seq<nat>, i: nat)
    requires UniqueIds(scene) && At(scene, q).Some? && i < |At(scene, q).value.children|
    requires !SomeRootHolds(SelectionRoots(scene, sel), Some(At(scene, q).value.children[i].id))
    ensures !SomeRootHolds(SelectionRoots(scene, sel), Some(At(scene, q).value.id))
  {
    var p := q + [i];
    AtAppend(scene, q, [i]);
    assert At(scene, p) == Some(At(scene, q).value.children[i]);
    RootHoldsIffSelectedPrefix(scene, sel, q);
    RootHoldsIffSelectedPrefix(scene, sel, p);
    forall k | 0 <= k <= |q| ensures !SelectedAt(scene, q[..k], sel) {
      assert p[..k] == q[..k];
    }
  }

  /** A target accepted by the host's `canDrop` (with unique identifiers) never
      sends the roots into one of the dragged subtrees. */
  lemma GateKeepsDestination(scene: Tree, item: DragItem, target: Option<int>, position: DropPosition)
    requires UniqueIds(scene) && CanDrop(scene, item, target, position)
    ensures DestinationKept(scene, item, target, position)
  {
    var sel := item.nodeIds.value;
    var plan := DropPlan(scene, target, position);
    if plan.Move? {
      if position == Root {
        assert Ids(Detach(scene, NodeIds(SelectionRoots(scene, sel))))[0] == scene.id;
      } else if position == On {
        NotHeldIsKept(scene, sel, target.value);
      } else {
        var t := target.value;
        var p := ParentOf(scene, t).value;
        var q := ParentFound(scene, t);
        ParentNotHeld(scene, sel, q, IndexOfId(p.children, t));
        AtIdIn(scene, q);
        NotHeldIsKept(scene, sel, p.id);
      }
    }
  }

  /** The common ground of `Before` and `After`: the target is a child of its
      parent both before and after the roots leave, and the parent's children
      have distinct identifiers. */
  lemma TargetKept(scene: Tree, sel: seq<int>, t: int)
    requires UniqueIds(scene) && scene.id !in sel && t in IdsOf(scene.children)
    requires !SomeRootHolds(SelectionRoots(scene, sel), Some(t))
    ensures var p := ParentOf(scene, t).value;
      var ids := NodeIds(SelectionRoots(scene, sel));
      p.id in Ids(scene) && FindById(scene, p.id) == Some(p) &&
      p.id in Ids(Detach(scene, ids)) &&
      Distinct(NodeIds(p.children)) && t !in ids &&
      NodeIds(ChildrenOf(Detach(scene, ids), p.id)) == RemoveAll(NodeIds(p.children), ids)
  {
    var p := ParentOf(scene, t).value;
    var roots := SelectionRoots(scene, sel);
    var ids := NodeIds(roots);
    var q := ParentFound(scene, t);
    AtIdIn(scene, q);
    ParentNotHeld(scene, sel, q, IndexOfId(p.children, t));
    NotHeldIsKept(scene, sel, p.id);
    NotHeldNotRoot(scene, sel, t);
    KeptChildren(scene, ids, p.id);
    AtIds(scene, q);
    DistinctSub(Ids(p), Ids(scene));
    DistinctAppend([p.id], IdsOf(p.children));
    NodeIdsDistinct(p.children);
  }

  /** Children with distinct subtrees carry distinct identifiers. */
  lemma NodeIdsDistinct(cs: seq<Tree>)
    requires Distinct(IdsOf(cs))
    ensures Distinct(NodeIds(cs))
  {
    NodeIdsIn(cs);
    DistinctSub(NodeIds(cs), IdsOf(cs));
  }

  lemma {:induction false} NodeIdsIn(cs: seq<Tree>)
    ensures multiset(NodeIds(cs)) <= multiset(IdsOf(cs))
  {
    if cs != [] {
      NodeIdsIn(cs[1..]);
      assert IdsOf(cs) == [cs[0].id] + IdsOf(cs[0].children) + IdsOf(cs[1..]);
    }
  }

  /** With distinct identifiers, the first child carrying an identifier is the only one. */
  lemma IndexOfDistinct(ts: seq<Tree>, j: nat)
    requires Distinct(NodeIds(ts)) && j < |ts|
    ensures IndexOfId(ts, ts[j].id) == j
  {
    var r := IndexOfId(ts, ts[j].id);
    assert NodeIds(ts)[r] == NodeIds(ts)[j];
  }

  /** A child whose identifier is listed is found by `indexOf`. */
  lemma IndexOfListed(ts: seq<Tree>, b: int)
    requires b in NodeIds(ts)
    ensures IndexOfId(ts, b) >= 0
  {
    var k :| 0 <= k < |NodeIds(ts)| && NodeIds(ts)[k] == b;
    assert ts[k].id == b;
  }

  /** A drop the host accepts, of a selection without the scene, completes for
      every position except `After`; it keeps every node exactly once, identifiers unique. */
  lemma GatedDropCompletes(scene: Tree, sel: seq<int>, target: Option<int>, position: DropPosition)
    requires UniqueIds(scene) && scene.id !in sel
    requires CanDrop(scene, DragItem(Some(sel)), target, position)
    ensures DestinationKept(scene, DragItem(Some(sel)), target, position)
    ensures position != After ==> DropOutcome(scene, DragItem(Some(sel)), target, position).Done?
    ensures var o := DropOutcome(scene, DragItem(Some(sel)), target, position);
      o.Done? ==> multiset(Ids(o.scene)) == multiset(Ids(scene)) && UniqueIds(o.scene)
  {
    var item := DragItem(Some(sel));
    var roots := SelectionRoots(scene, sel);
    GateKeepsDestination(scene, item, target, position);
    RootsSplit(scene, sel);
    var plan := DropPlan(scene, target, position);
    if plan.Move? {
      var ids := NodeIds(roots);
      if position == Before {
        var t := target.value;
        NoParentIsScene(scene, t);
        TargetKept(scene, sel, t);
        var p := ParentOf(scene, t).value;
        var ns := NodeIds(p.children);
        assert t in ns by {
          assert ns[IndexOfId(p.children, t)] == t;
        }
        IndexOfListed(ChildrenOf(Detach(scene, ids), p.id), t);
      }
      ReparentThrows(scene, plan.pid, roots, plan.before);
      if Reparent(scene, plan.pid, roots, plan.before).Done? {
        ReparentKeepsEveryNode(scene, sel, plan.pid, plan.before);
      }
    }
  }

  /** A drop the host accepts and that completes changes nothing but where the roots
      sit: every node keeps its name, and every node but the receiving one keeps
      its children, less the roots. A drop that moves nothing leaves the scene as it was. */
  lemma GatedDropFrame(scene: Tree, sel: seq<int>, target: Option<int>, position: DropPosition)
    requires UniqueIds(scene) && scene.id !in sel
    requires CanDrop(scene, DragItem(Some(sel)), target, position)
    ensures DestinationKept(scene, DragItem(Some(sel)), target, position)
    ensures var o := DropOutcome(scene, DragItem(Some(sel)), target, position);
      o.Done? ==> forall x :: x in Ids(o.scene) ==>
        x in Ids(scene) && FindById(o.scene, x).value.name == FindById(scene, x).value.name
    ensures var o := DropOutcome(scene, DragItem(Some(sel)), target, position);
      var plan := DropPlan(scene, target, position);
      o.Done? && plan.Move? ==> forall x :: x in Ids(o.scene) && x != plan.pid ==>
        x in Ids(scene) &&
        NodeIds(ChildrenOf(o.scene, x)) == RemoveAll(NodeIds(ChildrenOf(scene, x)), NodeIds(SelectionRoots(scene, sel)))
    ensures var o := DropOutcome(scene, DragItem(Some(sel)), target, position);
      o.Done? && !DropPlan(scene, target, position).Move? ==> o.scene == scene
  {
    GateKeepsDestination(scene, DragItem(Some(sel)), target, position);
    var plan := DropPlan(scene, target, position);
    if plan.Move? && Reparent(scene, plan.pid, SelectionRoots(scene, sel), plan.before).Done? {
      ReparentFrame(scene, sel, plan.pid, plan.before);
    }
  }

  /** Dropping on the scene's container or on a node appends the roots, in
      order, to that node's children. */
  lemma GatedDropAppends(scene: Tree, sel: seq<int>, target: Option<int>, position: DropPosition)
    requires UniqueIds(scene) && scene.id !in sel
    requires CanDrop(scene, DragItem(Some(sel)), target, position)
    requires position == Root || (position == On && target.Some? && target.value != 0 && target.value in Ids(scene))
    ensures DestinationKept(scene, DragItem(Some(sel)), target, position)
    ensures var pid := if position == Root then scene.id else target.value;
      var roots := SelectionRoots(scene, sel);
      var o := DropOutcome(scene, DragItem(Some(sel)), target, position);
      pid in Ids(Detach(scene, NodeIds(roots))) && o.Done? && pid in Ids(o.scene) &&
      ChildrenOf(o.scene, pid) == ChildrenOf(Detach(scene, NodeIds(roots)), pid) + roots
  {
    var roots := SelectionRoots(scene, sel);
    GatedDropCompletes(scene, sel, target, position);
    RootsSplit(scene, sel);
    var plan := DropPlan(scene, target, position);
    ReparentBlock(scene, plan.pid, roots, None);
  }

  /** Dropping before a node puts the roots, in order, right in front of it
      among its parent's children. */
  lemma GatedDropBefore(scene: Tree, sel: seq<int>, t: int)
    requires UniqueIds(scene) && scene.id !in sel && t != 0 && t in IdsOf(scene.children)
    requires CanDrop(scene, DragItem(Some(sel)), Some(t), Before)
    ensures DestinationKept(scene, DragItem(Some(sel)), Some(t), Before)
    ensures var pid := ParentOf(scene, t).value.id;
      var roots := SelectionRoots(scene, sel);
      var o := DropOutcome(scene, DragItem(Some(sel)), Some(t), Before);
      pid in Ids(Detach(scene, NodeIds(roots))) && o.Done? && pid in Ids(o.scene) &&
      var kept := ChildrenOf(Detach(scene, NodeIds(roots)), pid);
      exists i :: 0 <= i < |kept| && kept[i].id == t && ChildrenOf(o.scene, pid) == kept[..i] + roots + kept[i..]
  {
    var roots := SelectionRoots(scene, sel);
    ChildIdsIn(scene, t);
    GatedDropCompletes(scene, sel, Some(t), Before);
    RootsSplit(scene, sel);
    var pid := ParentOf(scene, t).value.id;
    assert DropPlan(scene, Some(t), Before) == Move(pid, Some(t));
    assert DropOutcome(scene, DragItem(Some(sel)), Some(t), Before) == Reparent(scene, pid, roots, Some(t));
    ReparentBlock(scene, pid, roots, Some(t));
  }

  /** A child's identifier is an identifier of the scene. */
  lemma ChildIdsIn(scene: Tree, t: int)
    requires t in IdsOf(scene.children)
    ensures t in Ids(scene)
  {
  }

  // ---------------------------------------------------------------------------
  // Dropping after a node

  /** As written, `After` names the sibling that follows the target before the
      roots leave; when that sibling is itself dragged, `indexOf` no longer finds
      it and the call throws with the roots already out of the scene. */
  lemma AfterNextMovedThrows(scene: Tree, sel: seq<int>, t: int)
    requires UniqueIds(scene) && scene.id !in sel && t != 0 && t in IdsOf(scene.children)
    requires CanDrop(scene, DragItem(Some(sel)), Some(t), After)
    requires var siblings := ParentOf(scene, t).value.children;
      var i := IndexOfId(siblings, t);
      i + 1 < |siblings| && siblings[i + 1].id in NodeIds(SelectionRoots(scene, sel))
    ensures DestinationKept(scene, DragItem(Some(sel)), Some(t), After)
    ensures var o := DropOutcome(scene, DragItem(Some(sel)), Some(t), After);
      o.Thrown? && multiset(Ids(o.scene)) + multiset(IdsOf(SelectionRoots(scene, sel))) == multiset(Ids(scene))
  {
    var pid, b := AfterMovesBefore(scene, sel, t);
    RootsSplit(scene, sel);
    ReparentBeforeMoved(scene, pid, SelectionRoots(scene, sel), b.value);
  }

  /** Under the gate, dropping after `t` reparents the roots under `t`'s parent in
      front of the sibling that follows `t` in the scene as it was, if there is one. */
  lemma AfterMovesBefore(scene: Tree, sel: seq<int>, t: int) returns (pid: int, b: Option<int>)
    requires UniqueIds(scene) && scene.id !in sel && t != 0 && t in IdsOf(scene.children)
    requires CanDrop(scene, DragItem(Some(sel)), Some(t), After)
    ensures DestinationKept(scene, DragItem(Some(sel)), Some(t), After)
    ensures ParentOf(scene, t).Some? && pid == ParentOf(scene, t).value.id
    ensures var siblings := ParentOf(scene, t).value.children;
      var i := IndexOfId(siblings, t);
      b == (if i + 1 < |siblings| then Some(siblings[i + 1].id) else None)
    ensures pid in Ids(Detach(scene, NodeIds(SelectionRoots(scene, sel))))
    ensures DropOutcome(scene, DragItem(Some(sel)), Some(t), After) ==
      Reparent(scene, pid, SelectionRoots(scene, sel), b)
  {
    ChildIdsIn(scene, t);
    GateKeepsDestination(scene, DragItem(Some(sel)), Some(t), After);
    var p := ParentOf(scene, t).value;
    pid := p.id;
    var i := IndexOfId(p.children, t);
    b := if i + 1 < |p.children| then Some(p.children[i + 1].id) else None;
    assert DropPlan(scene, Some(t), After) == Move(pid, b);
  }

  /** When the sibling after `t` is not dragged, or there is none, the code as
      written and the corrected drop agree. */
  lemma AfterAsWrittenAgrees(scene: Tree, sel: seq<int>, t: int)
    requires UniqueIds(scene) && scene.id !in sel && t != 0 && t in IdsOf(scene.children)
    requires CanDrop(scene, DragItem(Some(sel)), Some(t), After)
    requires var siblings := ParentOf(scene, t).value.children;
      var i := IndexOfId(siblings, t);
      i + 1 < |siblings| ==> siblings[i + 1].id !in NodeIds(SelectionRoots(scene, sel))
    ensures DestinationKept(scene, DragItem(Some(sel)), Some(t), After)
    ensures DropOutcome(scene, DragItem(Some(sel)), Some(t), After) ==
      DropOutcomeFixed(scene, DragItem(Some(sel)), Some(t), After)
  {
    var pid, b := AfterMovesBefore(scene, sel, t);
    var roots := SelectionRoots(scene, sel);
    var p := ParentOf(scene, t).value;
    var i := IndexOfId(p.children, t);
    var ns := NodeIds(p.children);
    assert NextKept(ns, i, NodeIds(roots)) == b;
    assert DropPlanFixed(scene, roots, Some(t), After) == Move(pid, b);
  }

  /** A scene A, B under the root with B selected: dropping after A throws and B is gone. */
  lemma AfterDropLosesNode()
    ensures var scene := Node(1, "Scene", [Node(2, "A", []), Node(3, "B", [])]);
      var item := DragItem(Some([3]));
      UniqueIds(scene) && CanDrop(scene, item, Some(2), After) &&
      DestinationKept(scene, item, Some(2), After) &&
      DropOutcome(scene, item, Some(2), After) == Thrown(Node(1, "Scene", [Node(2, "A", [])]))
  {
    var a := Node(2, "A", []);
    var b := Node(3, "B", []);
    var scene := Node(1, "Scene", [a, b]);
    ExampleScene(scene, a, b);
    AfterNextMovedThrows(scene, [3], 2);
    assert Removed(scene, [b]) == Done(Node(1, "Scene", [a]));
  }

  /** Facts about the two-child example scene. */
  lemma ExampleScene(scene: Tree, a: Tree, b: Tree)
    requires a == Node(2, "A", []) && b == Node(3, "B", []) && scene == Node(1, "Scene", [a, b])
    ensures Ids(scene) == [1, 2, 3] && UniqueIds(scene)
    ensures SelectionRoots(scene, [3]) == [b] && NodeIds([b]) == [3]
    ensures Detach(scene, [3]) == Node(1, "Scene", [a])
    ensures ParentOf(scene, 2) == Some(scene) && IndexOfId(scene.children, 2) == 0
    ensures CanDrop(scene, DragItem(Some([3])), Some(2), After)
  {
    assert [a, b][0] == a && [a, b][1..] == [b] && [b][0] == b && [b][1..] == [];
    assert IdsOf([b]) == [3];
    assert IdsOf([a, b]) == [2, 3];
    assert RootsOf([b], [3]) == [b];
    assert RootsOf([a, b], [3]) == [b];
    assert DetachAll([b], [3]) == [];
    assert DetachAll([a, b], [3]) == [a];
    assert FindById(b, 2) == None;
  }

  /** Dropping after `A` in the example scene moves the selection in front of `B`. */
  lemma ExamplePlan(scene: Tree, a: Tree, b: Tree)
    requires a == Node(2, "A", []) && b == Node(3, "B", []) && scene == Node(1, "Scene", [a, b])
    ensures DropPlan(scene, Some(2), After) == Move(1, Some(3))
    ensures DestinationKept(scene, DragItem(Some([3])), Some(2), After)
  {
    ExampleScene(scene, a, b);
    assert scene.children[0 + 1].id == 3;
    assert Ids(Node(1, "Scene", [a]))[0] == 1;
  }

  /** The first identifier after position `i` of `ns` that is not in `drop`. */
  function NextKept(ns: seq<int>, i: nat, drop: seq<int>): (r: Option<int>)
    requires i < |ns|
    ensures r.Some? ==> r.value !in drop
    ensures r.None? <==> forall j :: i < j < |ns| ==> ns[j] in drop
    decreases |ns| - i
  {
    if i + 1 == |ns| then None
    else if ns[i + 1] !in drop then Some(ns[i + 1])
    else NextKept(ns, i + 1, drop)
  }

  /** What follows position `i` once `drop` is filtered out starts with `NextKept`. */
  lemma {:induction false} NextKeptHead(ns: seq<int>, i: nat, drop: seq<int>)
    requires i < |ns|
    ensures var rest := RemoveAll(ns[i + 1..], drop);
      (NextKept(ns, i, drop).None? <==> rest == []) &&
      (NextKept(ns, i, drop).Some? ==> rest[0] == NextKept(ns, i, drop).value)
    decreases |ns| - i
  {
    if i + 1 < |ns| {
      assert ns[i + 1..][0] == ns[i + 1] && ns[i + 1..][1..] == ns[i + 2..];
      if ns[i + 1] in drop {
        NextKeptHead(ns, i + 1, drop);
      }
    }
  }

  /** Filtering keeps a kept element at the position given by what precedes it. */
  lemma KeptAround(ns: seq<int>, i: nat, drop: seq<int>)
    requires i < |ns| && ns[i] !in drop
    ensures var kn := RemoveAll(ns, drop);
      var k := |RemoveAll(ns[..i], drop)|;
      k < |kn| && kn[k] == ns[i] && kn[k + 1..] == RemoveAll(ns[i + 1..], drop)
  {
    assert ns == ns[..i] + ns[i..];
    assert ns[i..][0] == ns[i] && ns[i..][1..] == ns[i + 1..];
    RemoveAllAppend(ns[..i], ns[i..], drop);
    var pre := RemoveAll(ns[..i], drop);
    var post := RemoveAll(ns[i + 1..], drop);
    assert RemoveAll(ns[i..], drop) == [ns[i]] + post;
    assert RemoveAll(ns, drop) == pre + ([ns[i]] + post);
  }

  /** `onDrop` with `After` corrected: the roots go in front of the first sibling
      after the target that is not itself dragged. */
  function DropPlanFixed(scene: Tree, roots: seq<Tree>, target: Option<int>, position: DropPosition): (r: Plan)
    ensures position != After ==> r == DropPlan(scene, target, position)
    ensures r.Move? <==> DropPlan(scene, target, position).Move?
    ensures r.Move? ==> r.pid == DropPlan(scene, target, position).pid
  {
    var plan := DropPlan(scene, target, position);
    if position == After && plan.Move? then
      var siblings := ParentOf(scene, target.value).value.children;
      var i := IndexOfId(siblings, target.value);
      Move(plan.pid, NextKept(NodeIds(siblings), i, NodeIds(roots)))
    else plan
  }

  function DropOutcomeFixed(scene: Tree, item: DragItem, target: Option<int>, position: DropPosition): (r: Outcome)
    requires DestinationKept(scene, item, target, position)
    ensures position != After ==> r == DropOutcome(scene, item, target, position)
  {
    if item.nodeIds.None? then Thrown(scene)
    else
      var roots := SelectionRoots(scene, item.nodeIds.value);
      Carry(scene, roots, DropPlanFixed(scene, roots, target, position))
  }

  /** Corrected, a drop after a node the host accepts always completes, and puts
      the roots, in order, right behind the target among its parent's children. */
  lemma FixedDropAfter(scene: Tree, sel: seq<int>, t: int)
    requires UniqueIds(scene) && scene.id !in sel && t != 0 && t in IdsOf(scene.children)
    requires CanDrop(scene, DragItem(Some(sel)), Some(t), After)
    ensures DestinationKept(scene, DragItem(Some(sel)), Some(t), After)
    ensures var pid := ParentOf(scene, t).value.id;
      var roots := SelectionRoots(scene, sel);
      var o := DropOutcomeFixed(scene, DragItem(Some(sel)), Some(t), After);
      pid in Ids(Detach(scene, NodeIds(roots))) && o.Done? && pid in Ids(o.scene) &&
      var kept := ChildrenOf(Detach(scene, NodeIds(roots)), pid);
      exists k :: 0 <= k < |kept| && kept[k].id == t && ChildrenOf(o.scene, pid) == kept[..k + 1] + roots + kept[k + 1..]
  {
    var roots := SelectionRoots(scene, sel);
    var ids := NodeIds(roots);
    ChildIdsIn(scene, t);
    GateKeepsDestination(scene, DragItem(Some(sel)), Some(t), After);
    RootsSplit(scene, sel);
    TargetKept(scene, sel, t);
    var p := ParentOf(scene, t).value;
    var ns := NodeIds(p.children);
    var i := IndexOfId(p.children, t);
    var kept := ChildrenOf(Detach(scene, ids), p.id);
    var next := NextKept(ns, i, ids);
    assert DropPlanFixed(scene, roots, Some(t), After) == Move(p.id, next);
    assert DropOutcomeFixed(scene, DragItem(Some(sel)), Some(t), After) == Reparent(scene, p.id, roots, next);
    assert ns[i] == t;
    var k := AfterInKept(kept, ns, i, ids);
    SpliceBehind(scene, p.id, roots, next, kept, k);
    var o := Reparent(scene, p.id, roots, next);
    assert 0 <= k < |kept| && kept[k].id == t && ChildrenOf(o.scene, p.id) == kept[..k + 1] + roots + kept[k + 1..];
  }

  /** Splicing in front of the child after position `k` of the kept children, or
      appending when `k` is the last, puts the objects right behind child `k`. */
  lemma SpliceBehind(scene: Tree, pid: int, roots: seq<Tree>, next: Option<int>, kept: seq<Tree>, k: nat)
    requires pid in Ids(Detach(scene, NodeIds(roots))) && scene.id !in NodeIds(roots)
    requires kept == ChildrenOf(Detach(scene, NodeIds(roots)), pid)
    requires DetachEach(roots, NodeIds(roots)) == roots
    requires k < |kept|
    requires next.None? ==> kept[..k + 1] == kept && kept[k + 1..] == []
    requires next.Some? ==> IndexOfId(kept, next.value) == k + 1
    ensures var o := Reparent(scene, pid, roots, next);
      o.Done? && pid in Ids(o.scene) && ChildrenOf(o.scene, pid) == kept[..k + 1] + roots + kept[k + 1..]
  {
    var cs := kept[..k + 1] + roots + kept[k + 1..];
    if next.None? {
      assert kept + roots == cs;
    }
    assert Splice(kept, roots, next) == Some(cs);
    ReparentSplices(scene, pid, roots, next);
  }

  /** Where the target and the sibling `NextKept` names sit among the children
      that stay, given their identifiers are those of `ns` less `drop`. */
  lemma AfterInKept(kept: seq<Tree>, ns: seq<int>, i: nat, drop: seq<int>) returns (k: nat)
    requires NodeIds(kept) == RemoveAll(ns, drop) && Distinct(ns) && i < |ns| && ns[i] !in drop
    ensures Distinct(NodeIds(kept))
    ensures k < |kept| && kept[k].id == ns[i]
    ensures NextKept(ns, i, drop).None? ==> kept[..k + 1] == kept && kept[k + 1..] == []
    ensures NextKept(ns, i, drop).Some? ==> k + 1 < |kept| && IndexOfId(kept, NextKept(ns, i, drop).value) == k + 1
  {
    KeptAround(ns, i, drop);
    NextKeptHead(ns, i, drop);
    RemoveAllDistinct(ns, drop);
    k := |RemoveAll(ns[..i], drop)|;
    var kn := NodeIds(kept);
    assert kept[k].id == kn[k];
    if NextKept(ns, i, drop).Some? {
      assert kn[k + 1..][0] == kn[k + 1];
      IndexOfDistinct(kept, k + 1);
    } else {
      assert |kn| == k + 1;
    }
  }

  /** In the example the corrected drop leaves the scene as it was. */
  lemma AfterDropFixedExample()
    ensures var scene := Node(1, "Scene", [Node(2, "A", []), Node(3, "B", [])]);
      var item := DragItem(Some([3]));
      DestinationKept(scene, item, Some(2), After) &&
      DropOutcomeFixed(scene, item, Some(2), After) == Done(scene)
  {
    var a := Node(2, "A", []);
    var b := Node(3, "B", []);
    var scene := Node(1, "Scene", [a, b]);
    ExampleScene(scene, a, b);
    ExamplePlan(scene, a, b);
    assert NodeIds([a, b]) == [2, 3];
    assert NextKept([2, 3], 0, [3]) == None;
    assert DropPlanFixed(scene, [b], Some(2), After) == Move(1, None);
    assert Removed(scene, [b]) == Done(Node(1, "Scene", [a]));
    assert DetachEach([b], [3]) == [b];
    assert DropOutcomeFixed(scene, DragItem(Some([3])), Some(2), After) == Reparent(scene, 1, [b], None);
    assert SetChildren(Node(1, "Scene", [a]), 1, [a] + [b]) == scene;
  }
}
