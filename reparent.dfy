/** `reparentObjects` of the host (example/App.tsx), on the scene as a value:
    every object is taken out of its old parent, then the objects are spliced
    into `parent`'s children ahead of `before`, or appended when there is no
    `before`. The world-matrix bookkeeping is not part of this model. */
module Reparenting {
  import opened Lists
  import opened Trees
  import opened App

  /** The scene after a call: on success, or as the exception left it. */
  datatype Outcome = Done(scene: Tree) | Thrown(scene: Tree)

  /** The scene with every node whose identifier is in `drop` removed from its
      parent, its subtree going with it. */
  function Detach(t: Tree, drop: seq<int>): (r: Tree)
    ensures r.id == t.id && r.name == t.name
    ensures forall x :: x in IdsOf(r.children) ==> x !in drop && x in IdsOf(t.children)
    decreases t, 1
  {
    Node(t.id, t.name, DetachAll(t.children, drop))
  }

  function DetachAll(ts: seq<Tree>, drop: seq<int>): (r: seq<Tree>)
    ensures forall x :: x in IdsOf(r) ==> x !in drop && x in IdsOf(ts)
    decreases ts, 0
  {
    if ts == [] then []
    else
      var head := DetachHead(ts[0], drop);
      var rest := DetachAll(ts[1..], drop);
      IdsOfAppend(head, rest);
      assert IdsOf([Detach(ts[0], drop)]) == Ids(Detach(ts[0], drop)) + IdsOf([]);
      assert IdsOf(ts) == Ids(ts[0]) + IdsOf(ts[1..]);
      head + rest
  }

  /** What a removal keeps of one child: nothing, or the child less its removed descendants. */
  function DetachHead(c: Tree, drop: seq<int>): seq<Tree>
    decreases c, 2
  {
    if c.id in drop then [] else [Detach(c, drop)]
  }

  /** The scene with the children of the node `pid` replaced by `cs`. */
  function SetChildren(t: Tree, pid: int, cs: seq<Tree>): (r: Tree)
    ensures r.id == t.id
    ensures pid !in Ids(t) ==> r == t
    ensures pid in Ids(t) ==> FindById(r, pid) == Some(Node(pid, FindById(t, pid).value.name, cs))
    decreases t, 1
  {
    if t.id == pid then Node(t.id, t.name, cs)
    else Node(t.id, t.name, SetChildrenAll(t.children, pid, cs))
  }

  function SetChildrenAll(ts: seq<Tree>, pid: int, cs: seq<Tree>): (r: seq<Tree>)
    ensures |r| == |ts|
    ensures pid !in IdsOf(ts) ==> r == ts
    ensures pid in IdsOf(ts) ==> FindIn(r, pid) == Some(Node(pid, FindIn(ts, pid).value.name, cs))
    decreases ts, 0
  {
    if ts == [] then []
    else
      var rest := SetChildrenAll(ts[1..], pid, cs);
      assert IdsOf(ts) == Ids(ts[0]) + IdsOf(ts[1..]);
      assert ([SetChildren(ts[0], pid, cs)] + rest)[1..] == rest;
      [SetChildren(ts[0], pid, cs)] + rest
  }

  /** `parent.children` of the node `pid`. */
  function ChildrenOf(t: Tree, pid: int): seq<Tree>
    requires pid in Ids(t)
  {
    FindById(t, pid).value.children
  }

  /** `indexOf` on a child list, by identifier: -1 when absent. */
  function IndexOfId(ts: seq<Tree>, b: int): (r: int)
    ensures -1 <= r < |ts|
    ensures r == -1 <==> forall k :: 0 <= k < |ts| ==> ts[k].id != b
    ensures r >= 0 ==> ts[r].id == b && forall k :: 0 <= k < r ==> ts[k].id != b
  {
    if ts == [] then -1
    else if ts[0].id == b then 0
    else
      var j := IndexOfId(ts[1..], b);
      if j < 0 then -1 else j + 1
  }

  /** The moved objects as they arrive: each carries its subtree, less anything
      that was itself moved. */
  function DetachEach(objects: seq<Tree>, drop: seq<int>): (r: seq<Tree>)
    ensures |r| == |objects| && NodeIds(r) == NodeIds(objects)
  {
    if objects == [] then [] else [Detach(objects[0], drop)] + DetachEach(objects[1..], drop)
  }

  /** The new child list of `parent`: the moved objects spliced in at the first
      child carrying `before`, or pushed at the end; nothing when `before` is
      not among the children (`indexOf` gives -1 and the call throws). */
  function Splice(kept: seq<Tree>, moved: seq<Tree>, before: Option<int>): (r: Option<seq<Tree>>)
    ensures r.None? <==> before.Some? && IndexOfId(kept, before.value) == -1
    ensures r.Some? ==> |r.value| == |kept| + |moved|
  {
    match before
    case None => Some(kept + moved)
    case Some(b) =>
      var i := IndexOfId(kept, b);
      if i < 0 then None else Some(kept[..i] + moved + kept[i..])
  }

  /** The first loop of `reparentObjects`: every object leaves its parent. The
      scene has no parent, and reaching it throws, with the objects before it
      already removed. */
  function Removed(scene: Tree, objects: seq<Tree>): (r: Outcome)
    ensures r.Done? <==> scene.id !in NodeIds(objects)
  {
    var ids := NodeIds(objects);
    if scene.id in ids then Thrown(Detach(scene, ids[..IndexOfId(objects, scene.id)]))
    else Done(Detach(scene, ids))
  }

  /** `reparentObjects(parent, objects, before)` with `parent` the node `pid` and
      `before` given by identifier: the removals, then the splice. */
  function Reparent(scene: Tree, pid: int, objects: seq<Tree>, before: Option<int>): Outcome
    requires pid in Ids(Detach(scene, NodeIds(objects)))
  {
    match Removed(scene, objects)
    case Thrown(s) => Thrown(s)
    case Done(cur) =>
      match Splice(ChildrenOf(cur, pid), DetachEach(objects, NodeIds(objects)), before)
      case None => Thrown(cur)
      case Some(cs) => Done(SetChildren(cur, pid, cs))
  }

  /** `reparentObjects`: the removal loop, then the splice or the push. */
  method ReparentObjects(scene: Tree, pid: int, objects: seq<Tree>, before: Option<int>) returns (out: Outcome)
    requires pid in Ids(Detach(scene, NodeIds(objects)))
    ensures out == Reparent(scene, pid, objects, before)
  {
    var removed := RemoveObjects(scene, objects);
    if removed.Thrown? {
      return removed;
    }
    var cur := removed.scene;
    var children := ChildrenOf(cur, pid);
    var moved := DetachEach(objects, NodeIds(objects));
    match before {
      case None =>
        children := children + moved;
      case Some(b) =>
        var beforeIndex := IndexOfId(children, b);
        if beforeIndex == -1 {
          return Thrown(cur);
        }
        children := children[..beforeIndex] + moved + children[beforeIndex..];
    }
    out := Done(SetChildren(cur, pid, children));
  }

  /** The removal loop of `reparentObjects`. */
  method RemoveObjects(scene: Tree, objects: seq<Tree>) returns (out: Outcome)
    ensures out == Removed(scene, objects)
  {
    var cur := scene;
    var i := 0;
    assert NodeIds(objects[..0]) == [];
    DetachNone(scene);
    while i < |objects|
      invariant 0 <= i <= |objects|
      invariant cur == Detach(scene, NodeIds(objects[..i]))
      invariant forall k :: 0 <= k < i ==> objects[k].id != scene.id
    {
      if objects[i].id == scene.id {
        // `object.parent` is null for the scene
        assert NodeIds(objects)[..i] == NodeIds(objects[..i]);
        assert IndexOfId(objects, scene.id) == i;
        return Thrown(cur);
      }
      DetachMore(scene, objects, i);
      cur := Detach(cur, [objects[i].id]);
      i := i + 1;
    }
    assert objects[..i] == objects;
    return Done(cur);
  }

  /** One more pass of the removal loop. */
  lemma DetachMore(scene: Tree, objects: seq<Tree>, i: nat)
    requires i < |objects|
    ensures Detach(Detach(scene, NodeIds(objects[..i])), [objects[i].id]) == Detach(scene, NodeIds(objects[..i + 1]))
  {
    DetachStep(scene, NodeIds(objects[..i]), objects[i].id);
    assert objects[..i + 1] == objects[..i] + [objects[i]];
    NodeIdsAppend(objects[..i], [objects[i]]);
    assert NodeIds([objects[i]]) == [objects[i].id];
  }

  // ---------------------------------------------------------------------------
  // Removal, one object at a time

  lemma {:induction false} DetachNone(t: Tree)
    ensures Detach(t, []) == t
    decreases t, 1
  {
    DetachAllNone(t.children);
  }

  lemma {:induction false} DetachAllNone(ts: seq<Tree>)
    ensures DetachAll(ts, []) == ts
    decreases ts, 0
  {
    if ts != [] {
      DetachNone(ts[0]);
      DetachAllNone(ts[1..]);
      assert ts == [ts[0]] + ts[1..];
    }
  }

  /** Removing one more object after some removals is removing them all at once. */
  lemma {:induction false} DetachStep(t: Tree, drop: seq<int>, b: int)
    ensures Detach(Detach(t, drop), [b]) == Detach(t, drop + [b])
    decreases t, 1
  {
    DetachAllStep(t.children, drop, b);
  }

  lemma {:induction false} DetachAllStep(ts: seq<Tree>, drop: seq<int>, b: int)
    ensures DetachAll(DetachAll(ts, drop), [b]) == DetachAll(ts, drop + [b])
    decreases ts, 0
  {
    if ts != [] {
      var c := ts[0];
      var rest := DetachAll(ts[1..], drop);
      DetachAllStep(ts[1..], drop, b);
      var once := DetachAll(ts, drop);
      if c.id in drop {
        assert once == [] + rest == rest;
        assert c.id in drop + [b];
        assert DetachAll(ts, drop + [b]) == [] + DetachAll(ts[1..], drop + [b]);
      } else {
        DetachStep(c, drop, b);
        assert once == [Detach(c, drop)] + rest;
        assert once[0] == Detach(c, drop) && once[1..] == rest;
        if c.id == b {
          assert c.id in drop + [b];
          assert DetachAll(once, [b]) == [] + DetachAll(rest, [b]);
          assert DetachAll(ts, drop + [b]) == [] + DetachAll(ts[1..], drop + [b]);
        } else {
          assert c.id !in drop + [b];
        }
      }
    }
  }

  // ---------------------------------------------------------------------------
  // What stays and what goes

  /** The children kept by a removal are the old children less the removed ones, in order. */
  lemma {:induction false} DetachAllKeepsOrder(ts: seq<Tree>, drop: seq<int>)
    ensures NodeIds(DetachAll(ts, drop)) == RemoveAll(NodeIds(ts), drop)
    decreases |ts|
  {
    if ts != [] {
      DetachAllKeepsOrder(ts[1..], drop);
      var head := if ts[0].id in drop then [] else [Detach(ts[0], drop)];
      NodeIdsAppend(head, DetachAll(ts[1..], drop));
      assert NodeIds(ts)[1..] == NodeIds(ts[1..]);
    }
  }

  /** Every identifier of a scene is either still in it after the removals or in
      exactly one removed subtree (the topmost removed node on its path). */
  lemma {:induction false} DetachSplit(t: Tree, drop: seq<int>)
    ensures multiset(Ids(t)) == multiset(Ids(Detach(t, drop))) + multiset(IdsOf(RootsOf(t.children, drop)))
    decreases t, 1
  {
    DetachAllSplit(t.children, drop);
  }

  lemma {:induction false} DetachAllSplit(ts: seq<Tree>, drop: seq<int>)
    ensures multiset(IdsOf(ts)) == multiset(IdsOf(DetachAll(ts, drop))) + multiset(IdsOf(RootsOf(ts, drop)))
    decreases ts, 0
  {
    if ts != [] {
      var c := ts[0];
      DetachAllSplit(ts[1..], drop);
      DetachHeadSplit(c, drop);
      DetachAllParts(ts, drop);
      Regroup(Ids(c), IdsOf(ts[1..]), IdsOf(DetachHead(c, drop)), IdsOf(DetachAll(ts[1..], drop)),
              IdsOf(SelectionRoots(c, drop)), IdsOf(RootsOf(ts[1..], drop)));
    }
  }

  lemma {:induction false} DetachHeadSplit(c: Tree, drop: seq<int>)
    ensures multiset(Ids(c)) == multiset(IdsOf(DetachHead(c, drop))) + multiset(IdsOf(SelectionRoots(c, drop)))
    decreases c, 2
  {
    if c.id in drop {
      assert IdsOf([c]) == Ids(c) + IdsOf([]);
    } else {
      DetachSplit(c, drop);
      assert IdsOf([Detach(c, drop)]) == Ids(Detach(c, drop)) + IdsOf([]);
    }
  }

  /** The identifier lists of a child list, the kept children and the removed subtrees, head first. */
  lemma DetachAllParts(ts: seq<Tree>, drop: seq<int>)
    requires ts != []
    ensures IdsOf(ts) == Ids(ts[0]) + IdsOf(ts[1..])
    ensures IdsOf(DetachAll(ts, drop)) == IdsOf(DetachHead(ts[0], drop)) + IdsOf(DetachAll(ts[1..], drop))
    ensures IdsOf(RootsOf(ts, drop)) == IdsOf(SelectionRoots(ts[0], drop)) + IdsOf(RootsOf(ts[1..], drop))
  {
    IdsOfAppend(DetachHead(ts[0], drop), DetachAll(ts[1..], drop));
    IdsOfAppend(SelectionRoots(ts[0], drop), RootsOf(ts[1..], drop));
  }

  lemma Regroup(a: seq<int>, b: seq<int>, c: seq<int>, d: seq<int>, e: seq<int>, f: seq<int>)
    requires multiset(a) == multiset(c) + multiset(e)
    requires multiset(b) == multiset(d) + multiset(f)
    ensures multiset(a + b) == multiset(c + d) + multiset(e + f)
  {
  }

  /** Removal keeps identifiers unique. */
  lemma DetachUnique(t: Tree, drop: seq<int>)
    requires UniqueIds(t)
    ensures UniqueIds(Detach(t, drop))
  {
    DetachSplit(t, drop);
    DistinctSub(Ids(Detach(t, drop)), Ids(t));
  }

  /** With unique identifiers, the node `pid` after the removals is the old node `pid` after the removals. */
  lemma {:induction false} FindDetach(t: Tree, drop: seq<int>, pid: int)
    requires UniqueIds(t) && pid in Ids(Detach(t, drop))
    ensures FindById(t, pid).Some? && FindById(Detach(t, drop), pid) == Some(Detach(FindById(t, pid).value, drop))
    decreases t, 1
  {
    if t.id != pid {
      DistinctAppend([t.id], IdsOf(t.children));
      FindAllDetach(t.children, drop, pid);
    }
  }

  lemma {:induction false} FindAllDetach(ts: seq<Tree>, drop: seq<int>, pid: int)
    requires Distinct(IdsOf(ts)) && pid in IdsOf(DetachAll(ts, drop))
    ensures FindIn(ts, pid).Some? && FindIn(DetachAll(ts, drop), pid) == Some(Detach(FindIn(ts, pid).value, drop))
    decreases ts, 0
  {
    assert ts != [];
    var c := ts[0];
    var rest := DetachAll(ts[1..], drop);
    assert IdsOf(ts) == Ids(c) + IdsOf(ts[1..]);
    DistinctAppend(Ids(c), IdsOf(ts[1..]));
    if c.id in drop {
      assert DetachAll(ts, drop) == [] + rest == rest;
      assert pid in IdsOf(ts[1..]);
      assert FindById(c, pid).None?;
      FindAllDetach(ts[1..], drop, pid);
    } else {
      var d := Detach(c, drop);
      var out := [d] + rest;
      assert DetachAll(ts, drop) == out;
      assert out[0] == d && out[1..] == rest;
      IdsOfAppend([d], rest);
      assert IdsOf([d]) == Ids(d) + IdsOf([]);
      if pid in Ids(d) {
        FindDetach(c, drop, pid);
      } else {
        assert FindById(d, pid).None?;
        assert pid in IdsOf(ts[1..]);
        assert FindById(c, pid).None?;
        FindAllDetach(ts[1..], drop, pid);
      }
    }
  }

  /** The children of `pid` after the removals: the old ones less the removed ones, in order. */
  lemma KeptChildren(t: Tree, drop: seq<int>, pid: int)
    requires UniqueIds(t) && pid in Ids(Detach(t, drop))
    ensures pid in Ids(t)
    ensures NodeIds(ChildrenOf(Detach(t, drop), pid)) == RemoveAll(NodeIds(ChildrenOf(t, pid)), drop)
  {
    FindDetach(t, drop, pid);
    DetachAllKeepsOrder(ChildrenOf(t, pid), drop);
  }

  // ---------------------------------------------------------------------------
  // The splice

  /** On success the objects form one block among `parent`'s children, in their
      given order: right before `before`, or at the end; the other children are
      the kept ones, in their order. */
  lemma ReparentBlock(scene: Tree, pid: int, objects: seq<Tree>, before: Option<int>)
    requires pid in Ids(Detach(scene, NodeIds(objects)))
    requires Reparent(scene, pid, objects, before).Done?
    ensures var ids := NodeIds(objects);
      var kept := ChildrenOf(Detach(scene, ids), pid);
      var s := Reparent(scene, pid, objects, before).scene;
      var moved := DetachEach(objects, ids);
      pid in Ids(s) &&
      NodeIds(moved) == ids &&
      match before
      case None => ChildrenOf(s, pid) == kept + moved
      case Some(b) =>
        exists i :: 0 <= i < |kept| && kept[i].id == b && ChildrenOf(s, pid) == kept[..i] + moved + kept[i..]
  {
    var ids := NodeIds(objects);
    var cur := Detach(scene, ids);
    var s := Reparent(scene, pid, objects, before).scene;
    var moved := DetachEach(objects, ids);
    assert FindById(s, pid).Some?;
    assert NodeIds(moved) == ids;
    if before.Some? {
      var i := IndexOfId(ChildrenOf(cur, pid), before.value);
      assert i >= 0;
    }
  }

  /** When the splice succeeds the call completes, and `parent`'s children are the spliced list. */
  lemma ReparentSplices(scene: Tree, pid: int, objects: seq<Tree>, before: Option<int>)
    requires pid in Ids(Detach(scene, NodeIds(objects))) && scene.id !in NodeIds(objects)
    requires Splice(ChildrenOf(Detach(scene, NodeIds(objects)), pid), DetachEach(objects, NodeIds(objects)), before).Some?
    ensures var cs := Splice(ChildrenOf(Detach(scene, NodeIds(objects)), pid), DetachEach(objects, NodeIds(objects)), before).value;
      var o := Reparent(scene, pid, objects, before);
      o.Done? && pid in Ids(o.scene) && ChildrenOf(o.scene, pid) == cs
  {
    assert Removed(scene, objects) == Done(Detach(scene, NodeIds(objects)));
  }

  /** The call throws exactly when `before` is given but no child of `parent`
      carries it once the objects are out (`indexOf` finds nothing). */
  lemma ReparentThrows(scene: Tree, pid: int, objects: seq<Tree>, before: Option<int>)
    requires pid in Ids(Detach(scene, NodeIds(objects))) && scene.id !in NodeIds(objects)
    ensures var kept := ChildrenOf(Detach(scene, NodeIds(objects)), pid);
      Reparent(scene, pid, objects, before).Thrown? <==> before.Some? && IndexOfId(kept, before.value) == -1
  {
  }

  /** In particular it throws when `before` is one of the objects, with the
      objects already out of the scene. */
  lemma ReparentBeforeMoved(scene: Tree, pid: int, objects: seq<Tree>, b: int)
    requires pid in Ids(Detach(scene, NodeIds(objects))) && scene.id !in NodeIds(objects)
    requires b in NodeIds(objects)
    ensures Reparent(scene, pid, objects, Some(b)) == Thrown(Detach(scene, NodeIds(objects)))
  {
    assert Removed(scene, objects) == Done(Detach(scene, NodeIds(objects)));
    FindDetachKeptIds(scene, NodeIds(objects), pid);
    ReparentThrows(scene, pid, objects, Some(b));
  }

  /** No child of any node of a scene after the removals carries a removed identifier. */
  lemma FindDetachKeptIds(scene: Tree, drop: seq<int>, pid: int)
    requires pid in Ids(Detach(scene, drop))
    ensures var kept := ChildrenOf(Detach(scene, drop), pid);
      forall k :: 0 <= k < |kept| ==> kept[k].id !in drop
  {
    var cur := Detach(scene, drop);
    var n := FindById(cur, pid).value;
    forall k | 0 <= k < |n.children| ensures n.children[k].id !in drop {
      var x := n.children[k].id;
      assert Ids(n.children[k])[0] == x;
      IdsOfMember(n.children, x);
      assert x in Ids(n);
      if cur.id != pid {
        FoundInIds(cur.children, pid);
        assert x in multiset(Ids(n));
        assert x in multiset(IdsOf(cur.children));
      }
    }
  }

  /** The node `FindById` returns sits at some path. */
  lemma {:induction false} FindPath(t: Tree, id: int) returns (p: seq<nat>)
    requires id in Ids(t)
    ensures At(t, p) == FindById(t, id)
    decreases t, 1
  {
    if t.id == id {
      p := [];
    } else {
      var i := FindInPath(t.children, id);
      var q := FindPath(t.children[i], id);
      p := [i] + q;
      assert p[1..] == q;
    }
  }

  lemma {:induction false} FindInPath(ts: seq<Tree>, id: int) returns (i: nat)
    requires id in IdsOf(ts)
    ensures i < |ts| && id in Ids(ts[i]) && FindIn(ts, id) == FindById(ts[i], id)
    decreases |ts|
  {
    var c := ts[0];
    assert IdsOf(ts) == Ids(c) + IdsOf(ts[1..]);
    if id in Ids(c) {
      i := 0;
      assert FindById(c, id).Some?;
    } else {
      assert FindById(c, id).None?;
      var j := FindInPath(ts[1..], id);
      i := j + 1;
      assert ts[i] == ts[1..][j];
    }
  }

  // ---------------------------------------------------------------------------
  // Moving the selection roots keeps every node exactly once

  /** Replacing the children of `pid` trades their identifiers for those of the new children. */
  lemma {:induction false} SetChildrenIds(t: Tree, pid: int, cs: seq<Tree>)
    requires UniqueIds(t) && pid in Ids(t)
    ensures multiset(Ids(SetChildren(t, pid, cs))) + multiset(IdsOf(ChildrenOf(t, pid))) ==
            multiset(Ids(t)) + multiset(IdsOf(cs))
    decreases t, 1
  {
    if t.id == pid {
      Shift([pid], IdsOf(cs), IdsOf(t.children), IdsOf(cs), IdsOf(t.children));
    } else {
      var rest := SetChildrenAll(t.children, pid, cs);
      var kids := FindIn(t.children, pid).value.children;
      assert Ids(SetChildren(t, pid, cs)) == [t.id] + IdsOf(rest);
      assert ChildrenOf(t, pid) == kids;
      DistinctAppend([t.id], IdsOf(t.children));
      SetChildrenAllIds(t.children, pid, cs);
      Shift([t.id], IdsOf(rest), IdsOf(kids), IdsOf(t.children), IdsOf(cs));
    }
  }

  lemma {:induction false} SetChildrenAllIds(ts: seq<Tree>, pid: int, cs: seq<Tree>)
    requires Distinct(IdsOf(ts)) && pid in IdsOf(ts)
    ensures multiset(IdsOf(SetChildrenAll(ts, pid, cs))) + multiset(IdsOf(FindIn(ts, pid).value.children)) ==
            multiset(IdsOf(ts)) + multiset(IdsOf(cs))
    decreases ts, 0
  {
    var c := ts[0];
    var sc := SetChildren(c, pid, cs);
    var rest := SetChildrenAll(ts[1..], pid, cs);
    assert IdsOf(ts) == Ids(c) + IdsOf(ts[1..]);
    assert IdsOf(SetChildrenAll(ts, pid, cs)) == Ids(sc) + IdsOf(rest) by {
      var r := SetChildrenAll(ts, pid, cs);
      assert r[0] == sc && r[1..] == rest;
    }
    DistinctAppend(Ids(c), IdsOf(ts[1..]));
    if pid in Ids(c) {
      assert FindIn(ts, pid) == FindById(c, pid);
      assert rest == ts[1..];
      SetChildrenIds(c, pid, cs);
      ShiftBack(IdsOf(ts[1..]), Ids(sc), IdsOf(ChildrenOf(c, pid)), Ids(c), IdsOf(cs));
    } else {
      assert FindIn(ts, pid) == FindIn(ts[1..], pid);
      assert sc == c;
      SetChildrenAllIds(ts[1..], pid, cs);
      Shift(Ids(c), IdsOf(rest), IdsOf(FindIn(ts[1..], pid).value.children), IdsOf(ts[1..]), IdsOf(cs));
    }
  }

  lemma Shift(e: seq<int>, a: seq<int>, b: seq<int>, c: seq<int>, d: seq<int>)
    requires multiset(a) + multiset(b) == multiset(c) + multiset(d)
    ensures multiset(e + a) + multiset(b) == multiset(e + c) + multiset(d)
  {
    forall x ensures (multiset(e + a) + multiset(b))[x] == (multiset(e + c) + multiset(d))[x] {
      assert (multiset(a) + multiset(b))[x] == (multiset(c) + multiset(d))[x];
    }
  }

  lemma ShiftBack(e: seq<int>, a: seq<int>, b: seq<int>, c: seq<int>, d: seq<int>)
    requires multiset(a) + multiset(b) == multiset(c) + multiset(d)
    ensures multiset(a + e) + multiset(b) == multiset(c + e) + multiset(d)
  {
    forall x ensures (multiset(a + e) + multiset(b))[x] == (multiset(c + e) + multiset(d))[x] {
      assert (multiset(a) + multiset(b))[x] == (multiset(c) + multiset(d))[x];
    }
  }

  /** The spliced child list holds the kept children and the moved ones. */
  lemma SpliceIds(kept: seq<Tree>, moved: seq<Tree>, before: Option<int>)
    requires Splice(kept, moved, before).Some?
    ensures multiset(IdsOf(Splice(kept, moved, before).value)) == multiset(IdsOf(kept)) + multiset(IdsOf(moved))
  {
    if before.None? {
      IdsOfAppend(kept, moved);
    } else {
      var i := IndexOfId(kept, before.value);
      IdsOfAppend(kept[..i] + moved, kept[i..]);
      IdsOfAppend(kept[..i], moved);
      IdsOfAppend(kept[..i], kept[i..]);
      assert kept[..i] + kept[i..] == kept;
    }
  }

  /** A node none of whose descendants is removed is untouched by the removal. */
  lemma {:induction false} DetachNoop(t: Tree, drop: seq<int>)
    requires forall x :: x in IdsOf(t.children) ==> x !in drop
    ensures Detach(t, drop) == t
    decreases t, 1
  {
    DetachAllNoop(t.children, drop);
  }

  lemma {:induction false} DetachAllNoop(ts: seq<Tree>, drop: seq<int>)
    requires forall x :: x in IdsOf(ts) ==> x !in drop
    ensures DetachAll(ts, drop) == ts
    decreases ts, 0
  {
    if ts != [] {
      var c := ts[0];
      assert IdsOf(ts) == [c.id] + IdsOf(c.children) + IdsOf(ts[1..]);
      DetachNoop(c, drop);
      DetachAllNoop(ts[1..], drop);
      assert ts == [c] + ts[1..];
    }
  }

  lemma {:induction false} DetachEachNoop(objects: seq<Tree>, drop: seq<int>)
    requires forall k, x :: 0 <= k < |objects| && x in IdsOf(objects[k].children) ==> x !in drop
    ensures DetachEach(objects, drop) == objects
  {
    if objects != [] {
      DetachNoop(objects[0], drop);
      assert forall k :: 0 <= k < |objects[1..]| ==> objects[1..][k] == objects[k + 1];
      DetachEachNoop(objects[1..], drop);
      assert objects == [objects[0]] + objects[1..];
    }
  }

  /** In a list of disjoint subtrees, no node lies below another's root. */
  lemma BelowNoRoot(objects: seq<Tree>, k: nat, x: int)
    requires Distinct(IdsOf(objects)) && k < |objects| && x in IdsOf(objects[k].children)
    ensures x !in NodeIds(objects)
  {
    var o := objects[k];
    SiblingsDisjoint(objects, k);
    DistinctAppend([o.id], IdsOf(o.children));
    assert x in Ids(o);
    forall j | 0 <= j < |objects| ensures objects[j].id != x {
      assert Ids(objects[j])[0] == objects[j].id;
    }
  }

  /** Selection roots taken from a scene with unique identifiers are disjoint subtrees. */
  lemma RootsDistinct(scene: Tree, sel: seq<int>)
    requires UniqueIds(scene)
    ensures Distinct(IdsOf(RootsOf(scene.children, sel)))
  {
    DetachSplit(scene, sel);
    DistinctSub(IdsOf(RootsOf(scene.children, sel)), Ids(scene));
  }

  /** Searching for the roots again, with only the roots' identifiers selected, finds the same roots. */
  lemma {:induction false} RootsAgain(t: Tree, sel: seq<int>, roots: seq<int>)
    requires forall x :: x in roots ==> x in sel
    requires forall n :: n in SelectionRoots(t, sel) ==> n.id in roots
    ensures SelectionRoots(t, roots) == SelectionRoots(t, sel)
    decreases t, 1
  {
    if t.id in sel {
      assert t in SelectionRoots(t, sel);
    } else {
      RootsOfAgain(t.children, sel, roots);
    }
  }

  lemma {:induction false} RootsOfAgain(ts: seq<Tree>, sel: seq<int>, roots: seq<int>)
    requires forall x :: x in roots ==> x in sel
    requires forall n :: n in RootsOf(ts, sel) ==> n.id in roots
    ensures RootsOf(ts, roots) == RootsOf(ts, sel)
    decreases ts, 0
  {
    if ts != [] {
      assert RootsOf(ts, sel) == SelectionRoots(ts[0], sel) + RootsOf(ts[1..], sel);
      RootsAgain(ts[0], sel, roots);
      RootsOfAgain(ts[1..], sel, roots);
    }
  }

  /** Dropping the selection roots (the scene itself not selected) somewhere in a scene with
      unique identifiers keeps every node exactly once; the identifiers stay unique. */
  lemma ReparentKeepsEveryNode(scene: Tree, sel: seq<int>, pid: int, before: Option<int>)
    requires UniqueIds(scene) && scene.id !in sel
    requires pid in Ids(Detach(scene, NodeIds(SelectionRoots(scene, sel))))
    requires Reparent(scene, pid, SelectionRoots(scene, sel), before).Done?
    ensures multiset(Ids(Reparent(scene, pid, SelectionRoots(scene, sel), before).scene)) == multiset(Ids(scene))
    ensures UniqueIds(Reparent(scene, pid, SelectionRoots(scene, sel), before).scene)
  {
    var roots := SelectionRoots(scene, sel);
    var cur := Detach(scene, NodeIds(roots));
    var kept := ChildrenOf(cur, pid);
    RootsSplit(scene, sel);
    var cs := Splice(kept, roots, before).value;
    var s := SetChildren(cur, pid, cs);
    assert Reparent(scene, pid, roots, before).scene == s by {
      assert Removed(scene, roots) == Done(cur);
    }
    SpliceIds(kept, roots, before);
    DetachUnique(scene, NodeIds(roots));
    SetChildrenIds(cur, pid, cs);
    KeepsEveryNode(Ids(s), IdsOf(kept), Ids(cur), IdsOf(cs), IdsOf(roots), Ids(scene));
  }

  lemma KeepsEveryNode(s: seq<int>, kept: seq<int>, cur: seq<int>, cs: seq<int>, roots: seq<int>, scene: seq<int>)
    requires multiset(s) + multiset(kept) == multiset(cur) + multiset(cs)
    requires multiset(cs) == multiset(kept) + multiset(roots)
    requires multiset(scene) == multiset(cur) + multiset(roots)
    requires Distinct(scene)
    ensures multiset(s) == multiset(scene) && Distinct(s)
  {
    forall x ensures multiset(s)[x] == multiset(scene)[x] {
      assert (multiset(s) + multiset(kept))[x] == (multiset(cur) + multiset(cs))[x];
    }
    DistinctCounts(s);
    DistinctCounts(scene);
  }

  /** For the selection roots, the removal leaves the roots themselves to move,
      and the scene splits into what stays and the roots' subtrees. */
  lemma RootsSplit(scene: Tree, sel: seq<int>)
    requires UniqueIds(scene) && scene.id !in sel
    ensures var roots := SelectionRoots(scene, sel);
      scene.id !in NodeIds(roots) &&
      DetachEach(roots, NodeIds(roots)) == roots &&
      multiset(Ids(scene)) == multiset(Ids(Detach(scene, NodeIds(roots)))) + multiset(IdsOf(roots))
  {
    var roots := SelectionRoots(scene, sel);
    var ids := NodeIds(roots);
    assert roots == RootsOf(scene.children, sel);
    RootsDistinct(scene, sel);
    forall k, x | 0 <= k < |roots| && x in IdsOf(roots[k].children) ensures x !in ids {
      BelowNoRoot(roots, k, x);
    }
    DetachEachNoop(roots, ids);
    RootsOfAgain(scene.children, sel, ids);
    DetachSplit(scene, ids);
  }
}
