// Reparenting leaves the rest of the scene in place: every node keeps its name,
// and every node other than the new parent keeps its children, less the moved ones.

module MoveFrame {
  import opened Lists
  import opened Trees
  import opened App
  import opened Reparenting

  // ---------------------------------------------------------------------------
  // Searching with unique identifiers

  /** In a child list with unique identifiers, a search finds a node inside the child holding it. */
  lemma FindInMember(ts: seq<Tree>, k: nat, x: int)
    requires Distinct(IdsOf(ts)) && k < |ts| && x in Ids(ts[k])
    ensures FindIn(ts, x) == FindById(ts[k], x)
  {
    IdsOfMember(ts, x);
    var i := FindInPath(ts, x);
    SiblingsDisjoint(ts, i);
  }

  /** With unique identifiers, searching the whole hierarchy finds the same node as
      searching the subtree at any path that holds it. */
  lemma {:induction false} FindBelow(t: Tree, p: seq<nat>, x: int)
    requires UniqueIds(t) && At(t, p).Some? && x in Ids(At(t, p).value)
    ensures FindById(t, x) == FindById(At(t, p).value, x)
    decreases |p|
  {
    if p != [] {
      var c := t.children[p[0]];
      AtStep(t, p);
      AtIds(c, p[1..]);
      assert x in multiset(Ids(c));
      ChildUnique(t, p[0]);
      DistinctAppend([t.id], IdsOf(t.children));
      FindInMember(t.children, p[0], x);
      FindBelow(c, p[1..], x);
    }
  }

  /** A child of a node found in `t` is a node strictly below `t`'s root. */
  lemma FoundChildBelow(t: Tree, x: int, m: nat)
    requires FindById(t, x).Some? && m < |FindById(t, x).value.children|
    ensures FindById(t, x).value.children[m].id in IdsOf(t.children)
  {
    var n := FindById(t, x).value;
    assert Ids(n.children[m])[0] == n.children[m].id;
    IdsOfMember(n.children, n.children[m].id);
    if t.id != x {
      FoundInIds(t.children, x);
      assert n.children[m].id in multiset(Ids(n));
    }
  }

  /** The identifiers of `a`, unique, split into `b` and `c`: no identifier is in both. */
  lemma SplitApart(a: seq<int>, b: seq<int>, c: seq<int>, x: int)
    requires Distinct(a) && multiset(a) == multiset(b) + multiset(c) && x in b
    ensures x !in c && x in a
  {
    DistinctCounts(a);
    assert multiset(a)[x] <= 1;
    assert x in multiset(b);
  }

  // ---------------------------------------------------------------------------
  // Replacing the children of one node

  lemma {:induction false} SetChildrenAllNodeIds(ts: seq<Tree>, pid: int, cs: seq<Tree>)
    ensures NodeIds(SetChildrenAll(ts, pid, cs)) == NodeIds(ts)
    decreases ts
  {
    if ts != [] {
      SetChildrenAllNodeIds(ts[1..], pid, cs);
      assert SetChildrenAll(ts, pid, cs)[1..] == SetChildrenAll(ts[1..], pid, cs);
    }
  }

  /** Searching for a node that is neither `pid` nor below it, nor among the new children,
      finds the old node with the same replacement made inside it. */
  lemma {:induction false} SetChildrenFindOutside(t: Tree, pid: int, cs: seq<Tree>, x: int)
    requires UniqueIds(t) && x in Ids(t) && x != pid && x !in IdsOf(cs)
    requires pid in Ids(t) ==> x !in IdsOf(ChildrenOf(t, pid))
    ensures FindById(SetChildren(t, pid, cs), x) == Some(SetChildren(FindById(t, x).value, pid, cs))
    decreases t, 1
  {
    if t.id != x {
      assert Ids(t) == [t.id] + IdsOf(t.children);
      assert t.id != pid;
      DistinctAppend([t.id], IdsOf(t.children));
      SetChildrenAllFindOutside(t.children, pid, cs, x);
    }
  }

  lemma {:induction false} SetChildrenAllFindOutside(ts: seq<Tree>, pid: int, cs: seq<Tree>, x: int)
    requires Distinct(IdsOf(ts)) && x in IdsOf(ts) && x != pid && x !in IdsOf(cs)
    requires pid in IdsOf(ts) ==> x !in IdsOf(FindIn(ts, pid).value.children)
    ensures FindIn(SetChildrenAll(ts, pid, cs), x) == Some(SetChildren(FindIn(ts, x).value, pid, cs))
    decreases ts, 0
  {
    var c := ts[0];
    var sc := SetChildren(c, pid, cs);
    var r := SetChildrenAll(ts, pid, cs);
    assert r[0] == sc && r[1..] == SetChildrenAll(ts[1..], pid, cs);
    assert IdsOf(ts) == Ids(c) + IdsOf(ts[1..]);
    DistinctAppend(Ids(c), IdsOf(ts[1..]));
    if x in Ids(c) {
      SetChildrenFindOutside(c, pid, cs, x);
    } else {
      if pid in Ids(c) {
        SetChildrenIds(c, pid, cs);
        assert (multiset(Ids(sc)) + multiset(IdsOf(ChildrenOf(c, pid))))[x] ==
               (multiset(Ids(c)) + multiset(IdsOf(cs)))[x];
      }
      assert x !in Ids(sc);
      SetChildrenAllFindOutside(ts[1..], pid, cs, x);
    }
  }

  // ---------------------------------------------------------------------------
  // Reparenting the selection roots

  /** Where each kept or moved child lands in the spliced child list. */
  lemma SplicedAt(kept: seq<Tree>, moved: seq<Tree>, before: Option<int>, k: nat, j: nat)
      returns (ik: nat, ij: nat)
    requires Splice(kept, moved, before).Some?
    ensures var cs := Splice(kept, moved, before).value;
      (k < |kept| ==> ik < |cs| && cs[ik] == kept[k]) && (j < |moved| ==> ij < |cs| && cs[ij] == moved[j])
  {
    var cs := Splice(kept, moved, before).value;
    if before.None? {
      ik, ij := k, |kept| + j;
    } else {
      var i := IndexOfId(kept, before.value);
      ik := if k < i then k else k + |moved|;
      ij := i + j;
      assert cs == kept[..i] + moved + kept[i..];
    }
  }

  /** The facts every case below starts from. */
  lemma Setting(scene: Tree, sel: seq<int>, pid: int, before: Option<int>)
    requires UniqueIds(scene) && scene.id !in sel
    requires pid in Ids(Detach(scene, NodeIds(SelectionRoots(scene, sel))))
    requires Reparent(scene, pid, SelectionRoots(scene, sel), before).Done?
    ensures var roots := SelectionRoots(scene, sel);
      var cur := Detach(scene, NodeIds(roots));
      var kept := ChildrenOf(cur, pid);
      Splice(kept, roots, before).Some? &&
      var cs := Splice(kept, roots, before).value;
      var s := Reparent(scene, pid, roots, before).scene;
      s == SetChildren(cur, pid, cs) && UniqueIds(s) && UniqueIds(cur) &&
      multiset(Ids(s)) == multiset(Ids(scene)) &&
      multiset(Ids(scene)) == multiset(Ids(cur)) + multiset(IdsOf(roots)) &&
      multiset(IdsOf(cs)) == multiset(IdsOf(kept)) + multiset(IdsOf(roots)) &&
      pid in Ids(s) && FindById(s, pid) == Some(Node(pid, FindById(cur, pid).value.name, cs))
  {
    var roots := SelectionRoots(scene, sel);
    var cur := Detach(scene, NodeIds(roots));
    RootsSplit(scene, sel);
    assert Removed(scene, roots) == Done(cur);
    ReparentKeepsEveryNode(scene, sel, pid, before);
    DetachUnique(scene, NodeIds(roots));
    SpliceIds(ChildrenOf(cur, pid), roots, before);
  }

  /** With unique identifiers, the new children of `pid` hold unique identifiers too. */
  lemma NewChildrenDistinct(s: Tree, pid: int, n: Tree)
    requires UniqueIds(s) && FindById(s, pid) == Some(n)
    ensures Distinct(IdsOf(n.children))
  {
    FoundIds(s, pid);
    DistinctSub(Ids(n), Ids(s));
    DistinctAppend([n.id], IdsOf(n.children));
  }

  /** A node that stays, other than the new parent, is the same node after the move,
      the replacement aside. */
  lemma StayingNode(scene: Tree, sel: seq<int>, pid: int, before: Option<int>, x: int)
    requires UniqueIds(scene) && scene.id !in sel
    requires pid in Ids(Detach(scene, NodeIds(SelectionRoots(scene, sel))))
    requires Reparent(scene, pid, SelectionRoots(scene, sel), before).Done?
    requires x in Ids(Detach(scene, NodeIds(SelectionRoots(scene, sel)))) && x != pid
    ensures var cur := Detach(scene, NodeIds(SelectionRoots(scene, sel)));
      var s := Reparent(scene, pid, SelectionRoots(scene, sel), before).scene;
      x in Ids(s) && FindById(s, x).value.name == FindById(cur, x).value.name &&
      NodeIds(ChildrenOf(s, x)) == NodeIds(ChildrenOf(cur, x))
  {
    var roots := SelectionRoots(scene, sel);
    var cur := Detach(scene, NodeIds(roots));
    var kept := ChildrenOf(cur, pid);
    Setting(scene, sel, pid, before);
    var cs := Splice(kept, roots, before).value;
    var s := SetChildren(cur, pid, cs);
    SplitApart(Ids(scene), Ids(cur), IdsOf(roots), x);
    if x in IdsOf(kept) {
      var n := FindById(cur, pid).value;
      var pc := FindPath(cur, pid);
      FindBelow(cur, pc, x);
      var k := FindInPath(kept, x);
      var ps := FindPath(s, pid);
      var ik, _ := SplicedAt(kept, roots, before, k, 0);
      NewChildrenDistinct(s, pid, FindById(s, pid).value);
      NewChildrenDistinct(cur, pid, n);
      FindInMember(cs, ik, x);
      assert x in multiset(IdsOf(cs));
      FindBelow(s, ps, x);
      assert FindById(s, x) == FindById(cur, x);
    } else {
      assert x !in multiset(IdsOf(cs));
      SetChildrenFindOutside(cur, pid, cs, x);
      SetChildrenAllNodeIds(FindById(cur, x).value.children, pid, cs);
    }
  }

  /** A moved node is the same node after the move as before it. */
  lemma MovedNode(scene: Tree, sel: seq<int>, pid: int, before: Option<int>, x: int)
    requires UniqueIds(scene) && scene.id !in sel
    requires pid in Ids(Detach(scene, NodeIds(SelectionRoots(scene, sel))))
    requires Reparent(scene, pid, SelectionRoots(scene, sel), before).Done?
    requires x in IdsOf(SelectionRoots(scene, sel))
    ensures var s := Reparent(scene, pid, SelectionRoots(scene, sel), before).scene;
      x in Ids(s) && x in Ids(scene) && FindById(s, x) == FindById(scene, x)
  {
    var roots := SelectionRoots(scene, sel);
    var cur := Detach(scene, NodeIds(roots));
    var kept := ChildrenOf(cur, pid);
    Setting(scene, sel, pid, before);
    var cs := Splice(kept, roots, before).value;
    var s := SetChildren(cur, pid, cs);
    assert x in multiset(IdsOf(cs));
    var j := FindInPath(roots, x);
    var _, ij := SplicedAt(kept, roots, before, |kept|, j);
    NewChildrenDistinct(s, pid, FindById(s, pid).value);
    FindInMember(cs, ij, x);
    var ps := FindPath(s, pid);
    FindBelow(s, ps, x);
    SplitApart(Ids(scene), Ids(cur), IdsOf(roots), pid);
    assert FindById(s, x) == FindIn(cs, x);
    RootFound(scene, sel, j, x);
  }

  /** Inside a selection root, searching the scene finds the node of that root. */
  lemma RootFound(scene: Tree, sel: seq<int>, j: nat, x: int)
    requires UniqueIds(scene) && j < |SelectionRoots(scene, sel)| && x in Ids(SelectionRoots(scene, sel)[j])
    ensures x in Ids(scene) && FindById(scene, x) == FindById(SelectionRoots(scene, sel)[j], x)
  {
    var roots := SelectionRoots(scene, sel);
    var pr := RootsArePaths(scene, sel, roots[j]);
    AtIds(scene, pr);
    assert x in multiset(Ids(scene));
    FindBelow(scene, pr, x);
  }

  /** No child of a node inside the selection roots is itself a root. */
  lemma MovedChildrenStay(scene: Tree, sel: seq<int>, x: int)
    requires UniqueIds(scene) && scene.id !in sel && x in IdsOf(SelectionRoots(scene, sel))
    ensures x in Ids(scene) && RemoveAll(NodeIds(ChildrenOf(scene, x)), NodeIds(SelectionRoots(scene, sel))) ==
      NodeIds(ChildrenOf(scene, x))
  {
    var roots := SelectionRoots(scene, sel);
    RootsSplit(scene, sel);
    var j := FindInPath(roots, x);
    RootFound(scene, sel, j, x);
    var n := FindById(roots[j], x).value;
    assert Distinct(IdsOf(roots)) by {
      DistinctSub(IdsOf(roots), Ids(scene));
    }
    forall m | 0 <= m < |n.children|
      ensures NodeIds(n.children)[m] !in NodeIds(roots)
    {
      FoundChildBelow(roots[j], x, m);
      BelowNoRoot(roots, j, n.children[m].id);
    }
    RemoveAllNoneDropped(NodeIds(n.children), NodeIds(roots));
  }

  /** One node of the scene after the move, compared with the scene before it. */
  lemma FrameAt(scene: Tree, sel: seq<int>, pid: int, before: Option<int>, x: int)
    requires UniqueIds(scene) && scene.id !in sel
    requires pid in Ids(Detach(scene, NodeIds(SelectionRoots(scene, sel))))
    requires Reparent(scene, pid, SelectionRoots(scene, sel), before).Done?
    requires x in Ids(Reparent(scene, pid, SelectionRoots(scene, sel), before).scene)
    ensures var s := Reparent(scene, pid, SelectionRoots(scene, sel), before).scene;
      x in Ids(scene) && FindById(s, x).value.name == FindById(scene, x).value.name
    ensures var s := Reparent(scene, pid, SelectionRoots(scene, sel), before).scene;
      x in Ids(scene) && (x != pid ==>
        NodeIds(ChildrenOf(s, x)) == RemoveAll(NodeIds(ChildrenOf(scene, x)), NodeIds(SelectionRoots(scene, sel))))
  {
    var roots := SelectionRoots(scene, sel);
    var ids := NodeIds(roots);
    var cur := Detach(scene, ids);
    Setting(scene, sel, pid, before);
    assert x in multiset(Ids(scene));
    assert x in multiset(Ids(cur)) + multiset(IdsOf(roots));
    if x in Ids(cur) {
      FindDetach(scene, ids, x);
      if x != pid {
        StayingNode(scene, sel, pid, before, x);
        KeptChildren(scene, ids, x);
      }
    } else {
      MovedNode(scene, sel, pid, before, x);
      MovedChildrenStay(scene, sel, x);
    }
  }

  /** Moving the selection roots under `pid` changes nothing else: every node keeps its
      name, and every node other than `pid` keeps its children, less the moved roots. */
  lemma ReparentFrame(scene: Tree, sel: seq<int>, pid: int, before: Option<int>)
    requires UniqueIds(scene) && scene.id !in sel
    requires pid in Ids(Detach(scene, NodeIds(SelectionRoots(scene, sel))))
    requires Reparent(scene, pid, SelectionRoots(scene, sel), before).Done?
    ensures var s := Reparent(scene, pid, SelectionRoots(scene, sel), before).scene;
      forall x :: x in Ids(s) ==> x in Ids(scene) && FindById(s, x).value.name == FindById(scene, x).value.name
    ensures var s := Reparent(scene, pid, SelectionRoots(scene, sel), before).scene;
      forall x :: x in Ids(s) && x != pid ==>
        x in Ids(scene) &&
        NodeIds(ChildrenOf(s, x)) == RemoveAll(NodeIds(ChildrenOf(scene, x)), NodeIds(SelectionRoots(scene, sel)))
  {
    var s := Reparent(scene, pid, SelectionRoots(scene, sel), before).scene;
    forall x | x in Ids(s)
      ensures x in Ids(scene) && FindById(s, x).value.name == FindById(scene, x).value.name
      ensures x != pid ==>
        NodeIds(ChildrenOf(s, x)) == RemoveAll(NodeIds(ChildrenOf(scene, x)), NodeIds(SelectionRoots(scene, sel)))
    {
      FrameAt(scene, sel, pid, before, x);
    }
  }
}
