/** What the walks of the tree view compute, stated without reference to their stacks. */
module WalkFacts {
  import opened Lists
  import opened Trees
  import opened TreeWalk

  // ---------------------------------------------------------------------------
  // Flattening: which nodes are shown, at which depth

  /** The node at path `p` below `t` (placed at `depth`) has every proper
      ancestor on that path expanded, each at the depth it is shown at. */
  ghost predicate Shown(t: Tree, depth: nat, p: seq<nat>, v: View)
  {
    At(t, p).Some? && forall k :: 0 <= k < |p| ==> ExpandedAt(t, depth, p[..k], v)
  }

  /** The node at path `q` exists and is expanded at the depth it is shown at. */
  ghost predicate ExpandedAt(t: Tree, depth: nat, q: seq<nat>, v: View)
  {
    At(t, q).Some? && IsExpanded(At(t, q).value, depth + |q|, v)
  }

  function EntryIds(es: seq<Entry>): (r: seq<int>)
    ensures |r| == |es| && forall i :: 0 <= i < |es| ==> r[i] == es[i].node.id
  {
    if es == [] then [] else [es[0].node.id] + EntryIds(es[1..])
  }

  /** Every node whose ancestors are all expanded gets a row, at depth = its path length. */
  lemma {:induction false} ShownIsVisible(t: Tree, depth: nat, p: seq<nat>, v: View)
    requires Shown(t, depth, p, v)
    ensures Entry(At(t, p).value, depth + |p|) in Visible(t, depth, v)
    decreases |p|
  {
    if p != [] {
      ShownTail(t, depth, p, v);
      var c := t.children[p[0]];
      var e := Entry(At(c, p[1..]).value, depth + 1 + |p[1..]|);
      ShownIsVisible(c, depth + 1, p[1..], v);
      ChildRowIsRow(t, depth, v, p[0], e);
    }
  }

  /** The rows of a child of an expanded node are rows of the node. */
  lemma ChildRowIsRow(t: Tree, depth: nat, v: View, i: nat, e: Entry)
    requires IsExpanded(t, depth, v) && i < |t.children| && e in Visible(t.children[i], depth + 1, v)
    ensures e in Visible(t, depth, v)
  {
    VisibleOfMember(t.children, depth + 1, v, e);
  }

  /** A shown path below an expanded node continues as a shown path below the child it enters. */
  lemma ShownTail(t: Tree, depth: nat, p: seq<nat>, v: View)
    requires Shown(t, depth, p, v) && p != []
    ensures IsExpanded(t, depth, v) && p[0] < |t.children|
    ensures Shown(t.children[p[0]], depth + 1, p[1..], v) && At(t, p) == At(t.children[p[0]], p[1..])
  {
    assert p[..0] == [];
    assert ExpandedAt(t, depth, p[..0], v);
    var c := t.children[p[0]];
    forall k | 0 <= k < |p| - 1
      ensures ExpandedAt(c, depth + 1, p[1..][..k], v)
    {
      assert ExpandedAt(t, depth, p[..k + 1], v);
      AtStep(t, p[..k + 1]);
      assert p[..k + 1][1..] == p[1..][..k];
    }
  }

  /** Every row is a node whose ancestors are all expanded, at depth = its path length. */
  lemma {:induction false} VisibleIsShown(t: Tree, depth: nat, v: View, e: Entry) returns (p: seq<nat>)
    requires e in Visible(t, depth, v)
    ensures Shown(t, depth, p, v) && At(t, p) == Some(e.node) && e.depth == depth + |p|
    decreases t
  {
    if e == Entry(t, depth) {
      p := [];
      assert At(t, p) == Some(t);
    } else {
      var i := VisibleChild(t, depth, v, e);
      var q := VisibleIsShown(t.children[i], depth + 1, v, e);
      ShownCons(t, depth, i, q, v);
      p := [i] + q;
    }
  }

  /** A row below `t` other than `t`'s own comes from a child of an expanded `t`. */
  lemma VisibleChild(t: Tree, depth: nat, v: View, e: Entry) returns (i: nat)
    requires e in Visible(t, depth, v) && e != Entry(t, depth)
    ensures IsExpanded(t, depth, v) && i < |t.children| && e in Visible(t.children[i], depth + 1, v)
  {
    assert IsExpanded(t, depth, v) && e in VisibleOf(t.children, depth + 1, v);
    VisibleOfMember(t.children, depth + 1, v, e);
    var j :| 0 <= j < |t.children| && e in Visible(t.children[j], depth + 1, v);
    i := j;
  }

  /** A child's shown path extends to a path of an expanded parent. */
  lemma ShownCons(t: Tree, depth: nat, i: nat, q: seq<nat>, v: View)
    requires IsExpanded(t, depth, v) && i < |t.children| && Shown(t.children[i], depth + 1, q, v)
    ensures Shown(t, depth, [i] + q, v) && At(t, [i] + q) == At(t.children[i], q)
  {
    var p := [i] + q;
    assert p[1..] == q;
    forall k | 0 <= k < |p|
      ensures ExpandedAt(t, depth, p[..k], v)
    {
      if k == 0 {
        assert p[..k] == [];
      } else {
        AtStep(t, p[..k]);
        assert p[..k][1..] == q[..k - 1];
        assert ExpandedAt(t.children[i], depth + 1, q[..k - 1], v);
      }
    }
  }

  /** With every node expanded, the rows list every node in depth-first pre-order. */
  lemma {:induction false} AllExpandedListsPreorder(t: Tree, depth: nat, v: View)
    requires forall x :: x in Ids(t) ==> x in v.expanded
    ensures EntryIds(Visible(t, depth, v)) == Ids(t)
    decreases t, 1
  {
    assert IsExpanded(t, depth, v);
    forall x | x in IdsOf(t.children) ensures x in v.expanded {
      assert x in Ids(t);
    }
    AllExpandedListsPreorderOf(t.children, depth + 1, v);
    EntryIdsAppend([Entry(t, depth)], VisibleOf(t.children, depth + 1, v));
  }

  lemma {:induction false} AllExpandedListsPreorderOf(ts: seq<Tree>, depth: nat, v: View)
    requires forall x :: x in IdsOf(ts) ==> x in v.expanded
    ensures EntryIds(VisibleOf(ts, depth, v)) == IdsOf(ts)
    decreases ts, 0
  {
    if ts != [] {
      assert IdsOf(ts) == Ids(ts[0]) + IdsOf(ts[1..]);
      AllExpandedListsPreorder(ts[0], depth, v);
      AllExpandedListsPreorderOf(ts[1..], depth, v);
      EntryIdsAppend(Visible(ts[0], depth, v), VisibleOf(ts[1..], depth, v));
    }
  }

  lemma EntryIdsAppend(a: seq<Entry>, b: seq<Entry>)
    ensures EntryIds(a + b) == EntryIds(a) + EntryIds(b)
  {
  }

  lemma {:induction false} VisibleOfMember(ts: seq<Tree>, depth: nat, v: View, e: Entry)
    ensures e in VisibleOf(ts, depth, v) <==> exists i :: 0 <= i < |ts| && e in Visible(ts[i], depth, v)
  {
    if ts != [] {
      VisibleOfMember(ts[1..], depth, v, e);
      if e in VisibleOf(ts[1..], depth, v) {
        var i :| 0 <= i < |ts[1..]| && e in Visible(ts[1..][i], depth, v);
        assert e in Visible(ts[i + 1], depth, v);
      }
      forall i | 0 < i < |ts| && e in Visible(ts[i], depth, v)
        ensures e in VisibleOf(ts[1..], depth, v)
      {
        assert ts[1..][i - 1] == ts[i];
      }
    }
  }

  // ---------------------------------------------------------------------------
  // Search: what `findNode` finds

  /** The search visits every node exactly once: its identifiers are those of the tree. */
  lemma {:induction false} VisitIds(t: Tree)
    ensures multiset(NodeIds(Visit(t))) == multiset(Ids(t))
    decreases t, 1
  {
    VisitAllIds(t.children);
    NodeIdsAppend([t], VisitAll(t.children));
  }

  lemma {:induction false} VisitAllIds(ts: seq<Tree>)
    ensures multiset(NodeIds(VisitAll(ts))) == multiset(IdsOf(ts))
    decreases ts, 0
  {
    if ts != [] {
      var n := |ts| - 1;
      VisitIds(ts[n]);
      VisitAllIds(ts[..n]);
      NodeIdsAppend(Visit(ts[n]), VisitAll(ts[..n]));
      IdsOfLast(ts);
    }
  }

  lemma {:induction false} VisitAllMember(ts: seq<Tree>, n: Tree)
    requires n in VisitAll(ts)
    ensures exists i :: 0 <= i < |ts| && n in Visit(ts[i])
    decreases |ts|
  {
    var last := |ts| - 1;
    if n !in Visit(ts[last]) {
      VisitAllMember(ts[..last], n);
      var i :| 0 <= i < last && n in Visit(ts[..last][i]);
      assert ts[..last][i] == ts[i];
    }
  }

  /** Every visited node is the node at some path. */
  lemma {:induction false} VisitedAt(t: Tree, n: Tree) returns (p: seq<nat>)
    requires n in Visit(t)
    ensures At(t, p) == Some(n)
    decreases t
  {
    if n == t {
      p := [];
    } else {
      VisitAllMember(t.children, n);
      var i :| 0 <= i < |t.children| && n in Visit(t.children[i]);
      var q := VisitedAt(t.children[i], n);
      p := [i] + q;
      assert p[1..] == q;
    }
  }

  /** `findNode` finds a node exactly when the identifier occurs in the tree, and
      what it finds is the node at some path, carrying that identifier. */
  lemma FindNodeCorrect(root: Tree, id: int) returns (p: seq<nat>)
    ensures FirstWithId(Visit(root), id).None? <==> id !in Ids(root)
    ensures id in Ids(root) ==> At(root, p) == FirstWithId(Visit(root), id) && At(root, p).value.id == id
  {
    p := [];
    VisitIds(root);
    var r := FirstWithId(Visit(root), id);
    if r.None? {
      forall x | x in NodeIds(Visit(root)) ensures x != id {
        var j :| 0 <= j < |Visit(root)| && NodeIds(Visit(root))[j] == x;
        assert Visit(root)[j] in Visit(root);
      }
      assert id !in multiset(Ids(root));
    } else {
      var j :| 0 <= j < |Visit(root)| && Visit(root)[j] == r.value;
      assert id in multiset(NodeIds(Visit(root)));
      p := VisitedAt(root, r.value);
    }
  }

  // ---------------------------------------------------------------------------
  // Distinctness and multisets

  /** Only one visited node carries a given identifier, when identifiers are unique. */
  lemma VisitUniqueNode(t: Tree, m: Tree, n: Tree)
    requires UniqueIds(t) && m in Visit(t) && n in Visit(t) && m.id == n.id
    ensures m == n
  {
    var vs := Visit(t);
    VisitIds(t);
    DistinctSub(NodeIds(vs), Ids(t));
    var i :| 0 <= i < |vs| && vs[i] == m;
    var j :| 0 <= j < |vs| && vs[j] == n;
    assert NodeIds(vs)[i] == NodeIds(vs)[j];
  }

  lemma {:induction false} IdsExceptMember(ns: seq<Tree>, p: Tree, x: int)
    ensures x in IdsExcept(ns, p) <==> exists j :: 0 <= j < |ns| && ns[j] != p && ns[j].id == x
    decreases |ns|
  {
    if ns != [] {
      var n := |ns| - 1;
      IdsExceptMember(ns[..n], p, x);
      if x in IdsExcept(ns[..n], p) {
        var j :| 0 <= j < n && ns[..n][j] != p && ns[..n][j].id == x;
        assert ns[j] == ns[..n][j];
      }
      forall j | 0 <= j < n && ns[j] != p && ns[j].id == x
        ensures x in IdsExcept(ns[..n], p)
      {
        assert ns[..n][j] == ns[j];
      }
    }
  }

  lemma {:induction false} IdsExceptDistinct(ns: seq<Tree>, p: Tree)
    requires Distinct(NodeIds(ns))
    ensures Distinct(IdsExcept(ns, p))
    decreases |ns|
  {
    if ns != [] {
      var n := |ns| - 1;
      assert NodeIds(ns[..n]) == NodeIds(ns)[..n];
      IdsExceptDistinct(ns[..n], p);
      var prefix := IdsExcept(ns[..n], p);
      forall x | x in prefix ensures x != ns[n].id {
        IdsExceptMember(ns[..n], p, x);
        var j :| 0 <= j < n && ns[..n][j] != p && ns[..n][j].id == x;
        assert NodeIds(ns)[j] == x && NodeIds(ns)[n] == ns[n].id;
      }
      if ns[n] != p {
        DistinctSnoc(prefix, ns[n].id);
      } else {
        assert IdsExcept(ns, p) == prefix + [];
      }
    }
  }

  /** The identifiers the stack search collects while skipping one visited node `p`:
      every identifier of the tree but `p`'s, each once. */
  lemma WalkExceptContents(t: Tree, p: Tree)
    requires UniqueIds(t) && p in Visit(t)
    ensures forall x :: x in IdsExcept(Visit(t), p) <==> x in Ids(t) && x != p.id
    ensures Distinct(IdsExcept(Visit(t), p))
  {
    var vs := Visit(t);
    VisitIds(t);
    DistinctSub(NodeIds(vs), Ids(t));
    IdsExceptDistinct(vs, p);
    forall x ensures x in IdsExcept(vs, p) <==> x in Ids(t) && x != p.id {
      IdsExceptMember(vs, p, x);
      if x in IdsExcept(vs, p) {
        var j :| 0 <= j < |vs| && vs[j] != p && vs[j].id == x;
        assert NodeIds(vs)[j] == x;
        assert x in multiset(Ids(t));
        if x == p.id {
          VisitUniqueNode(t, vs[j], p);
        }
      }
      if x in Ids(t) && x != p.id {
        assert x in multiset(NodeIds(vs));
        var j :| 0 <= j < |vs| && NodeIds(vs)[j] == x;
        assert vs[j] != p;
      }
    }
  }

  /** `getChildren` as written: with unique identifiers, every identifier of the
      WHOLE tree except `id` itself, each once, whenever `id` occurs; `[]` otherwise. */
  lemma GetChildrenContents(root: Tree, id: int)
    requires UniqueIds(root)
    ensures id !in Ids(root) ==> ChildrenAsWritten(root, id) == []
    ensures id in Ids(root) ==>
      (forall x :: x in ChildrenAsWritten(root, id) <==> x in Ids(root) && x != id) &&
      Distinct(ChildrenAsWritten(root, id))
  {
    var _ := FindNodeCorrect(root, id);
    if id in Ids(root) {
      WalkExceptContents(root, FirstWithId(Visit(root), id).value);
    }
  }

  /** The corrected walk: exactly the identifiers strictly below the node with
      identifier `id` (the node at path `p`), each once. */
  lemma DescendantsContents(root: Tree, id: int) returns (p: seq<nat>)
    requires UniqueIds(root)
    ensures id !in Ids(root) ==> DescendantIds(root, id) == []
    ensures id in Ids(root) ==>
      At(root, p).Some? && At(root, p).value.id == id &&
      (forall x :: x in DescendantIds(root, id) <==> x in IdsOf(At(root, p).value.children)) &&
      Distinct(DescendantIds(root, id))
  {
    p := FindNodeCorrect(root, id);
    if id in Ids(root) {
      var n := At(root, p).value;
      AtIds(root, p);
      DistinctSub(Ids(n), Ids(root));
      WalkExceptContents(n, n);
      DistinctAppend([n.id], IdsOf(n.children));
    }
  }

  /** root 1 with children A (2, holding B 3) and C (4). */
  function Example(): Tree
  {
    Node(1, "root", [Node(2, "A", [Node(3, "B", [])]), Node(4, "C", [])])
  }

  /** The stack search on the example: root, C, then A and B. */
  lemma ExampleVisit()
    ensures Visit(Example()) == [Example(), Node(4, "C", []), Node(2, "A", [Node(3, "B", [])]), Node(3, "B", [])]
  {
    var b := Node(3, "B", []);
    var a := Node(2, "A", [b]);
    var c := Node(4, "C", []);
    assert Visit(b) == [b];
    assert [a, c][..1] == [a];
    assert Visit(a) == [a, b];
    assert Visit(c) == [c];
  }

  /** One more node at the end of the walk. */
  lemma IdsExceptSnoc(ns: seq<Tree>, x: Tree, p: Tree)
    ensures IdsExcept(ns + [x], p) == IdsExcept(ns, p) + (if x != p then [x.id] else [])
  {
    assert (ns + [x])[..|ns|] == ns;
  }

  /** The two walks of the example, on any nodes with those identifiers. */
  lemma ExampleWalks(t: Tree, c: Tree, a: Tree, b: Tree)
    requires t.id == 1 && c.id == 4 && a.id == 2 && b.id == 3
    ensures IdsExcept([t, c, a, b], a) == [1, 4, 3]
    ensures IdsExcept([a, b], a) == [3]
  {
    IdsExceptSnoc([], t, a);
    IdsExceptSnoc([t], c, a);
    IdsExceptSnoc([t, c], a, a);
    IdsExceptSnoc([t, c, a], b, a);
    assert [] + [t] == [t] && [t] + [c] == [t, c] && [t, c] + [a] == [t, c, a] && [t, c, a] + [b] == [t, c, a, b];
    IdsExceptSnoc([], a, a);
    IdsExceptSnoc([a], b, a);
    assert [] + [a] == [a] && [a] + [b] == [a, b];
  }

  /** The search for 2 on the example finds A. */
  lemma ExampleFind()
    ensures FirstWithId(Visit(Example()), 2) == Some(Node(2, "A", [Node(3, "B", [])]))
  {
    ExampleVisit();
  }

  /** On the example, `getChildren(root, 2)` yields the root and C besides B. */
  lemma GetChildrenLeavesSubtree()
    ensures ChildrenAsWritten(Example(), 2) == [1, 4, 3]
    ensures DescendantIds(Example(), 2) == [3]
  {
    var b := Node(3, "B", []);
    var a := Node(2, "A", [b]);
    ExampleVisit();
    ExampleFind();
    assert Visit(a) == [a, b];
    ExampleWalks(Example(), Node(4, "C", []), a, b);
  }
}
