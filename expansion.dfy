/** The expanded-identifier list of the tree view and its six updaters
    (src/TreeView.tsx, `onExpandNode` … `onCollapseAllNodes`). Each updater is
    a function from the old list to the new one. */
module Expansion {
  import opened Lists
  import opened Trees
  import opened TreeWalk
  import opened WalkFacts

  /** `onExpandNode`: append the identifier unless it is already listed. */
  function Expand(e: seq<int>, id: int): (r: seq<int>)
    ensures forall x :: x in r <==> x in e || x == id
    ensures |e| <= |r| && r[..|e|] == e
  {
    if id in e then e else e + [id]
  }

  /** `onCollapseNode`: drop every occurrence of the identifier. */
  function Collapse(e: seq<int>, id: int): (r: seq<int>)
    ensures forall x :: x in r <==> x in e && x != id
    ensures Subseq(r, e)
  {
    RemoveAll(e, [id])
  }

  /** `onExpandChildren`: the old list followed by the `getChildren` identifiers, duplicates dropped. */
  function ExpandChildren(e: seq<int>, tree: Tree, id: int): (r: seq<int>)
    ensures Distinct(r)
    ensures forall x :: x in r <==> x in e || x in ChildrenAsWritten(tree, id)
  {
    Dedup(e + ChildrenAsWritten(tree, id))
  }

  /** `onCollapseChildren`: the old list without the `getChildren` identifiers. */
  function CollapseChildren(e: seq<int>, tree: Tree, id: int): (r: seq<int>)
    ensures forall x :: x in r <==> x in e && x !in ChildrenAsWritten(tree, id)
    ensures Subseq(r, e)
  {
    RemoveAll(e, ChildrenAsWritten(tree, id))
  }

  /** `onExpandAllNodes`: the identifiers of the rows on screen that are not leaves, in row order. */
  function ExpandAll(rows: seq<Row>): (r: seq<int>)
    ensures forall x :: x in r <==> exists k :: 0 <= k < |rows| && !rows[k].isLeaf && rows[k].id == x
    ensures |r| <= |rows|
  {
    if rows == [] then []
    else (if rows[0].isLeaf then [] else [rows[0].id]) + ExpandAll(rows[1..])
  }

  /** `onCollapseAllNodes`. */
  function CollapseAll(): (r: seq<int>)
    ensures |r| == 0
  {
    []
  }

  // ---------------------------------------------------------------------------
  // Expand and collapse of one node

  lemma ExpandIdempotent(e: seq<int>, id: int)
    ensures Expand(Expand(e, id), id) == Expand(e, id)
  {
  }

  /** Expanding never introduces a duplicate. */
  lemma ExpandKeepsDistinct(e: seq<int>, id: int)
    requires Distinct(e)
    ensures Distinct(Expand(e, id))
  {
    if id !in e {
      DistinctSnoc(e, id);
    }
  }

  /** Collapsing undoes an expansion of an identifier that was not listed. */
  lemma CollapseUndoesExpand(e: seq<int>, id: int)
    requires id !in e
    ensures Collapse(Expand(e, id), id) == e
  {
    RemoveAllNoneDropped(e, [id]);
    RemoveAllAppend(e, [id], [id]);
  }

  /** Collapsing removes every occurrence of the identifier and keeps every other one, counted. */
  lemma CollapseCounts(e: seq<int>, id: int)
    ensures multiset(Collapse(e, id)) == multiset(e)[id := 0]
  {
    RemoveOneCounts(e, id);
  }

  // ---------------------------------------------------------------------------
  // Expanding children keeps the old order

  /** On a list without duplicates, expanding children keeps the old list, in order, as a prefix. */
  lemma ExpandChildrenKeepsOld(e: seq<int>, tree: Tree, id: int)
    requires Distinct(e)
    ensures |e| <= |ExpandChildren(e, tree, id)| && ExpandChildren(e, tree, id)[..|e|] == e
  {
    DedupPrefix(e, ChildrenAsWritten(tree, id));
    DedupDistinct(e);
  }

  // ---------------------------------------------------------------------------
  // What the "children" updaters reach, given what `getChildren` returns

  /** Expanding "children" of a node expands every OTHER node of the tree. */
  lemma ExpandChildrenReach(e: seq<int>, tree: Tree, id: int)
    requires UniqueIds(tree)
    ensures id !in Ids(tree) ==> forall x :: x in ExpandChildren(e, tree, id) <==> x in e
    ensures id in Ids(tree) ==>
      forall x :: x in ExpandChildren(e, tree, id) <==> x in e || (x in Ids(tree) && x != id)
  {
    GetChildrenContents(tree, id);
  }

  /** Collapsing "children" of a node collapses every OTHER node of the tree. */
  lemma CollapseChildrenReach(e: seq<int>, tree: Tree, id: int)
    requires UniqueIds(tree)
    ensures id !in Ids(tree) ==> CollapseChildren(e, tree, id) == e
    ensures id in Ids(tree) ==>
      forall x :: x in CollapseChildren(e, tree, id) <==> x in e && (x == id || x !in Ids(tree))
  {
    GetChildrenContents(tree, id);
    if id !in Ids(tree) {
      RemoveAllNoneDropped(e, []);
    }
  }

  // ---------------------------------------------------------------------------
  // The "children" updaters over the descendants of the node

  /** `onExpandChildren` over the corrected walk: the old list followed by the
      descendants of the node, duplicates dropped. */
  function ExpandDescendants(e: seq<int>, tree: Tree, id: int): (r: seq<int>)
    ensures Distinct(r)
    ensures forall x :: x in r <==> x in e || x in DescendantIds(tree, id)
  {
    Dedup(e + DescendantIds(tree, id))
  }

  /** `onCollapseChildren` over the corrected walk: the old list without the
      descendants of the node. */
  function CollapseDescendants(e: seq<int>, tree: Tree, id: int): (r: seq<int>)
    ensures forall x :: x in r <==> x in e && x !in DescendantIds(tree, id)
    ensures Subseq(r, e)
  {
    RemoveAll(e, DescendantIds(tree, id))
  }

  /** Expanding the descendants of the node at path `p` adds exactly the
      identifiers below it; the rest of the tree is left as it was. */
  lemma ExpandDescendantsReach(e: seq<int>, tree: Tree, id: int) returns (p: seq<nat>)
    requires UniqueIds(tree)
    ensures id !in Ids(tree) ==> forall x :: x in ExpandDescendants(e, tree, id) <==> x in e
    ensures id in Ids(tree) ==>
      At(tree, p).Some? && At(tree, p).value.id == id &&
      forall x :: x in ExpandDescendants(e, tree, id) <==> x in e || x in IdsOf(At(tree, p).value.children)
  {
    p := DescendantsContents(tree, id);
  }

  /** Collapsing the descendants of the node at path `p` removes exactly the
      identifiers below it, the node itself stays expanded. */
  lemma CollapseDescendantsReach(e: seq<int>, tree: Tree, id: int) returns (p: seq<nat>)
    requires UniqueIds(tree)
    ensures id !in Ids(tree) ==> CollapseDescendants(e, tree, id) == e
    ensures id in Ids(tree) ==>
      At(tree, p).Some? && At(tree, p).value.id == id &&
      (forall x :: x in CollapseDescendants(e, tree, id) <==> x in e && x !in IdsOf(At(tree, p).value.children)) &&
      (id in e ==> id in CollapseDescendants(e, tree, id))
  {
    p := DescendantsContents(tree, id);
    if id !in Ids(tree) {
      RemoveAllNoneDropped(e, []);
    } else {
      NodeNotBelowItself(tree, p);
    }
  }

  /** A node's identifier is not among its descendants' in a tree with unique identifiers. */
  lemma NodeNotBelowItself(tree: Tree, p: seq<nat>)
    requires UniqueIds(tree) && At(tree, p).Some?
    ensures At(tree, p).value.id !in IdsOf(At(tree, p).value.children)
  {
    var n := At(tree, p).value;
    AtIds(tree, p);
    DistinctSub(Ids(n), Ids(tree));
    DistinctAppend([n.id], IdsOf(n.children));
  }

  // ---------------------------------------------------------------------------
  // Expand-all and collapse-all, seen through the rows

  /** Expand-all lists only nodes that are on screen: a collapsed subtree's
      inner nodes are not reached, so one press opens one more level. */
  lemma ExpandAllOnScreen(rows: seq<Row>, tree: Tree, v: View, x: int)
    requires |rows| == |Visible(tree, 0, v)|
    requires forall k :: 0 <= k < |rows| ==> rows[k] == RowOf(Visible(tree, 0, v)[k], v)
    ensures x in ExpandAll(rows) <==>
      exists e :: e in Visible(tree, 0, v) && e.node.id == x && |e.node.children| > 0
  {
    var vis := Visible(tree, 0, v);
    if x in ExpandAll(rows) {
      var k :| 0 <= k < |rows| && !rows[k].isLeaf && rows[k].id == x;
      assert vis[k] in vis;
    }
    if exists e :: e in vis && e.node.id == x && |e.node.children| > 0 {
      var e :| e in vis && e.node.id == x && |e.node.children| > 0;
      var k :| 0 <= k < |vis| && vis[k] == e;
      assert rows[k].id == x && !rows[k].isLeaf;
    }
  }

  /** With nothing expanded only the root and its direct children are shown. */
  lemma CollapseAllShowsTopLevel(tree: Tree, v: View)
    requires v.expanded == CollapseAll()
    ensures |Visible(tree, 0, v)| == 1 + |tree.children|
    ensures Visible(tree, 0, v)[0] == Entry(tree, 0)
    ensures forall k :: 0 <= k < |tree.children| ==> Visible(tree, 0, v)[k + 1] == Entry(tree.children[k], 1)
  {
    TopLevelOnly(tree.children, v);
  }

  lemma {:induction false} TopLevelOnly(ts: seq<Tree>, v: View)
    requires v.expanded == []
    ensures |VisibleOf(ts, 1, v)| == |ts|
    ensures forall k :: 0 <= k < |ts| ==> VisibleOf(ts, 1, v)[k] == Entry(ts[k], 1)
  {
    if ts != [] {
      TopLevelOnly(ts[1..], v);
      assert Visible(ts[0], 1, v) == [Entry(ts[0], 1)];
    }
  }
}
