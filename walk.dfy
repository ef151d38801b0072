/** The stack-based walks of the tree view (src/TreeView.tsx): flattening the
    hierarchy into visible rows, searching for a node, and collecting the
    identifiers `getChildren` hands to the expand/collapse-children updaters. */
module TreeWalk {
  import opened Lists
  import opened Trees

  /** InternalTreeNode: one visible row of the list. */
  datatype Row = Row(id: int, name: string, depth: nat, isLeaf: bool, isExpanded: bool,
                     isSelected: bool, isActive: bool, isFocused: bool)

  /** The walk's inputs besides the tree: the expanded and selected identifier
      lists, and the optional active and focused identifiers. */
  datatype View = View(expanded: seq<int>, selected: seq<int>, active: Option<int>, focused: Option<int>)

  /** StackNode: a node waiting on the walk's stack, with the depth it will be shown at. */
  datatype Entry = Entry(node: Tree, depth: nat)

  /** The root (depth 0) is always expanded; any other node when listed in `expanded`. */
  predicate IsExpanded(t: Tree, depth: nat, v: View)
  {
    depth == 0 || t.id in v.expanded
  }

  /** The row the walk emits for a node at a depth. */
  function RowOf(e: Entry, v: View): Row
  {
    Row(e.node.id, e.node.name, e.depth, |e.node.children| == 0, IsExpanded(e.node, e.depth, v),
        e.node.id in v.selected, v.active == Some(e.node.id), v.focused == Some(e.node.id))
  }

  /** The nodes shown for `t` placed at `depth`: `t` itself, then, if it is
      expanded, its children's shown nodes in order (depth-first pre-order). */
  function Visible(t: Tree, depth: nat, v: View): seq<Entry>
  {
    [Entry(t, depth)] + (if IsExpanded(t, depth, v) then VisibleOf(t.children, depth + 1, v) else [])
  }

  function VisibleOf(ts: seq<Tree>, depth: nat, v: View): seq<Entry>
  {
    if ts == [] then [] else Visible(ts[0], depth, v) + VisibleOf(ts[1..], depth, v)
  }

  /** What a stack (top at the end) still has to emit. */
  function Pending(stack: seq<Entry>, v: View): seq<Entry>
  {
    if stack == [] then []
    else Visible(stack[|stack| - 1].node, stack[|stack| - 1].depth, v) + Pending(stack[..|stack| - 1], v)
  }

  /** `treeWalker`: pops a node, emits its row and, when it is expanded, pushes
      its children last to first so that they pop in their original order. */
  method TreeWalker(tree: Tree, v: View) returns (nodes: seq<Row>)
    ensures |nodes| == |Visible(tree, 0, v)|
    ensures forall k :: 0 <= k < |nodes| ==> nodes[k] == RowOf(Visible(tree, 0, v)[k], v)
    ensures nodes[0].id == tree.id && nodes[0].depth == 0 && nodes[0].isExpanded
  {
    nodes := [];
    var stack := [Entry(tree, 0)];
    ghost var done: seq<Entry> := [];
    assert stack[..0] == [];
    while stack != []
      invariant done + Pending(stack, v) == Visible(tree, 0, v)
      invariant |nodes| == |done| && forall k :: 0 <= k < |done| ==> nodes[k] == RowOf(done[k], v)
      decreases |Visible(tree, 0, v)| - |done|
    {
      var top := stack[|stack| - 1];
      PopStep(done, stack, v, Visible(tree, 0, v));
      stack := stack[..|stack| - 1];
      ghost var rest := Pending(stack, v);
      var isExpanded := top.depth == 0 || top.node.id in v.expanded;
      nodes := nodes + [RowOf(top, v)];
      done := done + [top];
      if isExpanded && |top.node.children| > 0 {
        stack := PushChildren(stack, top.node.children, top.depth + 1, v);
        assert Pending(stack, v) == Below(top, v) + rest;
      } else {
        assert Below(top, v) == [];
        assert Pending(stack, v) == Below(top, v) + rest;
      }
    }
    assert Visible(tree, 0, v)[0] == Entry(tree, 0);
  }

  /** The `for` loop of `treeWalker`: pushes `cs` last to first at `depth`. */
  method PushChildren(stack: seq<Entry>, cs: seq<Tree>, depth: nat, ghost v: View) returns (pushed: seq<Entry>)
    ensures Pending(pushed, v) == VisibleOf(cs, depth, v) + Pending(stack, v)
  {
    pushed := stack;
    var i := |cs|;
    assert cs[i..] == [];
    while i > 0
      invariant 0 <= i <= |cs|
      invariant Pending(pushed, v) == VisibleOf(cs[i..], depth, v) + Pending(stack, v)
    {
      i := i - 1;
      PendingPush(pushed, Entry(cs[i], depth), v);
      VisibleOfFrom(cs, i, depth, v);
      pushed := pushed + [Entry(cs[i], depth)];
    }
    assert cs[0..] == cs;
  }

  // ---------------------------------------------------------------------------
  // Search order of `findNode` and `getChildren`

  /** The order in which a stack search visits `t`: children are pushed in
      order and popped from the end, so the last child's subtree comes first. */
  function Visit(t: Tree): seq<Tree>
  {
    [t] + VisitAll(t.children)
  }

  function VisitAll(stack: seq<Tree>): seq<Tree>
  {
    if stack == [] then [] else Visit(stack[|stack| - 1]) + VisitAll(stack[..|stack| - 1])
  }

  /** The first node of `ns` carrying `id`. */
  function FirstWithId(ns: seq<Tree>, id: int): (r: Option<Tree>)
    ensures r.Some? ==> r.value.id == id && r.value in ns
    ensures r.None? <==> forall n :: n in ns ==> n.id != id
  {
    if ns == [] then None
    else if ns[0].id == id then Some(ns[0])
    else FirstWithId(ns[1..], id)
  }

  /** The identifiers of the nodes of `ns` other than `p`, in order. */
  function IdsExcept(ns: seq<Tree>, p: Tree): seq<int>
  {
    if ns == [] then []
    else IdsExcept(ns[..|ns| - 1], p) + (if ns[|ns| - 1] != p then [ns[|ns| - 1].id] else [])
  }

  /** `findNode`: the first node the stack search meets with identifier `id`. */
  method FindNode(root: Tree, id: int) returns (r: Option<Tree>)
    ensures r == FirstWithId(Visit(root), id)
  {
    var stack := [root];
    ghost var seen: seq<Tree> := [];
    assert stack[..0] == [];
    while stack != []
      invariant seen + VisitAll(stack) == Visit(root)
      invariant forall n :: n in seen ==> n.id != id
      decreases |VisitAll(stack)|
    {
      var item := stack[|stack| - 1];
      VisitPop(stack);
      stack := stack[..|stack| - 1];
      if item.id == id {
        FirstWithIdSkip(seen, [item] + VisitAll(stack + item.children), id);
        return Some(item);
      }
      stack := stack + item.children;
      seen := seen + [item];
    }
    assert seen == Visit(root);
    FirstWithIdSkip(seen, [], id);
    assert seen + [] == seen;
    return None;
  }

  /** What `getChildren` returns: nothing when the identifier is absent, else the
      identifier of every node the search from the ROOT visits, except the node found. */
  function ChildrenAsWritten(root: Tree, id: int): seq<int>
  {
    match FirstWithId(Visit(root), id)
    case None => []
    case Some(found) => IdsExcept(Visit(root), found)
  }

  /** `getChildren` as written: the second walk starts at `root`. */
  method GetChildren(root: Tree, id: int) returns (children: seq<int>)
    ensures children == ChildrenAsWritten(root, id)
  {
    var parent := FindNode(root, id);
    if parent.None? {
      return [];
    }
    children := Walk(root, parent.value);
  }

  /** The identifier of every node the stack search from `start` meets, except `skip`. */
  method Walk(start: Tree, skip: Tree) returns (children: seq<int>)
    ensures children == IdsExcept(Visit(start), skip)
  {
    children := [];
    var stack := [start];
    ghost var seen: seq<Tree> := [];
    assert stack[..0] == [];
    while stack != []
      invariant seen + VisitAll(stack) == Visit(start)
      invariant children == IdsExcept(seen, skip)
      decreases |VisitAll(stack)|
    {
      var node := stack[|stack| - 1];
      VisitPop(stack);
      stack := stack[..|stack| - 1];
      if node != skip {
        children := children + [node.id];
      }
      stack := stack + node.children;
      assert (seen + [node])[..|seen|] == seen;
      seen := seen + [node];
    }
    assert seen == Visit(start);
  }

  /** The descendants of the node `findNode` returns, as the callers of
      `getChildren` expect. */
  function DescendantIds(root: Tree, id: int): seq<int>
  {
    match FirstWithId(Visit(root), id)
    case None => []
    case Some(found) => IdsExcept(Visit(found), found)
  }

  /** `getChildren` with the second walk started at the found node. */
  method GetDescendants(root: Tree, id: int) returns (children: seq<int>)
    ensures children == DescendantIds(root, id)
  {
    var parent := FindNode(root, id);
    if parent.None? {
      return [];
    }
    children := Walk(parent.value, parent.value);
  }

  // ---------------------------------------------------------------------------
  // Stack algebra

  /** Popping the top entry emits its row and leaves its shown children on top. */
  lemma PendingPop(stack: seq<Entry>, v: View)
    requires stack != []
    ensures var top := stack[|stack| - 1];
      Pending(stack, v) == [top]
        + (if IsExpanded(top.node, top.depth, v) then VisibleOf(top.node.children, top.depth + 1, v) else [])
        + Pending(stack[..|stack| - 1], v)
  {
  }

  /** The shown nodes strictly below an entry. */
  function Below(e: Entry, v: View): seq<Entry>
  {
    if IsExpanded(e.node, e.depth, v) then VisibleOf(e.node.children, e.depth + 1, v) else []
  }

  /** One iteration of the walk: the popped entry moves to the emitted part and
      what it shows below itself goes in front of the rest of the stack. */
  lemma PopStep(done: seq<Entry>, stack: seq<Entry>, v: View, target: seq<Entry>)
    requires stack != [] && done + Pending(stack, v) == target
    ensures var n := |stack| - 1;
      (done + [stack[n]]) + (Below(stack[n], v) + Pending(stack[..n], v)) == target
    ensures var n := |stack| - 1;
      |stack[n].node.children| == 0 ==> Below(stack[n], v) == []
  {
    var n := |stack| - 1;
    var b := Below(stack[n], v);
    var p := Pending(stack[..n], v);
    PendingPop(stack, v);
    assert Pending(stack, v) == [stack[n]] + b + p;
    assert (done + [stack[n]]) + (b + p) == done + ([stack[n]] + b + p);
  }

  lemma VisibleOfFrom(ts: seq<Tree>, i: nat, depth: nat, v: View)
    requires i < |ts|
    ensures VisibleOf(ts[i..], depth, v) == Visible(ts[i], depth, v) + VisibleOf(ts[i + 1..], depth, v)
  {
    assert ts[i..][0] == ts[i] && ts[i..][1..] == ts[i + 1..];
  }

  lemma PendingPush(stack: seq<Entry>, e: Entry, v: View)
    ensures Pending(stack + [e], v) == Visible(e.node, e.depth, v) + Pending(stack, v)
  {
    assert (stack + [e])[..|stack|] == stack;
  }

  /** Popping a node visits it, then searches the stack with its children pushed. */
  lemma VisitPop(stack: seq<Tree>)
    requires stack != []
    ensures var n := |stack| - 1;
      VisitAll(stack) == [stack[n]] + VisitAll(stack[..n] + stack[n].children)
  {
    var n := |stack| - 1;
    VisitAllAppend(stack[..n], stack[n].children);
  }

  /** Searching a stack `a + b` searches the top part `b` first. */
  lemma {:induction false} VisitAllAppend(a: seq<Tree>, b: seq<Tree>)
    ensures VisitAll(a + b) == VisitAll(b) + VisitAll(a)
    decreases |b|
  {
    if b == [] {
      assert a + b == a;
    } else {
      var n := |b| - 1;
      assert (a + b)[|a + b| - 1] == b[n];
      assert (a + b)[..|a + b| - 1] == a + b[..n];
      VisitAllAppend(a, b[..n]);
    }
  }

  lemma {:induction false} FirstWithIdSkip(a: seq<Tree>, b: seq<Tree>, id: int)
    requires forall n :: n in a ==> n.id != id
    ensures FirstWithId(a + b, id) == FirstWithId(b, id)
    decreases |a|
  {
    if a != [] {
      assert (a + b)[0] == a[0];
      assert (a + b)[1..] == a[1..] + b;
      FirstWithIdSkip(a[1..], b, id);
    } else {
      assert a + b == b;
    }
  }
}
