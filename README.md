# Tree view and scene drag-and-drop, modelled in Dafny

This project models the core of a virtualised tree widget for a 3D editor's
scene graph. The widget is `src/TreeView.tsx`; the host that wires it to a
three.js scene is `example/App.tsx`.

- **Tree.** One datatype, `Trees.Tree = Node(id, name, children)`, stands for
  both the widget's `TreeNode` and the host's `Object3D` scene. An absent
  `children` array behaves like an empty one everywhere in the core, so the
  model does not distinguish the two. Unique identifiers are a predicate,
  `Trees.UniqueIds`.
- **Stack walks** (`treeWalker`, `findNode`, `getChildren`) are methods with
  the source's `while` loops over an explicit stack. Each is proved equal to a
  recursive specification function:
  - `Visible`: the rows, in pre-order, below expanded nodes.
  - `Visit`: the order in which a stack search meets nodes.

  Lemmas then state what those functions mean in terms of paths and
  identifiers.
- **Pure logic** is written as functions on values: the expansion-list
  updaters, the row gesture handlers (each returns the callbacks it fires, as
  a list of `Intent`s), the drop-target gate, the selection reducers, `canDrop`,
  `canDrag`, `getDragItem` and `onRenameNode`.
- **`reparentObjects`** is a method with the source's removal loop, proved equal
  to a closed-form function, `Reparent`. The function returns an `Outcome`:
  either the new scene, or the scene as it stood when the call threw.
- **`onDrop`** is a method that follows the source's branches. It is proved
  equal to `DropOutcome`, and lemmas say what a drop that the host's `canDrop`
  accepts does to the scene.

Modules: `Lists` (filter, dedup, distinctness), `Trees`, `TreeWalk` and
`WalkFacts` (the three walks), `Expansion`, `RowEvents`, `App` (host
predicates and reducers), `Reparenting`, `MoveFrame` (what a move leaves in
place) and `Dropping`.

Where the code does less than its names or its callers suggest, the model
follows the code:

- `getChildren`, and through it `expandChildren` and `collapseChildren`, does
  not reach the descendants of the node that the names promise: it returns
  every other node of the tree.
- `onDrop` with `After` does not always complete.
- Committing a rename is not checked against the node being renamed: the name
  input's handlers rename whatever row they belong to.

The first two are recorded under "## Findings".

## Model

| member | source | states |
|---|---|---|
| TreeWalk.TreeWalker | src/TreeView.tsx:498-536 | the rows are exactly the `Visible` entries, in order, each row built from its node (`isLeaf` iff no children, `isSelected`/`isActive`/`isFocused` by membership or equality); the first row is the root at depth 0, expanded whatever `expanded` holds |
| TreeWalk.PushChildren | src/TreeView.tsx:523-531 | pushing the children last to first makes them pop in their original order: what the stack still emits is the children's shown rows followed by what it emitted before |
| WalkFacts.ShownIsVisible | src/TreeView.tsx:507-533 | every node whose proper ancestors are all expanded gets a row, at depth equal to its path length |
| WalkFacts.VisibleIsShown | src/TreeView.tsx:507-533 | conversely, every row is a node whose proper ancestors are all expanded, at depth equal to its path length |
| WalkFacts.VisibleChild | src/TreeView.tsx:523-531 | a row other than a node's own comes from one of its children, and only when the node is expanded |
| WalkFacts.AllExpandedListsPreorder | src/TreeView.tsx:498-536 | with every node expanded the rows list every identifier of the tree in depth-first pre-order, children in order |
| TreeWalk.FindNode | src/TreeView.tsx:538-555 | the stack search returns the first node with the identifier in the order `Visit` meets nodes (root, then the last child's subtree first) |
| WalkFacts.FindNodeCorrect | src/TreeView.tsx:538-555 | `findNode` finds nothing iff the identifier is absent from the tree; otherwise it returns the node at some path, carrying that identifier |
| WalkFacts.VisitIds | src/TreeView.tsx:542-552 | the identifiers the stack search meets are those of the tree, each as often as in the tree |
| WalkFacts.VisitUniqueNode | src/TreeView.tsx:545-547 | with unique identifiers only one visited node carries a given identifier |
| TreeWalk.GetChildren | src/TreeView.tsx:557-581 | `getChildren` as written: `[]` when `findNode` fails, else the identifiers met by a second stack walk from the root, skipping the found node |
| TreeWalk.Walk | src/TreeView.tsx:565-578 | the second walk yields the identifiers of the nodes the stack search from its start meets, in that order, except the skipped node |
| WalkFacts.GetChildrenContents | src/TreeView.tsx:557-581 | with unique identifiers: `[]` when the identifier is absent, else every identifier of the whole tree except the node's own, each once |
| WalkFacts.WalkExceptContents | src/TreeView.tsx:565-578 | a walk over a tree with unique identifiers skipping one visited node collects every other identifier, once |
| WalkFacts.GetChildrenLeavesSubtree | src/TreeView.tsx:557-581 | on root 1 with children A(2, holding 3) and C(4), `getChildren(root, 2)` gives `[1, 4, 3]` while the descendants of 2 are `[3]` |
| TreeWalk.GetDescendants | src/TreeView.tsx:557-581 | the corrected walk, started at the found node: returns `DescendantIds` |
| WalkFacts.DescendantsContents | src/TreeView.tsx:557-581 | the corrected walk yields exactly the identifiers strictly below the node found, each once, and `[]` for an absent identifier |
| Expansion.Expand | src/TreeView.tsx:623-628 | the new list holds the old identifiers and the expanded one, and keeps the old list as a prefix |
| Expansion.ExpandIdempotent | src/TreeView.tsx:623-628 | expanding twice is expanding once |
| Expansion.ExpandKeepsDistinct | src/TreeView.tsx:623-628 | expanding never introduces a duplicate |
| Expansion.Collapse | src/TreeView.tsx:630-635 | the new list is the old one without the identifier, the others kept in their order (a subsequence) |
| Expansion.CollapseCounts | src/TreeView.tsx:630-635 | collapsing removes every occurrence of the identifier and keeps every other identifier as often as before |
| Expansion.CollapseUndoesExpand | src/TreeView.tsx:623-635 | collapsing a freshly expanded identifier restores the old list |
| Expansion.ExpandChildren | src/TreeView.tsx:637-645 | the new list is duplicate-free and holds exactly the old identifiers and those `getChildren` returns |
| Expansion.ExpandChildrenKeepsOld | src/TreeView.tsx:637-645 | on a duplicate-free list the old identifiers stay in front, in their order |
| Expansion.ExpandChildrenReach | src/TreeView.tsx:637-645 | as written, expanding "children" of a node expands every other node of the tree (nothing when the node is absent) |
| Expansion.CollapseChildren | src/TreeView.tsx:647-655 | the new list is the old one without the `getChildren` identifiers, the rest in order |
| Expansion.CollapseChildrenReach | src/TreeView.tsx:647-655 | as written, collapsing "children" of a node collapses every other node of the tree and leaves the list alone for an absent node |
| Expansion.ExpandDescendants | src/TreeView.tsx:637-645 | corrected updater: duplicate-free, holding exactly the old identifiers and the node's descendants |
| Expansion.ExpandDescendantsReach | src/TreeView.tsx:637-645 | corrected, expanding adds exactly the identifiers below the node, nothing for an absent node |
| Expansion.CollapseDescendants | src/TreeView.tsx:647-655 | corrected updater: the old list without the node's descendants, in order |
| Expansion.CollapseDescendantsReach | src/TreeView.tsx:647-655 | corrected, collapsing removes exactly the identifiers below the node, and the node itself stays expanded |
| Expansion.ExpandAll | src/TreeView.tsx:657-662 | the new list holds exactly the identifiers of the non-leaf rows, no longer than the rows |
| Expansion.ExpandAllOnScreen | src/TreeView.tsx:657-662 | expand-all lists exactly the nodes with children that currently have a row, so nodes inside collapsed subtrees are not reached |
| Expansion.CollapseAllShowsTopLevel | src/TreeView.tsx:664-669 | with nothing expanded the rows are the root followed by its children at depth 1 |
| RowEvents.OnMouseDown | src/TreeView.tsx:217-230 | one click with shift toggles the row; one click without shift selects an unselected row and does nothing on a selected one; two clicks fire the double-click; other counts nothing |
| RowEvents.OnClickToggle | src/TreeView.tsx:232-243 | exactly one intent: collapse this row when it is expanded, expand it otherwise |
| RowEvents.OnKeyDown | src/TreeView.tsx:245-307 | ArrowDown on the last row and ArrowUp on the first emit nothing; ArrowLeft/ArrowRight emit nothing on a leaf; keys other than the four arrows and Enter emit nothing; at most two intents |
| RowEvents.ArrowKeysFocusNeighbour | src/TreeView.tsx:249-272 | down: add this row with shift, then focus the next; up: add the previous row with shift, then focus it |
| RowEvents.ArrowKeysExpandCollapse | src/TreeView.tsx:273-284 | on an inner row left collapses it (its "children" with shift) and right expands it (its "children" with shift) |
| RowEvents.EnterSelects | src/TreeView.tsx:285-291 | Enter selects the row, toggles it with shift |
| RowEvents.KeyDownTouchesNeighbours | src/TreeView.tsx:245-307 | every intent a key fires names the row itself or one of its neighbours |
| RowEvents.OnKeyDownNameInput | src/TreeView.tsx:312-321 | Escape leaves renaming, Enter renames this row to the input's value, other keys do nothing |
| RowEvents.OnSubmitNodeName | src/TreeView.tsx:330-337 | blur renames this row to the current target's value when there is one, and fires nothing otherwise |
| RowEvents.OneRowRenaming | src/TreeView.tsx:309 | among rows with distinct identifiers at most one is renaming |
| RowEvents.GateCanDrop | src/TreeView.tsx:104-113 | accepts only when hovered and the host accepts; `Before` on the root row is always refused; otherwise the host decides |
| RowEvents.GateDrops | src/TreeView.tsx:95-103 | `onDrop` is called iff it is not the case that the target is shallow and an inner target already dropped |
| App.SelectionRoots | example/App.tsx:27-44 | every root is selected |
| App.RootsArePaths | example/App.tsx:27-44 | every selection root is a selected node with no selected proper ancestor |
| App.PathsAreRoots | example/App.tsx:27-44 | every selected node with no selected proper ancestor is a selection root |
| App.SelectionRootsInOrder | example/App.tsx:27-44 | the roots come in pre-order: their identifiers are a subsequence of the scene's |
| App.CanDrop | example/App.tsx:129-154 | refuses an item without `nodeIds`, and `Before`/`After` on the scene; with no target it accepts any item with `nodeIds` |
| App.CanDropIffOutsideSelection | example/App.tsx:129-154 | for a target node at path `p`: accepted iff it is not the scene with `Before`/`After` and no node on the path from the scene to it (itself included) is selected |
| App.RootHoldsIffSelectedPrefix | example/App.tsx:143-149 | some selection root holds the node at `p` iff some prefix of `p` leads to a selected node |
| App.DraggedItemsExcludeScene | example/App.tsx:156-168 | an item whose drag `canDrag` allows never carries the scene |
| App.ToggleSelected | example/App.tsx:170-186 | toggling an unselected node appends it and makes it `active`; toggling a selected one removes every occurrence and keeps the others, in order, with `active` the last remaining node or none when the selection is empty |
| App.AddSelected | example/App.tsx:188-198 | adding keeps the old selection as a prefix, adds the node, and makes it `active` |
| App.SetSelected | example/App.tsx:200-206 | the selection becomes just the node, which becomes `active` |
| App.ToggleKeepsSelectionOk | example/App.tsx:170-186 | toggling keeps the selection duplicate-free with `active` selected iff the selection is not empty |
| App.AddKeepsSelectionOk | example/App.tsx:188-198 | adding keeps that invariant |
| App.SetKeepsSelectionOk | example/App.tsx:200-206 | setting keeps that invariant |
| App.ToggleTwice | example/App.tsx:170-186 | toggling an unselected node twice restores the selection, order included |
| App.Rename | example/App.tsx:212-222 | renaming keeps every identifier; an absent identifier leaves the scene unchanged; otherwise the node found by `getObjectById` has the new name and its old children |
| App.RenameElsewhere | example/App.tsx:212-222 | every node with another identifier keeps its name, at every path |
| Reparenting.Detach | example/App.tsx:76-78 | removing nodes from their parents keeps the node itself, and every identifier left below it was there before and is not removed |
| Reparenting.DetachAllKeepsOrder | example/App.tsx:76-78 | the children that stay are the old children less the removed ones, in their order |
| Reparenting.DetachSplit | example/App.tsx:76-78 | every identifier of the scene either stays in it or goes with a removed subtree |
| Reparenting.KeptChildren | example/App.tsx:76-88 | with unique identifiers, the new parent's children after the removals are its old children less the removed ones, in order |
| Reparenting.Splice | example/App.tsx:81-91 | the splice fails iff a `before` is given that no child carries; otherwise the list grows by the moved objects |
| Reparenting.Removed | example/App.tsx:59-79 | the removal loop completes iff the scene (which has no parent) is not among the objects |
| Reparenting.RemoveObjects | example/App.tsx:59-79 | the removal loop as written computes `Removed` |
| Reparenting.DetachMore | example/App.tsx:59-79 | one more pass of the loop removes one more object |
| Reparenting.ReparentObjects | example/App.tsx:50-97 | `reparentObjects` as written computes `Reparent`: the removals, then the splice or the push |
| Reparenting.ReparentBlock | example/App.tsx:81-94 | on success the objects form one block among the parent's children, in their given order, right before `before` or at the end, the kept children in their order around it |
| Reparenting.ReparentSplices | example/App.tsx:81-91 | when the splice succeeds the call completes with the spliced list as the parent's children |
| Reparenting.ReparentThrows | example/App.tsx:81-86 | the call throws iff `before` is given and no child of the parent carries it once the objects are out |
| Reparenting.ReparentBeforeMoved | example/App.tsx:81-86 | when `before` is one of the objects the call throws, leaving the scene with the objects removed |
| Reparenting.ReparentKeepsEveryNode | example/App.tsx:50-97 | moving selection roots (the scene not selected) that completes keeps every identifier of the scene exactly once |
| MoveFrame.SetChildrenFindOutside | example/App.tsx:81-91 | replacing the parent's children leaves every node outside the parent's old and new children where it was, with only that replacement made inside it |
| MoveFrame.StayingNode | example/App.tsx:59-91 | a node that stays, other than the new parent, keeps its name and its children's identifiers through the splice |
| MoveFrame.MovedNode | example/App.tsx:50-97 | a moved node is found after the move exactly as it was before, subtree included |
| MoveFrame.ReparentFrame | example/App.tsx:50-97 | a completed move of the selection roots keeps every node's name, and every node other than the new parent keeps its children, less the roots, in order |
| Reparenting.RootsSplit | example/App.tsx:27-44 | the scene splits into what stays and the roots' subtrees; the roots carry their whole subtrees |
| Reparenting.DetachUnique | example/App.tsx:76-78 | removal keeps identifiers unique |
| Dropping.ParentOf | example/App.tsx:246-252 | `node.parent` is found iff the identifier is a child of some node, and then the parent's children carry it |
| Dropping.ParentFound | example/App.tsx:246-252 | with unique identifiers the parent is the node at some path, and `getObjectById` on its identifier finds it |
| Dropping.NoParentIsScene | example/App.tsx:246-252 | with unique identifiers only the scene lacks a parent |
| Dropping.DropPlan | example/App.tsx:224-254 | `Root` moves to the scene's end; no target, 0 or an unknown target does nothing; `On` appends to the target; `Before`/`After` go to the target's parent, `Before` in front of the target, `After` in front of the sibling that follows the target or at the end when there is none; a parentless target with `Before`/`After` fails |
| Dropping.Carry | example/App.tsx:228-254 | doing nothing keeps the scene; a missing parent throws before any change |
| Dropping.DropOutcome | example/App.tsx:224-259 | an item without `nodeIds` throws in `getSelectionRoots` with the scene untouched; no target or an unknown one leaves the scene as it was |
| Dropping.OnDrop | example/App.tsx:224-259 | `onDrop` as written computes `DropOutcome` |
| Dropping.GateKeepsDestination | example/App.tsx:129-154 | whatever the host's `canDrop` accepts sends the roots to a node that is still in the scene once they leave |
| Dropping.GatedDropCompletes | example/App.tsx:224-259 | an accepted drop of a selection without the scene completes for every position but `After`, and a completed drop keeps every identifier exactly once |
| Dropping.GatedDropFrame | example/App.tsx:224-259 | a completed accepted drop keeps every node's name; every node but the receiving one keeps its children, less the roots, in order; a drop that moves nothing leaves the scene as it was |
| Dropping.GatedDropAppends | example/App.tsx:228-244 | an accepted drop at `Root` or `On` a node appends the roots, in order, to that node's kept children |
| Dropping.GatedDropBefore | example/App.tsx:245-246 | an accepted drop before a node puts the roots, in order, right in front of it among its parent's kept children |
| Dropping.TargetKept | example/App.tsx:245-252 | for an accepted target, the parent stays in the scene, the target is not moved, and the parent's kept children are its old ones less the roots |
| Dropping.AfterNextMovedThrows | example/App.tsx:247-253 | as written, an accepted drop after a node whose next sibling is dragged throws, with the roots removed from the scene and lost |
| Dropping.AfterMovesBefore | example/App.tsx:247-253 | as written, an accepted `After` drop reparents the roots under the target's parent, in front of the sibling that followed the target before anything moved, or at the end when the target was last |
| Dropping.AfterAsWrittenAgrees | example/App.tsx:247-253 | when the sibling after the target is not dragged, or there is none, the code as written and the corrected drop give the same outcome |
| Dropping.AfterDropLosesNode | example/App.tsx:247-253 | scene 1 with children A(2) and B(3), B selected: dropping after A is accepted and throws, leaving the scene with A only |
| Dropping.NextKept | example/App.tsx:248-252 | the sibling after a position that is not dragged, none iff every later sibling is dragged |
| Dropping.KeptAround | example/App.tsx:248-252 | once the dragged siblings are filtered out, what follows the target is what followed it, filtered |
| Dropping.DropPlanFixed | example/App.tsx:224-254 | the corrected plan differs from the original only for `After`, with the same destination |
| Dropping.DropOutcomeFixed | example/App.tsx:224-259 | the corrected drop agrees with the original for every position but `After` |
| Dropping.FixedDropAfter | example/App.tsx:247-253 | corrected, an accepted drop after a node always completes, putting the roots, in order, right behind the target among its parent's kept children |
| Dropping.AfterDropFixedExample | example/App.tsx:247-253 | corrected, dropping B after A in the example completes and leaves the scene as it was |

## Left out

- World-transform preservation in `reparentObjects` (`updateMatrixWorld`, the `Matrix4` inversion and `applyMatrix4`): floating-point work inside three.js. It does not change the child lists.
- `console.log`, `dispatchEvent`, `stopPropagation` and `preventDefault` in the row handlers, the DOM focus effect, refs, `forwardRef`, memoisation, `setState` plumbing and rendering (`FixedSizeList`, `AutoSizer`, `getNodeKey`, the row markup, `scrollTo50`): I/O and UI only.
- React state is passed as values. Each updater and reducer is a function from the old state to the new one.
- The react-dnd monitors (`isOver`, `didDrop`) are boolean inputs of the gate.
- `object.parent` and object identity are not modelled: the model is a value tree, and nodes are matched by identifier. `indexOf(before)` is `IndexOfId`, and `node.parent` is `ParentOf`, the first node in pre-order with such a child. With unique identifiers, `Dropping.ParentFound` shows this is the one parent. The second walk of `getChildren` skips the found node by identity (`node !== parent`); `TreeWalk.Walk` skips a node equal to it as a value, which differs only when the tree holds two equal copies of that subtree, which unique identifiers rule out.
- Assigning `object.parent = parent` is not modelled separately. The moved objects are children of the destination in the new tree, which is what that assignment maintains.
- Dropping.DropOutcome: requires that the destination survives the removals (`DestinationKept`). A drop onto a node inside a dragged subtree would detach the destination together with its ancestors. Dropping.GateKeepsDestination shows that `canDrop` never lets such a drop through.
- Dropping.DropPlan: `!target` is modelled as "no target or target 0". three.js identifiers are integers, so an object with identifier 0 counts as no target, as in the source.
- `getSelectionRoots` on an item without `nodeIds` throws in the source (`includes` of `undefined`); DropOutcome models this as a throw with the scene unchanged.
- `getObjectById` on a root is `FindById`. A root "holds" the target when the search in its subtree succeeds.
- The nodes of the tree view's `tree` and of the scene are assumed to be finite trees, not graphs with shared or cyclic children.

## Findings

| source | as written | input that shows it | evidently intended | confidence | as-written member | corrected member |
|---|---|---|---|---|---|---|
| src/TreeView.tsx:557-581 | `getChildren` starts its second walk at `root`, so it returns every identifier of the whole tree except the node's own; the expand/collapse "children" updaters then act on the whole tree | root 1 with children A(2, holding 3) and C(4): `getChildren(root, 2)` is `[1, 4, 3]` | the identifiers strictly below the node found: `[3]` | not executed | WalkFacts.GetChildrenLeavesSubtree | WalkFacts.DescendantsContents |
| example/App.tsx:247-253 | `After` names the sibling that follows the target before the roots leave; when that sibling is dragged, `indexOf` finds nothing after the removal and `reparentObjects` throws with the roots already detached | scene 1 with children A(2) and B(3), B selected, drop `After` A: `canDrop` accepts, the call throws, and B is gone from the scene | the roots go right behind the target, in front of the next sibling that is not dragged, or at the end (here the scene stays `[A, B]`) | not executed | Dropping.AfterDropLosesNode | Dropping.FixedDropAfter |
