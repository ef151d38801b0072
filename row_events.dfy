/** The row gestures of the tree view (src/TreeView.tsx, `TreeNodeItem`) and the
    drop-target gate (`useTreeNodeDropTarget`). Each handler is a decision table:
    from the event and the row it lands on to the callbacks it fires, in order. */
module RowEvents {
  import opened Trees
  import opened TreeWalk

  /** A callback fired by a row, with its argument. */
  datatype Intent =
    | ToggleSelectedNode(id: int)
    | AddSelectedNode(id: int)
    | SetSelectedNode(id: int)
    | DoubleClickNode(id: int)
    | ExpandNode(id: int)
    | CollapseNode(id: int)
    | ExpandChildrenOf(id: int)
    | CollapseChildrenOf(id: int)
    | SetFocusedNode(id: int)
    | SetRenamingNode(target: Option<int>)
    | RenameNode(id: int, name: string)

  /** NodeDropPosition. */
  datatype DropPosition = Root | Before | After | On

  /** The row's own identifier is the argument of every intent in `r`. */
  predicate OnlyRow(r: seq<Intent>, id: int)
  {
    forall i :: 0 <= i < |r| ==> !r[i].SetRenamingNode? && r[i].id == id
  }

  /** `onMouseDown`: `detail` is the click count of the event. */
  function OnMouseDown(detail: int, shift: bool, row: Row): (r: seq<Intent>)
    ensures |r| <= 1 && OnlyRow(r, row.id)
    ensures r == [] <==> (detail == 1 && !shift && row.isSelected) || (detail != 1 && detail != 2)
    ensures detail == 1 && shift ==> r == [ToggleSelectedNode(row.id)]
    ensures detail == 1 && !shift && !row.isSelected ==> r == [SetSelectedNode(row.id)]
    ensures detail == 2 ==> r == [DoubleClickNode(row.id)]
  {
    if detail == 1 then
      if shift then [ToggleSelectedNode(row.id)]
      else if !row.isSelected then [SetSelectedNode(row.id)]
      else []
    else if detail == 2 then [DoubleClickNode(row.id)]
    else []
  }

  /** `onClickToggle`: the expander of a row. */
  function OnClickToggle(row: Row): (r: seq<Intent>)
    ensures |r| == 1 && OnlyRow(r, row.id)
    ensures r[0].ExpandNode? <==> !row.isExpanded
    ensures row.isExpanded ==> r == [CollapseNode(row.id)]
    ensures !row.isExpanded ==> r == [ExpandNode(row.id)]
  {
    if row.isExpanded then [CollapseNode(row.id)] else [ExpandNode(row.id)]
  }

  /** `onKeyDown` of the row at `index` of the list `rows`. */
  function OnKeyDown(key: string, shift: bool, rows: seq<Row>, index: nat): (r: seq<Intent>)
    requires index < |rows|
    ensures key == "ArrowDown" && index + 1 == |rows| ==> r == []
    ensures key == "ArrowUp" && index == 0 ==> r == []
    ensures (key == "ArrowLeft" || key == "ArrowRight") && rows[index].isLeaf ==> r == []
    ensures |r| <= 2
    ensures key != "ArrowDown" && key != "ArrowUp" && key != "ArrowLeft" && key != "ArrowRight" && key != "Enter" ==> r == []
  {
    var row := rows[index];
    if key == "ArrowDown" then
      if index + 1 < |rows| then
        (if shift then [AddSelectedNode(row.id)] else []) + [SetFocusedNode(rows[index + 1].id)]
      else []
    else if key == "ArrowUp" then
      if index > 0 then
        (if shift then [AddSelectedNode(rows[index - 1].id)] else []) + [SetFocusedNode(rows[index - 1].id)]
      else []
    else if key == "ArrowLeft" && !row.isLeaf then
      if shift then [CollapseChildrenOf(row.id)] else [CollapseNode(row.id)]
    else if key == "ArrowRight" && !row.isLeaf then
      if shift then [ExpandChildrenOf(row.id)] else [ExpandNode(row.id)]
    else if key == "Enter" then
      if shift then [ToggleSelectedNode(row.id)] else [SetSelectedNode(row.id)]
    else []
  }

  /** `onKeyDownNameInput`: Escape leaves renaming, Enter submits the input's value. */
  function OnKeyDownNameInput(key: string, id: int, value: string): (r: seq<Intent>)
    ensures |r| <= 1
    ensures key != "Escape" && key != "Enter" ==> r == []
    ensures forall i :: 0 <= i < |r| ==> r[i] == SetRenamingNode(None) || r[i] == RenameNode(id, value)
    ensures key == "Escape" ==> r == [SetRenamingNode(None)]
    ensures key == "Enter" ==> r == [RenameNode(id, value)]
  {
    if key == "Escape" then [SetRenamingNode(None)]
    else if key == "Enter" then [RenameNode(id, value)]
    else []
  }

  /** `onSubmitNodeName` (blur of the name input): `currentTarget` may be absent. */
  function OnSubmitNodeName(id: int, currentTarget: Option<string>): (r: seq<Intent>)
    ensures r == [] <==> currentTarget.None?
    ensures forall i :: 0 <= i < |r| ==> r[i] == RenameNode(id, currentTarget.value)
    ensures currentTarget.Some? ==> r == [RenameNode(id, currentTarget.value)]
  {
    match currentTarget
    case None => []
    case Some(value) => [RenameNode(id, value)]
  }

  /** `isRenaming`: this row is the one being renamed. */
  function IsRenaming(renamingNode: Option<int>, id: int): (r: bool)
    ensures r <==> renamingNode.Some? && renamingNode.value == id
  {
    renamingNode == Some(id)
  }

  // ---------------------------------------------------------------------------
  // The drop-target gate

  /** `canDrop` of a drop target: hovered, not `Before` on the root row, and accepted by the host. */
  function GateCanDrop(isOver: bool, isRoot: bool, position: DropPosition, hostCanDrop: bool): (r: bool)
    ensures r ==> isOver && hostCanDrop
    ensures isRoot && position == Before ==> !r
    ensures isOver && !(isRoot && position == Before) ==> r == hostCanDrop
  {
    if !isOver || (isRoot && position == Before) then false else hostCanDrop
  }

  /** `drop` of a drop target: whether it hands the item to the host's `onDrop`. */
  function GateDrops(shallow: bool, didDrop: bool): (r: bool)
    ensures shallow && didDrop ==> !r
    ensures !shallow ==> r
    ensures r <==> !(shallow && didDrop)
  {
    !(shallow && didDrop)
  }

  // ---------------------------------------------------------------------------
  // Facts about the tables

  /** Arrow keys only ever move focus to a neighbouring row, after optionally
      adding a row to the selection: the current row going down, the previous row going up. */
  lemma ArrowKeysFocusNeighbour(shift: bool, rows: seq<Row>, index: nat)
    requires index < |rows|
    ensures index + 1 < |rows| ==>
      OnKeyDown("ArrowDown", shift, rows, index) ==
        (if shift then [AddSelectedNode(rows[index].id)] else []) + [SetFocusedNode(rows[index + 1].id)]
    ensures index > 0 ==>
      OnKeyDown("ArrowUp", shift, rows, index) ==
        (if shift then [AddSelectedNode(rows[index - 1].id)] else []) + [SetFocusedNode(rows[index - 1].id)]
  {
  }

  /** Left and right on an inner row collapse or expand it, its "children" with shift. */
  lemma ArrowKeysExpandCollapse(shift: bool, rows: seq<Row>, index: nat)
    requires index < |rows| && !rows[index].isLeaf
    ensures OnKeyDown("ArrowLeft", shift, rows, index) ==
      [if shift then CollapseChildrenOf(rows[index].id) else CollapseNode(rows[index].id)]
    ensures OnKeyDown("ArrowRight", shift, rows, index) ==
      [if shift then ExpandChildrenOf(rows[index].id) else ExpandNode(rows[index].id)]
  {
  }

  /** Enter selects the focused row, toggling it with shift. */
  lemma EnterSelects(shift: bool, rows: seq<Row>, index: nat)
    requires index < |rows|
    ensures OnKeyDown("Enter", shift, rows, index) ==
      [if shift then ToggleSelectedNode(rows[index].id) else SetSelectedNode(rows[index].id)]
  {
  }

  /** Among rows with distinct identifiers at most one is being renamed. */
  lemma OneRowRenaming(renamingNode: Option<int>, rows: seq<Row>, i: nat, j: nat)
    requires forall a, b :: 0 <= a < b < |rows| ==> rows[a].id != rows[b].id
    requires i < |rows| && j < |rows|
    requires IsRenaming(renamingNode, rows[i].id) && IsRenaming(renamingNode, rows[j].id)
    ensures i == j
  {
  }

  /** Every key that names a row names the focused row or a neighbour of it. */
  lemma KeyDownTouchesNeighbours(key: string, shift: bool, rows: seq<Row>, index: nat)
    requires index < |rows|
    ensures forall i :: 0 <= i < |OnKeyDown(key, shift, rows, index)| ==>
      var it := OnKeyDown(key, shift, rows, index)[i];
      !it.SetRenamingNode? && !it.DoubleClickNode? && !it.RenameNode? &&
      (it.id == rows[index].id ||
       (index + 1 < |rows| && it.id == rows[index + 1].id) ||
       (index > 0 && it.id == rows[index - 1].id))
  {
  }
}
