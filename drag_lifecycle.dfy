/** The drag lifecycle the tree component wires into the drag primitive:
    which element may start a drag (`elementToData`), what starting and
    ending a drag do to the component's drag state, which element a drop
    target stands for, and the hold-to-expand callback. */
module DragLifecycle {

  import opened Wrappers
  import opened Tree
  import opened ExpandState
  import opened DropResolver

  /** Where the dragged item goes among the new parent's children. */
  datatype Position = At(index: nat) | End

  /** The placement the horizontal-shift resolver computes; an input here. */
  datatype ShiftedDropTarget = ShiftedDropTarget(item: Item, position: Position)

  /** The event passed to `onDragEnd`: move `itemId` under `targetItemId`. */
  datatype DragEndEvent = DragEndEvent(itemId: string, targetItemId: string, position: Position)

  /** A drag may start on the item with id `id`: it is not the root, the
      tree holds it, and it may leave its parent. */
  ghost predicate MayStartDrag(root: Item, id: string, canLeaveParent: Item -> bool) {
    && id != root.id
    && id in IdSet(root)
    && canLeaveParent(FindItemById(root, id).value)
  }

  /** `elementToData` of the drag handlers. `dragItemId` is the
      `data-drag-item-id` of the closest element that has one, or `None`
      when there is no such element or it carries no id. */
  function DragElementToData(root: Item, dragItemId: Option<string>, canLeaveParent: Item -> bool)
    : (r: Option<Item>)
    ensures r.Some? <==> dragItemId.Some? && MayStartDrag(root, dragItemId.value, canLeaveParent)
    ensures r.Some? ==> r == FindItemById(root, dragItemId.value) && r.value.id != root.id
  {
    if dragItemId.None? || dragItemId.value == root.id then None
    else
      match FindItemById(root, dragItemId.value)
      case None => None
      case Some(instance) => if canLeaveParent(instance) then Some(instance) else None
  }

  /** `elementToData` of the drop handlers: the item named by the element's
      `data-drop-target-id`. A missing or empty id is falsy and names
      nothing. */
  function DropElementToData(root: Item, dropTargetId: Option<string>): (r: Option<Item>)
    ensures r.Some? <==> dropTargetId.Some? && dropTargetId.value != "" && dropTargetId.value in IdSet(root)
    ensures r.Some? ==> r.value.id == dropTargetId.value
  {
    if dropTargetId.None? || dropTargetId.value == "" then None
    else FindItemById(root, dropTargetId.value)
  }

  /** The call `onEnd` makes to `onDragEnd`, as a sequence of at most one
      event: there is one exactly when the drag was not cancelled and both
      a shifted drop target and a dragged item are present. */
  function DragEndCalls(isCanceled: bool, shifted: Option<ShiftedDropTarget>, dragItem: Option<Item>)
    : (r: seq<DragEndEvent>)
    ensures |r| <= 1
    ensures |r| == 1 <==> !isCanceled && shifted.Some? && dragItem.Some?
    ensures |r| == 1 ==> r[0].itemId == dragItem.value.id &&
                         r[0].targetItemId == shifted.value.item.id &&
                         r[0].position == shifted.value.position
  {
    if shifted.Some? && dragItem.Some? && !isCanceled then
      [DragEndEvent(dragItem.value.id, shifted.value.item.id, shifted.value.position)]
    else []
  }

  /** The drag-scoped state of one mounted tree. A drag is in progress
      (Dragging) exactly when `dragItem` is present; otherwise Idle. The two
      logs record the calls made to the host's `onSelect` and `onDragEnd`;
      `hasOnSelect` says whether the optional `onSelect` prop was given. */
  class DragSession {
    const hasOnSelect: bool
    var dragItem: Option<Item>
    var dropTarget: Option<DropTarget>
    var horizontalShift: int
    var autoScrollEnabled: bool
    var selections: seq<string>
    var dragEnds: seq<DragEndEvent>

    constructor (hasOnSelect: bool)
      ensures this.hasOnSelect == hasOnSelect
      ensures !Dragging() && dropTarget.None? && horizontalShift == 0
      ensures !autoScrollEnabled && selections == [] && dragEnds == []
    {
      this.hasOnSelect := hasOnSelect;
      dragItem, dropTarget, horizontalShift := None, None, 0;
      autoScrollEnabled := false;
      selections, dragEnds := [], [];
    }

    predicate Dragging()
      reads this
    {
      dragItem.Some?
    }

    /** `onStart`: selects the item (when the host gave `onSelect`),
        records it as dragged and turns auto-scroll on. */
    method OnStart(data: Item)
      modifies this
      ensures selections == old(selections) + (if hasOnSelect then [data.id] else [])
      ensures Dragging() && dragItem == Some(data) && autoScrollEnabled
      ensures dropTarget == old(dropTarget) && horizontalShift == old(horizontalShift)
      ensures dragEnds == old(dragEnds)
    {
      if hasOnSelect {
        selections := selections + [data.id];
      }
      dragItem := Some(data);
      autoScrollEnabled := true;
    }

    /** A pointer drag beginning on an element: the primitive asks
        `elementToData` and calls `onStart` only with the item it gives. */
    method StartDrag(root: Item, dragItemId: Option<string>, canLeaveParent: Item -> bool)
      returns (started: bool)
      modifies this
      ensures started <==> dragItemId.Some? && MayStartDrag(root, dragItemId.value, canLeaveParent)
      ensures started ==> Dragging() && dragItem == FindItemById(root, dragItemId.value) &&
                          dragItem.value.id != root.id
      ensures started ==> selections == old(selections) + (if hasOnSelect then [dragItemId.value] else []) &&
                          autoScrollEnabled
      ensures !started ==> dragItem == old(dragItem) && selections == old(selections) &&
                           autoScrollEnabled == old(autoScrollEnabled)
      ensures dropTarget == old(dropTarget) && horizontalShift == old(horizontalShift)
      ensures dragEnds == old(dragEnds)
    {
      var data := DragElementToData(root, dragItemId, canLeaveParent);
      started := data.Some?;
      if started {
        OnStart(data.value);
      }
    }

    /** `onDropTargetChange`: the primitive reports a new provisional target. */
    method OnDropTargetChange(target: Option<DropTarget>)
      modifies this
      ensures dropTarget == target
      ensures dragItem == old(dragItem) && horizontalShift == old(horizontalShift)
      ensures autoScrollEnabled == old(autoScrollEnabled)
      ensures selections == old(selections) && dragEnds == old(dragEnds)
    {
      dropTarget := target;
    }

    /** `onShiftChange`: the pointer moved sideways by `shifts` indents. */
    method OnShiftChange(shifts: int)
      modifies this
      ensures horizontalShift == shifts
      ensures dragItem == old(dragItem) && dropTarget == old(dropTarget)
      ensures autoScrollEnabled == old(autoScrollEnabled)
      ensures selections == old(selections) && dragEnds == old(dragEnds)
    {
      horizontalShift := shifts;
    }

    /** `onEnd`: emits `onDragEnd` for a drag that was not cancelled and has
        a shifted drop target, then clears every piece of drag state,
        cancelled or not. */
    method OnEnd(isCanceled: bool, shiftedDropTarget: Option<ShiftedDropTarget>)
      modifies this
      ensures dragEnds == old(dragEnds) + DragEndCalls(isCanceled, shiftedDropTarget, old(dragItem))
      ensures !Dragging() && dropTarget.None? && horizontalShift == 0 && !autoScrollEnabled
      ensures selections == old(selections)
    {
      dragEnds := dragEnds + DragEndCalls(isCanceled, shiftedDropTarget, dragItem);
      autoScrollEnabled := false;
      horizontalShift := 0;
      dragItem := None;
      dropTarget := None;
    }
  }

  /** One gesture, start to end, followed by a second end call: the host
      sees at most one `onDragEnd`, and none when the drag was cancelled or
      never started. */
  method GestureCommitsAtMostOnce(hasOnSelect: bool, root: Item, dragItemId: Option<string>,
                                  canLeaveParent: Item -> bool,
                                  isCanceled: bool, shifted: Option<ShiftedDropTarget>)
    returns (events: seq<DragEndEvent>)
    ensures |events| <= 1
    ensures |events| == 1 <==>
              !isCanceled && shifted.Some? && dragItemId.Some? && MayStartDrag(root, dragItemId.value, canLeaveParent)
    ensures |events| == 1 ==> events[0].itemId == dragItemId.value
  {
    var session := new DragSession(hasOnSelect);
    var started := session.StartDrag(root, dragItemId, canLeaveParent);
    session.OnEnd(isCanceled, shifted);
    session.OnEnd(isCanceled, shifted);
    events := session.dragEnds;
  }

  /** The condition `onHold` tests before expanding the hovered item:
      `children.length > 0 || getIsExpanded(item) === false`. */
  predicate HoldShouldExpand(record: Record, rootId: string, item: Item) {
    |GetItemChildren(item)| > 0 || !IsExpanded(record, rootId, item)
  }

  /** As written, the condition holds for every item except a root
      without children: items that already report expanded and leaves get
      their entry set to `true` too. */
  lemma HoldExpandsAllButChildlessRoot(record: Record, rootId: string, item: Item)
    ensures HoldShouldExpand(record, rootId, item) <==> !(item.id == rootId && item.children == [])
  {
  }

  /** `onHold`: the pointer rested on `target` past the hold threshold. */
  method OnHold(store: ExpandStore, root: TreeRoot, target: DropTarget)
    modifies store
    ensures HoldShouldExpand(old(store.record), root.item.id, target.data) ==>
              store.record == old(store.record)[target.data.id := true] && store.writes == old(store.writes) + 1
    ensures !HoldShouldExpand(old(store.record), root.item.id, target.data) ==>
              store.record == old(store.record) && store.writes == old(store.writes)
    ensures IsExpanded(store.record, root.item.id, target.data) <==>
              (target.data.id == root.item.id || |target.data.children| > 0)
    ensures store.prevSelectedItemId == old(store.prevSelectedItemId) && store.prevRoot == old(store.prevRoot)
  {
    if HoldShouldExpand(store.record, root.item.id, target.data) {
      store.SetIsExpanded(target.data, true);
    }
  }
}
