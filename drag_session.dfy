/**
 * Contained drags with the draggable and its drop list sharing the store. A
 * mouseup reaches the list's element before it reaches the window, so a list
 * under the pointer accepts the drop before its subscription ends and before
 * the draggable stops dragging.
 */
module DragSession {
  import opened Nullable
  import opened Pointer
  import opened DragStore
  import opened DropList
  import opened Draggable

  /** Press, move, release over the enclosing list, settle step, emission timer. */
  method ContainedDrop(drag: DragNDropDirective, list: DropListDirective, down: Pos, rect: Pos, release: Pos)
    requires drag.Valid() && drag.store == list.store && drag.dropList == Some(list.el)
    requires list.scheduled == []
    modifies drag, list, list.store
    ensures drag.Valid() && drag.pipeline == Idle && !drag.isDragging && !drag.showPlaceholder
    ensures list.store.ActiveItem() == None && list.scheduled == [] && !list.listening
    ensures list.dropped == old(list.dropped) + [LibDragDrop(old(drag.Published()), DragItem(old(drag.data), Some(drag.el), Some(list.el), None))]
  {
    drag.MouseDown(down, rect);
    list.OnActiveItemChanged();
    drag.MouseMove(release);
    assert drag.preview == Some(Follow(rect, down, release));
    var accepted := list.OnDropItem();
    assert accepted;
    list.OnWindowMouseUp();
    drag.MouseUp();
    assert drag.showPlaceholder && drag.preview == Some(rect);
    drag.Settle();
    list.FireTimer();
  }

  /**
   * Press inside the list and release outside every list: nothing clears the
   * active item, so the store keeps it, but the window mouseup has ended the
   * list's subscription and a later mouseup on the list is not accepted.
   */
  method ReleaseOutside(drag: DragNDropDirective, list: DropListDirective, down: Pos, rect: Pos, release: Pos)
    returns (accepted: bool)
    requires drag.Valid() && drag.store == list.store && drag.dropList == Some(list.el)
    modifies drag, list, list.store
    ensures !accepted
    ensures drag.Valid() && drag.pipeline == Idle && !drag.showPlaceholder
    ensures list.store.ActiveItem() == Some(old(drag.Published()))
    ensures list.scheduled == old(list.scheduled) && list.dropped == old(list.dropped)
  {
    drag.MouseDown(down, rect);
    list.OnActiveItemChanged();
    drag.MouseMove(release);
    list.OnWindowMouseUp();
    drag.MouseUp();
    drag.Settle();
    accepted := list.OnDropItem();
  }
}
