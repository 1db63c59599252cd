/**
 * The drop list directive (`libDropList`). Each new active item in the store
 * starts a subscription to mouseups on the list's element, which the next
 * window mouseup ends. A mouseup on the element while subscribed and while an
 * item is active accepts the drop, clears the active item and, once the 230 ms
 * timer has fired, emits `libDropListDropped`.
 */
module DropList {
  import opened Nullable
  import opened DragStore

  class DropListDirective {
    const store: DragNDropService
    const el: Element
    /** Whether the inner `onDropItem` subscription is alive. */
    var listening: bool
    /** Events whose emission timer is running, oldest first. */
    var scheduled: seq<LibDragDrop>
    /** Events emitted so far on `libDropListDropped`. */
    var dropped: seq<LibDragDrop>

    constructor (store: DragNDropService, el: Element)
      ensures this.store == store && this.el == el
      ensures !listening && scheduled == [] && dropped == []
    {
      this.store, this.el := store, el;
      listening, scheduled, dropped := false, [], [];
    }

    /**
     * `activeItem$` emits the store's current active item. A non-null item
     * restarts the inner subscription through `switchMap`; a null one is
     * filtered out and leaves it as it was.
     */
    method OnActiveItemChanged()
      modifies this`listening
      ensures listening <==> old(listening) || store.ActiveItem().Some?
    {
      if store.ActiveItem().Some? {
        listening := true;
      }
    }

    /** A mouseup reaches the window: `takeUntil` ends the inner subscription. */
    method OnWindowMouseUp()
      modifies this`listening
      ensures !listening
    {
      listening := false;
    }

    /**
     * `onDropItem`: a mouseup on this list's element, which reaches it before it
     * reaches the window. It is accepted exactly when the list is subscribed and
     * an item is active; the active item is then cleared at once, and the event
     * built from it waits for its timer, so nothing is emitted yet.
     */
    method OnDropItem() returns (accepted: bool)
      modifies this`scheduled, store`activeItem
      ensures accepted <==> listening && old(store.ActiveItem()).Some?
      ensures store.ActiveItem() == if accepted then None else old(store.ActiveItem())
      ensures store.HoveredDropList() == old(store.HoveredDropList()) && store.ClonedItem() == old(store.ClonedItem())
      ensures dropped == old(dropped)
      ensures !accepted ==> scheduled == old(scheduled)
      ensures accepted ==>
        var item := old(store.ActiveItem()).value;
        && |scheduled| == |old(scheduled)| + 1
        && scheduled[..|old(scheduled)|] == old(scheduled)
        && scheduled[|old(scheduled)|].previousContainer == item
        && scheduled[|old(scheduled)|].container.data == item.data
        && scheduled[|old(scheduled)|].container.el == item.el
        && scheduled[|old(scheduled)|].container.dropEl == Some(el)
        && scheduled[|old(scheduled)|].container.index == None
    {
      accepted := listening && store.ActiveItem().Some?;
      if accepted {
        var item := store.ActiveItem().value;
        store.SetActiveItem(None);
        var event := LibDragDrop(previousContainer := item,
                                 container := DragItem(item.data, item.el, Some(el), None));
        scheduled := scheduled + [event];
      }
    }

    /** The oldest emission timer fires: its event is emitted; with no timer running nothing happens. */
    method FireTimer()
      modifies this`scheduled, this`dropped
      ensures old(scheduled) == [] ==> scheduled == [] && dropped == old(dropped)
      ensures old(scheduled) != [] ==>
        scheduled == old(scheduled)[1..] && dropped == old(dropped) + [old(scheduled)[0]]
    {
      if scheduled != [] {
        dropped := dropped + [scheduled[0]];
        scheduled := scheduled[1..];
      }
    }
  }

  /**
   * One pointer release over two nested lists sharing a store: the mouseup
   * reaches the inner list first, bubbles to the outer one and finally reaches
   * the window. At most one of the two accepts the drop, and neither stays
   * subscribed.
   */
  method ReleaseOverNestedLists(inner: DropListDirective, outer: DropListDirective)
    returns (innerAccepted: bool, outerAccepted: bool)
    requires inner.store == outer.store && inner != outer
    modifies inner`scheduled, outer`scheduled, inner`listening, outer`listening, inner.store`activeItem
    ensures !(innerAccepted && outerAccepted)
    ensures innerAccepted || outerAccepted <==>
      old(inner.store.ActiveItem()).Some? && (old(inner.listening) || old(outer.listening))
    ensures inner.store.ActiveItem() == if innerAccepted || outerAccepted then None else old(inner.store.ActiveItem())
    ensures !inner.listening && !outer.listening
  {
    innerAccepted := inner.OnDropItem();
    outerAccepted := outer.OnDropItem();
    inner.OnWindowMouseUp();
    outer.OnWindowMouseUp();
  }
}
