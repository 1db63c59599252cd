/**
 * The drag-n-drop library's shared store (`DragNDropService`, one instance for
 * the whole application) and the shapes it carries.
 */
module DragStore {
  import opened Nullable

  /** The identity of a DOM element. */
  type Element = nat

  /** The opaque application value bound to a draggable with `libDragData`. */
  type Value = int

  /**
   * `DragItem`: the dragged data, its element and the element of the drop list
   * it came from. `index` is declared by the type, but no directive ever fills
   * it in, so every item built here has `None` there.
   */
  datatype DragItem = DragItem(data: Option<Value>, el: Option<Element>, dropEl: Option<Element>, index: Option<int>)

  /** `LibDragDrop`: the event a drop list emits. */
  datatype LibDragDrop = LibDragDrop(previousContainer: DragItem, container: DragItem)

  /**
   * The three private signals of the store. The read-only views are the
   * functions `ActiveItem`, `HoveredDropList` and `ClonedItem`; each setter
   * overwrites exactly one signal.
   */
  class DragNDropService {
    var activeItem: Option<DragItem>
    var hoveredDropList: Option<Element>
    var clonedItem: Option<Element>

    function ActiveItem(): Option<DragItem> reads this { activeItem }
    function HoveredDropList(): Option<Element> reads this { hoveredDropList }
    function ClonedItem(): Option<Element> reads this { clonedItem }

    constructor ()
      ensures ActiveItem() == None && HoveredDropList() == None && ClonedItem() == None
    {
      activeItem, hoveredDropList, clonedItem := None, None, None;
    }

    method SetActiveItem(item: Option<DragItem>)
      modifies this`activeItem
      ensures ActiveItem() == item
      ensures HoveredDropList() == old(HoveredDropList()) && ClonedItem() == old(ClonedItem())
    {
      activeItem := item;
    }

    method SetHoveredDropList(item: Option<Element>)
      modifies this`hoveredDropList
      ensures HoveredDropList() == item
      ensures ActiveItem() == old(ActiveItem()) && ClonedItem() == old(ClonedItem())
    {
      hoveredDropList := item;
    }

    method SetClonedItem(item: Option<Element>)
      modifies this`clonedItem
      ensures ClonedItem() == item
      ensures ActiveItem() == old(ActiveItem()) && HoveredDropList() == old(HoveredDropList())
    {
      clonedItem := item;
    }
  }
}
