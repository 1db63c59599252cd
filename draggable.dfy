/**
 * The draggable directive (`libDragNDrop`). A mousedown always starts a drag.
 * Without an enclosing drop list the element itself follows the pointer (free
 * drag). Inside a drop list, the directive publishes itself as the store's
 * active item and a floating preview follows the pointer instead (contained
 * drag). After the mouseup the preview glides back to the origin and a settle
 * step, the 210 ms delay, removes it.
 */
module Draggable {
  import opened Nullable
  import opened Pointer
  import opened DragStore

  /** The `switchMap` pipeline the last mousedown started. */
  datatype Pipeline =
    | Idle
      /** Following the pointer with the element's own translation, which was `start` at the press. */
    | FreeDrag(down: Pos, start: Pos)
      /** Following the pointer with the preview, which started on the element's rect at `origin`. */
    | ContainedDrag(down: Pos, origin: Pos, settling: bool)

  class DragNDropDirective {
    const store: DragNDropService
    const el: Element
    /** The element of the enclosing drop list, if the directive sits in one. */
    const dropList: Option<Element>
    /** The `libDragData` input, read again at every mousedown. */
    var data: Option<Value>
    /** Only drives the `lib-drag-disabled` class; no handler reads it. */
    var disabled: bool
    var isDragging: bool
    var showPlaceholder: bool
    /** The element's own translation, the one a free drag changes. */
    var translate: Pos
    /** Where the floating preview is drawn, while there is one. */
    var preview: Option<Pos>
    var pipeline: Pipeline

    ghost predicate Valid()
      reads this`pipeline, this`isDragging, this`showPlaceholder, this`preview
    {
      match pipeline
      case Idle => !isDragging && !showPlaceholder && preview.None?
      case FreeDrag(_, _) => dropList.None? && isDragging && !showPlaceholder && preview.None?
      case ContainedDrag(_, origin, settling) =>
        && dropList.Some? && showPlaceholder && preview.Some?
        && isDragging == !settling
        && (settling ==> preview == Some(origin))
    }

    constructor (store: DragNDropService, el: Element, dropList: Option<Element>, data: Option<Value>, disabled: bool, translate: Pos)
      ensures Valid()
      ensures this.store == store && this.el == el && this.dropList == dropList
      ensures this.data == data && this.disabled == disabled && this.translate == translate
      ensures pipeline == Idle && !isDragging && !showPlaceholder
    {
      this.store, this.el, this.dropList, this.data, this.disabled := store, el, dropList, data, disabled;
      this.translate := translate;
      isDragging, showPlaceholder, preview, pipeline := false, false, None, Idle;
    }

    /**
     * The item a contained drag publishes, built from the inputs as they are
     * when it is read: this directive's data and element, and its drop list's
     * element.
     */
    function Published(): DragItem
      reads this
    {
      DragItem(data, Some(el), dropList, None)
    }

    /** New values of the `libDragData` and `libDragDisabled` inputs; nothing else changes. */
    method SetInputs(data: Option<Value>, disabled: bool)
      modifies this`data, this`disabled
      ensures this.data == data && this.disabled == disabled
    {
      this.data, this.disabled := data, disabled;
    }

    /**
     * A mousedown at `pointer`, with the element's bounding rect at `rect`. No
     * button or `disabled` check guards it; the previous pipeline, if any, is
     * dropped.
     */
    method MouseDown(pointer: Pos, rect: Pos)
      requires Valid()
      modifies this`isDragging, this`showPlaceholder, this`preview, this`pipeline, store`activeItem
      ensures Valid()
      ensures isDragging
      ensures dropList.None? ==>
        && pipeline == FreeDrag(pointer, translate)
        && store.ActiveItem() == old(store.ActiveItem())
      ensures dropList.Some? ==>
        && pipeline == ContainedDrag(pointer, rect, false)
        && store.ActiveItem() == Some(Published())
        && showPlaceholder && preview == Some(rect)
      ensures store.HoveredDropList() == old(store.HoveredDropList()) && store.ClonedItem() == old(store.ClonedItem())
    {
      isDragging := true;
      if dropList.None? {
        pipeline := FreeDrag(pointer, translate);
      } else {
        store.SetActiveItem(Some(Published()));
        showPlaceholder := true;
        preview := Some(rect);
        pipeline := ContainedDrag(pointer, rect, false);
      }
    }

    /**
     * A window mousemove. A free drag moves the element, a contained drag moves
     * the preview while `isDragging` holds, and either keeps the offset from the
     * pointer that it had at the press.
     */
    method MouseMove(pointer: Pos)
      requires Valid()
      modifies this`translate, this`preview
      ensures Valid()
      ensures match pipeline
        case FreeDrag(down, start) =>
          translate == Follow(start, down, pointer) && preview == old(preview)
        case ContainedDrag(down, origin, _) =>
          && translate == old(translate)
          && preview == if isDragging then Some(Follow(origin, down, pointer)) else old(preview)
        case Idle => translate == old(translate) && preview == old(preview)
    {
      match pipeline
      case FreeDrag(down, start) =>
        translate := Follow(start, down, pointer);
      case ContainedDrag(down, origin, _) =>
        if isDragging {
          preview := Some(Follow(origin, down, pointer));
        }
      case Idle =>
    }

    /**
     * A window mouseup. It stops the drag in both modes; a free drag ends here,
     * a contained drag sends the preview back to its origin and waits for the
     * settle step with the placeholder still shown. The store is left alone.
     */
    method MouseUp()
      requires Valid()
      modifies this`isDragging, this`preview, this`pipeline
      ensures Valid()
      ensures showPlaceholder == old(showPlaceholder)
      ensures match old(pipeline)
        case Idle => pipeline == Idle && !isDragging && preview == old(preview)
        case FreeDrag(_, _) => pipeline == Idle && !isDragging && preview == old(preview)
        case ContainedDrag(down, origin, _) =>
          pipeline == ContainedDrag(down, origin, true) && !isDragging && preview == Some(origin)
    {
      match pipeline
      case Idle =>
      case FreeDrag(_, _) =>
        isDragging := false;
        pipeline := Idle;
      case ContainedDrag(down, origin, _) =>
        isDragging := false;
        preview := Some(origin);
        pipeline := ContainedDrag(down, origin, true);
    }

    /**
     * The settle step, 210 ms after a contained drag's mouseup: the placeholder
     * class goes and the preview is removed with its backdrop. In any other
     * state there is no such timer.
     */
    method Settle()
      requires Valid()
      modifies this`showPlaceholder, this`preview, this`pipeline
      ensures Valid()
      ensures isDragging == old(isDragging)
      ensures old(pipeline).ContainedDrag? && old(pipeline).settling ==>
        pipeline == Idle && !showPlaceholder && preview == None
      ensures !(old(pipeline).ContainedDrag? && old(pipeline).settling) ==>
        pipeline == old(pipeline) && showPlaceholder == old(showPlaceholder) && preview == old(preview)
    {
      if pipeline.ContainedDrag? && pipeline.settling {
        showPlaceholder := false;
        preview := None;
        pipeline := Idle;
      }
    }
  }
}
