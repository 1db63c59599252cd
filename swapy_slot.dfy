/**
 * The slot directive (`libSwapySlot`). Each time `dragging` turns true and the
 * slot is neither `disabled` nor `disableDrop`, it subscribes to its own
 * mouseenter; while dragging, entering the slot makes it the active one. A
 * later drag start that finds the slot disabled is filtered out before the
 * `switchMap`, so it does not cancel a subscription made at an earlier start.
 */
module SwapySlot {
  import opened Nullable
  import opened SwapyStore

  class SwapySlotDirective {
    const svc: SwapySlotService
    const index: Slot
    var disabled: bool
    var disableDrop: bool
    /** Whether the mouseenter subscription exists. */
    var listening: bool

    constructor (svc: SwapySlotService, index: Slot, disabled: bool, disableDrop: bool)
      ensures this.svc == svc && this.index == index
      ensures this.disabled == disabled && this.disableDrop == disableDrop && !listening
    {
      this.svc, this.index := svc, index;
      this.disabled, this.disableDrop := disabled, disableDrop;
      listening := false;
    }

    /**
     * The computed `active`: this slot is the shared active slot. Slots are told
     * apart by their index, which stands for the directive's identity.
     */
    predicate Active()
      reads svc
    {
      svc.activeSlot == Some(index)
    }

    /** New values of the `disabled` and `disableDrop` inputs. */
    method SetInputs(disabled: bool, disableDrop: bool)
      modifies this`disabled, this`disableDrop
      ensures this.disabled == disabled && this.disableDrop == disableDrop
    {
      this.disabled, this.disableDrop := disabled, disableDrop;
    }

    /** `isDragging$` emits the new value of `dragging`. */
    method OnDraggingChanged()
      modifies this`listening
      ensures listening <==> old(listening) || (svc.dragging && !disabled && !disableDrop)
    {
      if svc.dragging && !disabled && !disableDrop {
        listening := true;
      }
    }

    /** The pointer enters the slot: it becomes active if subscribed and a drag is on. */
    method OnMouseEnter()
      modifies svc`activeSlot
      ensures listening && svc.dragging ==> svc.activeSlot == Some(index) && Active()
      ensures !(listening && svc.dragging) ==> svc.activeSlot == old(svc.activeSlot)
    {
      if listening && svc.dragging {
        svc.activeSlot := Some(index);
      }
    }
  }

  /**
   * A slot enabled when one drag started and disabled when the next one starts
   * keeps the subscription of the first, so hovering makes it active again.
   */
  method KeptSubscription(svc: SwapySlotService, slot: SwapySlotDirective)
    requires slot.svc == svc && !svc.dragging && !slot.disabled && !slot.disableDrop
    modifies svc, slot
    ensures slot.disabled && slot.disableDrop && slot.Active()
  {
    svc.dragging := true;
    slot.OnDraggingChanged();
    svc.dragging := false;
    slot.OnDraggingChanged();
    slot.SetInputs(true, true);
    svc.dragging := true;
    slot.OnDraggingChanged();
    slot.OnMouseEnter();
  }
}
