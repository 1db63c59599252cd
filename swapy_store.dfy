/**
 * The grid-swapy library's shared state (`SwapySlotService`): one instance for
 * the whole application, read and written by every slot and every swapy.
 */
module SwapyStore {
  import opened Nullable

  /** A slot, identified by its position among all slots on the page. */
  type Slot = nat

  class SwapySlotService {
    /** The single active slot, if any; a second one cannot be represented. */
    var activeSlot: Option<Slot>
    var dragging: bool

    constructor ()
      ensures activeSlot == None && !dragging
    {
      activeSlot, dragging := None, false;
    }
  }
}
