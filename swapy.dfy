/**
 * The swapy directive (`libSwapy`), one inside every slot, over the whole page:
 * a guarded mousedown picks up a slot's content, every change of the active
 * slot swaps the contents of the previous and the new active slot, the mouseup
 * ends the drag, and a settle step 200 ms later frees the active slot.
 */
module Swapy {
  import opened Nullable
  import opened Pointer
  import opened SwapyStore
  import opened SwapySlot

  /** The `innerHTML` of a swapy's element; it has child nodes exactly when it is not empty. */
  type Html = string

  /**
   * `swapContent`: the two slots exchange their contents. With either slot
   * missing it does nothing.
   */
  function SwapContent(contents: seq<Html>, previous: Option<Slot>, active: Option<Slot>): (r: seq<Html>)
    requires previous.Some? ==> previous.value < |contents|
    requires active.Some? ==> active.value < |contents|
    ensures |r| == |contents| && multiset(r) == multiset(contents)
    ensures previous.None? || active.None? ==> r == contents
    ensures previous.Some? && active.Some? ==>
      && r[previous.value] == contents[active.value]
      && r[active.value] == contents[previous.value]
      && forall k :: 0 <= k < |contents| && k != previous.value && k != active.value ==> r[k] == contents[k]
  {
    if previous.None? || active.None? then contents
    else
      var p, a := previous.value, active.value;
      var r := contents[p := contents[a]][a := contents[p]];
      r
  }

  /** Swapping the same two slots a second time restores their contents. */
  lemma SwapTwiceRestores(contents: seq<Html>, previous: Slot, active: Slot)
    requires previous < |contents| && active < |contents|
    ensures SwapContent(SwapContent(contents, Some(previous), Some(active)), Some(previous), Some(active)) == contents
  {
  }

  /**
   * The start offset of the swap animation of the previous slot's element: its
   * distance from the previous slot to the active one, computed axis by axis as
   * the larger coordinate minus the smaller, negated when the previous slot lies
   * further right or further down.
   */
  function Offset(previous: Pos, active: Pos): (d: Pos)
    ensures d.x == active.x - previous.x && d.y == active.y - previous.y
  {
    var left := (if previous.x > active.x then previous.x else active.x) - (if previous.x < active.x then previous.x else active.x);
    var top := (if previous.y > active.y then previous.y else active.y) - (if previous.y < active.y then previous.y else active.y);
    Pos(if previous.x > active.x then -left else left, if previous.y > active.y then -top else top)
  }

  /** The contents after the active slot has moved from `active` along `path`, one swap per move. */
  function Replay(contents: seq<Html>, active: Slot, path: seq<Slot>): seq<Html>
    requires active < |contents| && forall k :: 0 <= k < |path| ==> path[k] < |contents|
    decreases |path|
  {
    if path == [] then contents
    else Replay(SwapContent(contents, Some(active), Some(path[0])), path[0], path[1..])
  }

  /** The slot that is active at the end of `path`. */
  function LastActive(active: Slot, path: seq<Slot>): Slot {
    if path == [] then active else path[|path| - 1]
  }

  /**
   * However the active slot wanders during one drag, the contents stay a
   * permutation of those at the press and the dragged content sits in the slot
   * that is active at the end.
   */
  lemma {:induction false} ReplayKeepsDragged(contents: seq<Html>, active: Slot, path: seq<Slot>)
    requires active < |contents| && forall k :: 0 <= k < |path| ==> path[k] < |contents|
    ensures |Replay(contents, active, path)| == |contents|
    ensures multiset(Replay(contents, active, path)) == multiset(contents)
    ensures Replay(contents, active, path)[LastActive(active, path)] == contents[active]
    decreases |path|
  {
    if path != [] {
      var next := SwapContent(contents, Some(active), Some(path[0]));
      ReplayKeepsDragged(next, path[0], path[1..]);
      assert LastActive(path[0], path[1..]) == LastActive(active, path);
    }
  }

  /** The swap animation: the swapy element of the previous slot `slot` starts shifted by `from` and glides back to its place. */
  datatype SwapAnimation = SwapAnimation(slot: Slot, from: Pos)

  /** The pipeline the last accepted mousedown started. */
  datatype Drag =
    | Idle
      /**
       * A drag of `owner`'s content, pressed at `down` with the swapy's element at
       * `origin`; `observed` is the last active slot `pairwise` has seen, and
       * `settling` holds from the mouseup to the settle step.
       */
    | Dragging(owner: Slot, down: Pos, origin: Pos, observed: Slot, settling: bool)

  /** All swapy directives of the page together with their slots and the shared service. */
  class SwapyBoard {
    const svc: SwapySlotService
    const slots: seq<SwapySlotDirective>
    /** The left/top of each slot's element. */
    const slotRects: seq<Pos>
    /** The left/top of each swapy's element. */
    const swapyRects: seq<Pos>
    /** The `innerHTML` of each swapy's element. */
    var contents: seq<Html>
    var drag: Drag
    /** Where the floating preview is drawn, while there is one. */
    var preview: Option<Pos>
    var animation: Option<SwapAnimation>
    /** The contents when the board was built. */
    ghost var initial: seq<Html>
    /** The content picked up by the current drag. */
    ghost var dragged: Html

    ghost predicate Valid()
      reads this, svc
    {
      && |slots| == |slotRects| == |swapyRects| == |contents|
      && (forall k :: 0 <= k < |slots| ==> slots[k].index == k && slots[k].svc == svc)
      && multiset(contents) == multiset(initial)
      && (svc.activeSlot.Some? ==> svc.activeSlot.value < |slots|)
      && (drag.Idle? <==> svc.activeSlot.None?)
      && (drag.Idle? ==> !svc.dragging && preview.None?)
      && (drag.Dragging? ==>
            && drag.owner < |slots|
            && svc.activeSlot == Some(drag.observed)
            && svc.dragging == !drag.settling
            && preview.Some?
            && contents[drag.observed] == dragged)
    }

    constructor (svc: SwapySlotService, slots: seq<SwapySlotDirective>, slotRects: seq<Pos>, swapyRects: seq<Pos>, contents: seq<Html>)
      requires |slots| == |slotRects| == |swapyRects| == |contents|
      requires forall k :: 0 <= k < |slots| ==> slots[k].index == k && slots[k].svc == svc
      requires svc.activeSlot == None && !svc.dragging
      ensures Valid()
      ensures this.svc == svc && this.slots == slots && this.slotRects == slotRects && this.swapyRects == swapyRects
      ensures this.contents == contents && initial == contents && drag == Idle && animation == None
    {
      this.svc, this.slots, this.slotRects, this.swapyRects := svc, slots, slotRects, swapyRects;
      this.contents, initial := contents, contents;
      drag, preview, animation := Idle, None, None;
      dragged := "";
    }

    /**
     * A mousedown on the swapy of `slot`. A drag starts only for the primary
     * button, with no slot active, on a swapy with content in a slot that is
     * not disabled; it makes the slot active, turns `dragging` on and lets
     * every slot react to that.
     */
    method MouseDown(slot: Slot, button: int, pointer: Pos) returns (started: bool)
      requires Valid() && slot < |slots|
      modifies this`drag, this`preview, this`dragged, svc, set s | s in slots
      ensures Valid()
      ensures started <==> button == 0 && old(svc.activeSlot).None? && contents[slot] != [] && !slots[slot].disabled
      ensures contents == old(contents) && animation == old(animation)
      ensures forall k :: 0 <= k < |slots| ==>
        slots[k].disabled == old(slots[k].disabled) && slots[k].disableDrop == old(slots[k].disableDrop)
      ensures started ==>
        && svc.activeSlot == Some(slot) && svc.dragging
        && drag == Dragging(slot, pointer, swapyRects[slot], slot, false)
        && preview == Some(swapyRects[slot])
        && dragged == contents[slot]
        && forall k :: 0 <= k < |slots| ==>
             (slots[k].listening <==> old(slots[k].listening) || (!slots[k].disabled && !slots[k].disableDrop))
      ensures !started ==>
        && svc.activeSlot == old(svc.activeSlot) && svc.dragging == old(svc.dragging)
        && drag == old(drag) && preview == old(preview)
        && forall k :: 0 <= k < |slots| ==> slots[k].listening == old(slots[k].listening)
    {
      started := button == 0 && svc.activeSlot.None? && contents[slot] != [] && !slots[slot].disabled;
      if started {
        svc.activeSlot := Some(slot);
        preview := Some(swapyRects[slot]);
        svc.dragging := true;
        drag := Dragging(slot, pointer, swapyRects[slot], slot, false);
        dragged := contents[slot];
        var k := 0;
        while k < |slots|
          invariant 0 <= k <= |slots|
          invariant svc.activeSlot == Some(slot) && svc.dragging
          invariant drag == Dragging(slot, pointer, swapyRects[slot], slot, false)
          invariant preview == Some(swapyRects[slot]) && dragged == contents[slot]
          invariant forall m :: 0 <= m < |slots| ==>
            slots[m].disabled == old(slots[m].disabled) && slots[m].disableDrop == old(slots[m].disableDrop)
          invariant forall m :: 0 <= m < |slots| ==>
            (slots[m].listening <==> old(slots[m].listening) || (m < k && !slots[m].disabled && !slots[m].disableDrop))
        {
          slots[k].OnDraggingChanged();
          k := k + 1;
        }
      }
    }

    /** A window mousemove: the preview follows the pointer while dragging. */
    method MouseMove(pointer: Pos)
      requires Valid()
      modifies this`preview
      ensures Valid()
      ensures drag.Dragging? && svc.dragging ==> preview == Some(Follow(drag.origin, drag.down, pointer))
      ensures !(drag.Dragging? && svc.dragging) ==> preview == old(preview)
    {
      if drag.Dragging? && svc.dragging {
        preview := Some(Follow(drag.origin, drag.down, pointer));
      }
    }

    /**
     * The pointer enters `slot`. When that changes the active slot, the drag's
     * `pairwise` sees the change and swaps the previous and the new active
     * slot's contents; nothing else changes.
     */
    method MouseEnter(slot: Slot)
      requires Valid() && slot < |slots|
      modifies svc`activeSlot, this`contents, this`drag, this`animation
      ensures Valid()
      ensures var moves := slots[slot].listening && svc.dragging && old(svc.activeSlot) != Some(slot);
        && (moves ==>
              && svc.activeSlot == Some(slot)
              && drag == old(drag).(observed := slot)
              && contents == SwapContent(old(contents), old(svc.activeSlot), Some(slot))
              && animation == Some(SwapAnimation(old(svc.activeSlot).value, Offset(slotRects[old(svc.activeSlot).value], slotRects[slot]))))
        && (!moves ==>
              svc.activeSlot == old(svc.activeSlot) && contents == old(contents) && animation == old(animation) && drag == old(drag))
      ensures svc.activeSlot.Some? ==> contents[svc.activeSlot.value] == dragged
    {
      var before := svc.activeSlot;
      slots[slot].OnMouseEnter();
      if drag.Dragging? && svc.activeSlot != before {
        var previous := drag.observed;
        contents := SwapContent(contents, Some(previous), svc.activeSlot);
        animation := Some(SwapAnimation(previous, Offset(slotRects[previous], slotRects[slot])));
        drag := drag.(observed := slot);
      }
    }

    /**
     * A document mouseup: the drag stops and the preview heads for the active
     * slot, which stays active until the settle step.
     */
    method MouseUp()
      requires Valid()
      modifies svc`dragging, this`preview, this`drag
      ensures Valid()
      ensures !svc.dragging && svc.activeSlot == old(svc.activeSlot)
      ensures old(drag).Dragging? ==>
        drag == old(drag).(settling := true) && preview == Some(slotRects[svc.activeSlot.value])
      ensures old(drag).Idle? ==> drag == Idle && preview == old(preview)
    {
      if drag.Dragging? {
        svc.dragging := false;
        preview := Some(slotRects[svc.activeSlot.value]);
        drag := drag.(settling := true);
      }
    }

    /** The settle step, 200 ms after the mouseup: the active slot is cleared and the preview removed. */
    method Settle()
      requires Valid()
      modifies svc`activeSlot, this`preview, this`drag
      ensures Valid()
      ensures old(drag).Dragging? && old(drag).settling ==> svc.activeSlot == None && drag == Idle && preview == None
      ensures !(old(drag).Dragging? && old(drag).settling) ==>
        svc.activeSlot == old(svc.activeSlot) && drag == old(drag) && preview == old(preview)
    {
      if drag.Dragging? && drag.settling {
        svc.activeSlot := None;
        drag := Idle;
        preview := None;
      }
    }

    /** At most one slot reports `active`. */
    lemma AtMostOneActive(a: Slot, b: Slot)
      requires Valid() && a < |slots| && b < |slots|
      ensures slots[a].Active() && slots[b].Active() ==> a == b
    {
    }
  }
}
