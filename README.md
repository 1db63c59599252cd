# nested-drag-n-drop, modelled in Dafny

This project models the logic of the two Angular libraries of the
nested-drag-n-drop repository. It leaves out their DOM and rxjs wiring.

- **drag-n-drop**:
  - `removeNestedItem` removes the first occurrence of an item from a nested structure of arrays and plain objects; `getChildNodeIndex` finds a child's index.
  - `DragNDropService` is the shared store with three nullable signals.
  - The draggable directive has a free mode (the element follows the pointer) and a contained mode (a floating preview follows the pointer, and the directive publishes itself as the store's active item).
  - The drop list subscribes to mouseups on its element whenever a new item becomes active, until the next window mouseup. It accepts a mouseup only while subscribed and while an item is active, clears the item, and emits a `{previousContainer, container}` event once the drop timer fires.
- **grid-swapy**:
  - `SwapySlotService` holds the shared `activeSlot` and `dragging`.
  - A slot becomes active when the pointer enters it during a drag.
  - The swapy directive starts a drag through a guarded mousedown. It swaps the contents of the previous and the new active slot on every change of active slot. The mouseup stops the drag and a later settle step frees the active slot.

Modules follow the source files:

- `NestedUtils`: `utils.ts`.
- `DragStore`: `drag-n-drop.service.ts`.
- `DropList`: `drop-list.directive.ts`.
- `Draggable`: `drag-n-drop.directive.ts`.
- `DragSession`: one contained drag from press to emitted event, across the draggable, the drop list and the store.
- `SwapyStore`: `swapy-slot.service.ts`.
- `SwapySlot`: `swapy-slot.directive.ts`.
- `Swapy`: `swapy.directive.ts`.
- `Pointer`: the integer position arithmetic shared by both libraries.
- `Nullable`: the option type that stands for TypeScript's `null`.

Conventions of the model:
- Pointer events and timers are method calls in the order they happen: MouseDown, MouseMove, MouseEnter, MouseUp, Settle, FireTimer. A mouseup reaches the element under the pointer before the window. A timer's delay is not represented, only the step at which it fires.
- Element rectangles are integer positions supplied by the caller.
- A tree in `removeNestedItem` is a value (`Leaf`, `Arr`, `Obj`). JavaScript `===` is `StrictEq`: primitives compare by value, arrays and objects by an identity `ref`.
- The loop method `RemoveNestedItem` returns the array as the in-place splices leave it. It is proved equal to the recursive reference definition `RemoveFirst`/`Descend`.
- Inside a plain object the code scans a temporary `Object.values` copy. A hit among the object's own values therefore only shortens the copy, and the object is unchanged. A hit deeper down changes a shared array, so it shows through. `Descend` and `Rebuild` say this.
- All swapy directives of the page form one `SwapyBoard`, because the service is a single root-level instance. Each swapy's `innerHTML` is one entry of `contents`.

Behaviour of the code, where it is easy to misread:
- The drag-n-drop draggable ignores the button and its own `disabled` input on mousedown. `disabled` only sets a CSS class.
- A slot decides whether it subscribes to mouseenter only at the moment `dragging` turns true.
  - A disabled slot is filtered out at that moment, but the filter sits before the `switchMap`. So a subscription made at an earlier drag start stays alive.
  - A slot that was enabled once keeps becoming active by hover even after it is disabled. `SwapySlot.KeptSubscription` shows this.
- The drop list's subscription reads `activeItem$`, and the draggable's mouseenter calls `setHoveredItem`. The store declares neither.
  - `activeItem$` is modelled as emitting each new value of the store's active item (`DropListDirective.OnActiveItemChanged`).
  - The draggable's mouseenter handler is not modelled.
- A contained drag released outside every list leaves its item active in the store, because the draggable never clears it.
  - The window mouseup has ended every list's subscription, so a later mouseup on a list accepts nothing until a new item is published.
  - `DragSession.ReleaseOutside` shows this.
- No directive fills in `DragItem.index`, so every emitted event carries no index.

## Model

| member | source | states |
|---|---|---|
| NestedUtils.StrictEq | projects/drag-n-drop/src/lib/utils.ts:21 | `el === item`: two primitives are `===` exactly when they are equal, arrays and objects only by identity, and a value of one kind never matches one of another; every value matches itself (see "## Left out" for `NaN`). |
| NestedUtils.Children | projects/drag-n-drop/src/lib/utils.ts:27 | What the recursion scans: nothing for a primitive, otherwise the array itself or `Object.values` of the object, each of whose entries is a proper part of the node, so the recursion descends. |
| NestedUtils.RemoveNestedItem | projects/drag-n-drop/src/lib/utils.ts:17-33 | The `forEach` loop with its `found` flag: the found flag and the resulting array are exactly those of the reference scan `RemoveFirst` (first hit in depth-first, left-to-right order; each element compared before it is descended into; scan stops once found). |
| NestedUtils.FoundIffOccurs | projects/drag-n-drop/src/lib/utils.ts:17-33 | The result is true if and only if the item is `===` to some node of the structure, at any depth, arrays and objects alike. |
| NestedUtils.DescendFoundIffOccurs | projects/drag-n-drop/src/lib/utils.ts:26-29 | The recursive call on an element reports a hit exactly when the item occurs among that element's children (array items or object values; none for a primitive). |
| NestedUtils.AbsentUnchanged | projects/drag-n-drop/src/lib/utils.ts:17-33 | When the item occurs nowhere, the result is false and the whole structure is unchanged. |
| NestedUtils.FirstHitIsSpliced | projects/drag-n-drop/src/lib/utils.ts:19-25 | If element `i` is `===` to the item and no earlier element is or contains it, the array loses exactly element `i`, the others keep their order, and the result is true. |
| NestedUtils.FirstHitInside | projects/drag-n-drop/src/lib/utils.ts:19-29 | If the first element that contains the item is element `i` and it is not the item itself, only element `i` changes (by the recursive call into it), everything after it is untouched, and the result is true. |
| NestedUtils.ObjectDirectValueUnchanged | projects/drag-n-drop/src/lib/utils.ts:26-29 | A first hit that is a direct value of a plain object reports true but leaves the object exactly as it was, because only the temporary `Object.values` copy was spliced. |
| NestedUtils.ArrayOnlyCountDrops | projects/drag-n-drop/src/lib/utils.ts:17-33 | In a structure of arrays and primitives, a true result lowers the item's number of occurrences by exactly one and a false result leaves it unchanged. This holds for a primitive item in any such structure and for an array item whenever no array contains itself, which every structure JavaScript can build without a cycle satisfies. |
| NestedUtils.ArrayOnlyNodeCountDrops | projects/drag-n-drop/src/lib/utils.ts:26-29 | The same count property for the recursive call into one array element. |
| NestedUtils.CountRespectsStrictEq | projects/drag-n-drop/src/lib/utils.ts:21 | Two items that are `===` occur equally often in any structure. |
| NestedUtils.GetChildNodeIndex | projects/drag-n-drop/src/lib/utils.ts:45-48 | The result lies in [-1, length); it is -1 exactly when the child is absent, and otherwise the smallest index holding the child. |
| DragStore.DragNDropService.constructor | projects/drag-n-drop/src/lib/drag-n-drop.service.ts:18-20 | All three signals start null. |
| DragStore.DragNDropService.SetActiveItem | projects/drag-n-drop/src/lib/drag-n-drop.service.ts:22-28 | The `activeItem` view reads exactly the value written, null included; the other two views are unchanged. |
| DragStore.DragNDropService.SetHoveredDropList | projects/drag-n-drop/src/lib/drag-n-drop.service.ts:30-32 | Only `hoveredDropList` changes, to exactly the value written. |
| DragStore.DragNDropService.SetClonedItem | projects/drag-n-drop/src/lib/drag-n-drop.service.ts:34-36 | Only `clonedItem` changes, to exactly the value written. |
| DropList.DropListDirective.constructor | projects/drag-n-drop/src/lib/directives/drop-list.directive.ts:17-21 | A new list has no subscription, no pending event and has emitted nothing. |
| DropList.DropListDirective.OnActiveItemChanged | projects/drag-n-drop/src/lib/directives/drop-list.directive.ts:48-55 | A non-null active item starts the list's mouseup subscription; a null one is filtered out and leaves the subscription as it was. |
| DropList.DropListDirective.OnWindowMouseUp | projects/drag-n-drop/src/lib/directives/drop-list.directive.ts:44 | A mouseup reaching the window ends the subscription. |
| DropList.DropListDirective.OnDropItem | projects/drag-n-drop/src/lib/directives/drop-list.directive.ts:23-46 | A mouseup on the element is accepted if and only if the list is subscribed and an item is active; otherwise nothing changes. An accepted drop clears the active item before anything is emitted and schedules one event whose `previousContainer` is exactly the item that was active and whose `container` carries that item's `data` and `el`, this list's element as `dropEl`, and no index. |
| DropList.DropListDirective.FireTimer | projects/drag-n-drop/src/lib/directives/drop-list.directive.ts:31-42 | The oldest scheduled event is emitted when its timer fires; with no timer running nothing is emitted. |
| DropList.ReleaseOverNestedLists | projects/drag-n-drop/src/lib/directives/drop-list.directive.ts:25-44 | One release over two lists sharing the store: at most one accepts; one does if and only if an item was active and either list was subscribed; an accepted drop leaves no item active; and neither list stays subscribed. |
| Draggable.DragNDropDirective.constructor | projects/drag-n-drop/src/lib/directives/drag-n-drop.directive.ts:38-44 | A draggable starts not dragging, with no placeholder and no pipeline. |
| Draggable.DragNDropDirective.SetInputs | projects/drag-n-drop/src/lib/directives/drag-n-drop.directive.ts:38-42 | The `libDragData` and `libDragDisabled` inputs take the given values. |
| Draggable.DragNDropDirective.MouseDown | projects/drag-n-drop/src/lib/directives/drag-n-drop.directive.ts:192-206 | Every mousedown sets `isDragging` and replaces the previous pipeline. Without a drop list the drag is free, from the element's current translation, and the store is untouched. Inside one, the store's active item becomes `Published()`, the `{data, el, dropEl}` record of drag-n-drop.directive.ts:118-122 built from the inputs at this press, with the list's element as `dropEl`; `showPlaceholder` is true, and the preview is on the element's rect. |
| Draggable.DragNDropDirective.MouseMove | projects/drag-n-drop/src/lib/directives/drag-n-drop.directive.ts:97-140 | A free drag sets the element's translation to its start plus the pointer delta. A contained drag sets the preview to the origin rect plus the pointer delta, and only while `isDragging`. |
| Draggable.DragNDropDirective.MouseUp | projects/drag-n-drop/src/lib/directives/drag-n-drop.directive.ts:107-149 | `isDragging` is cleared in both modes. A free drag ends. A contained drag sends the preview back to the origin and keeps `showPlaceholder` until the settle step. The store is not touched, so the draggable never clears the active item. |
| Draggable.DragNDropDirective.Settle | projects/drag-n-drop/src/lib/directives/drag-n-drop.directive.ts:150-156 | After a contained drag's mouseup, the settle step clears `showPlaceholder`, removes the preview and ends the pipeline; otherwise it changes nothing. |
| DragSession.ContainedDrop | projects/drag-n-drop/src/lib/directives/drag-n-drop.directive.ts:117-159 | Press, move, release over the enclosing list, settle, timer: the list emits exactly one event whose `previousContainer` is the item the draggable published at the press and whose `container` carries the data of that press, the store ends with no active item, and the list is no longer subscribed. |
| DragSession.ReleaseOutside | projects/drag-n-drop/src/lib/directives/drop-list.directive.ts:24-55 | Press inside a list and release outside every list: the store still holds the item published at the press afterwards, yet a later mouseup on the list is refused and nothing is scheduled or emitted. |
| SwapyStore.SwapySlotService.constructor | projects/grid-swapy/src/lib/services/swapy-slot.service.ts:7-10 | `activeSlot` starts null and `dragging` false. |
| SwapySlot.SwapySlotDirective.constructor | projects/grid-swapy/src/lib/directives/swapy-slot.directive.ts:21-34 | A slot starts with the given inputs and no mouseenter subscription. |
| SwapySlot.SwapySlotDirective.SetInputs | projects/grid-swapy/src/lib/directives/swapy-slot.directive.ts:29-30 | The `disabled` and `disableDrop` inputs take the given values. |
| SwapySlot.SwapySlotDirective.OnDraggingChanged | projects/grid-swapy/src/lib/directives/swapy-slot.directive.ts:35-47 | The slot is subscribed to mouseenter afterwards if and only if it was before, or `dragging` is now true and the slot is neither `disabled` nor `disableDrop`. |
| SwapySlot.SwapySlotDirective.OnMouseEnter | projects/grid-swapy/src/lib/directives/swapy-slot.directive.ts:42-46 | While dragging, entering a subscribed slot makes it the active slot. Otherwise (`dragging` false, or no subscription) `activeSlot` is unchanged. |
| SwapySlot.KeptSubscription | projects/grid-swapy/src/lib/directives/swapy-slot.directive.ts:35-47 | A slot enabled at one drag start and disabled at the next still becomes active by hover. |
| Swapy.SwapyBoard.AtMostOneActive | projects/grid-swapy/src/lib/directives/swapy-slot.directive.ts:31 | `Active()` is `activeSlot() === this`, with a slot's index standing for the directive's identity; since every slot of the board shares the one service, no two slots report active. |
| Swapy.SwapyBoard.constructor | projects/grid-swapy/src/lib/directives/swapy.directive.ts:33-42 | A board starts with the given contents, no drag, no animation and the board invariant established. |
| Swapy.SwapContent | projects/grid-swapy/src/lib/directives/swapy.directive.ts:135-160 | The two given slots exchange contents, no other slot changes, and the contents stay a permutation; with either slot missing nothing changes. |
| Swapy.SwapTwiceRestores | projects/grid-swapy/src/lib/directives/swapy.directive.ts:157-160 | Swapping the same pair twice restores the contents. |
| Swapy.Offset | projects/grid-swapy/src/lib/directives/swapy.directive.ts:162-169 | The max/min/negate computation equals `active.left - previous.left` and `active.top - previous.top`. |
| Swapy.ReplayKeepsDragged | projects/grid-swapy/src/lib/directives/swapy.directive.ts:92-97 | Along any sequence of active-slot changes, each followed by its swap, the contents stay a permutation of those at the press and the dragged content sits in the slot active at the end. |
| Swapy.SwapyBoard.MouseDown | projects/grid-swapy/src/lib/directives/swapy.directive.ts:43-58 | A drag starts if and only if the button is 0, no slot is active, the swapy has content and its slot is not disabled. A start makes the slot active, turns `dragging` on, puts the preview on the swapy, and subscribes exactly the slots that are enabled for drops. A refused press changes nothing. |
| Swapy.SwapyBoard.MouseMove | projects/grid-swapy/src/lib/directives/swapy.directive.ts:79-90 | While dragging, the preview is the swapy's origin plus the pointer delta; otherwise it stays put. |
| Swapy.SwapyBoard.MouseEnter | projects/grid-swapy/src/lib/directives/swapy.directive.ts:92-97 | When entering a slot changes the active slot, the previous and the new active slot exchange contents, and the animation starts at the offset between their rects; the drag keeps its owner, press point and origin and only records the new active slot. Otherwise nothing changes. The board invariant keeps the contents a permutation of the start and the dragged content in the active slot. |
| Swapy.SwapyBoard.MouseUp | projects/grid-swapy/src/lib/directives/swapy.directive.ts:111-126 | `dragging` is cleared, the preview targets the active slot's position, and the active slot stays set. |
| Swapy.SwapyBoard.Settle | projects/grid-swapy/src/lib/directives/swapy.directive.ts:127-131 | After the mouseup, the settle step clears `activeSlot`, ends the drag and removes the preview. Until then `activeSlot` is set, so `MouseDown` refuses a new drag. |

## Left out

- Presentation: styles, classes, CSS transitions, `cloneNode`, the backdrop, `initializePlaceholder`, `setStyles`. Also the clone's size and pointer-events changes in `swapContent`. These only change what is drawn.
- Real time: `delay(200/210)`, `setTimeout(…, 10/230)` and rxjs scheduling. Each timer is a step called in order. In particular, the swapy preview's 10 ms retarget happens at the mouseup step.
- Floating point and `Math.round`: positions are integers, and the properties use only addition and subtraction.
- `getBoundingClientRect` and `getComputedStyle`: rectangles and the element's starting translation are inputs.
- NestedUtils.RemoveNestedItem: it works on values and returns the new array instead of splicing in place. An array or object reachable from two places in the structure is two separate values here, so effects through such aliasing are not captured.
- NestedUtils.ArrayOnlyCountDrops: the count is taken over the structure as a value. In JavaScript an array reachable from two places is counted twice, and a hit inside it disappears from both places.
- NestedUtils.StrictEq: it is reflexive on every leaf. JavaScript's `NaN !== NaN`, so a `NaN` item is never found by the code. The model has no `NaN` leaf.
- NestedUtils: the datatype cannot express a cyclic structure. On one, the code recurses until the stack overflows, unless a hit comes first.
- NestedUtils: leaves are primitives other than strings, `null` and `undefined`.
  - `Object.values` of a string yields its characters, and a one-character string recurses forever.
  - `Object.values(null)` throws.
- NestedUtils.GetChildNodeIndex: `HTMLCollection` is a sequence. A `null` or non-element child is simply a value not among the children, so the result is -1.
- The draggable's `onMouseEnter` calls `setHoveredItem`, which the store does not declare. It is not modelled.
- The drop list's `activeItem$` is not declared either. It is modelled as emitting each new value of the active item, one call of `OnActiveItemChanged` per change, made by the caller.
- `preventDefault`, `stopPropagation` and the bubbling between nested draggables are not modelled. Neither are destruction (`takeUntilDestroyed`) and the optional dependency injection; the enclosing drop list is an input.
- Draggable.DragNDropDirective.MouseDown: a contained pipeline dropped by a new mousedown during its settle delay leaves its old preview and backdrop in the page. The model keeps one preview.
- Swapy.SwapyBoard.MouseEnter: `toObservable` may merge several changes of `activeSlot` into one emission. The model assumes `pairwise` sees every change.
- SwapySlot.SwapySlotDirective.OnMouseEnter: a slot disabled when the current drag started can still become active, if it subscribed at an earlier drag start. The contract states the code's behaviour, not the stronger rule that a slot disabled at drag start never becomes active.
- `drag-preview.directive.ts`, `drop-group.directive.ts`, `drag-handle.directive.ts`, `swapy-slot.component.ts` and `public-api.ts` only register, query or export. `projects/testing-app` is demo code and is not part of this model.
- Sibling-shift animation, array move/transfer helpers and drop connectivity do not occur in these sources.
