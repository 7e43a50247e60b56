# Art board and drag-area selection, modelled in Dafny

This project models the editing core of a canvas page editor written in
React/TypeScript:

- **The drag-area selector** (`ReactDragSelectable`,
  `src/full-drag-select/component.tsx`). A pointer drag over a container
  becomes a selector rectangle. The drag's direction decides the selection
  rule: a drag from left to right selects the on-screen elements the
  rectangle strictly encloses (window selection). A drag from right to left
  selects every element it crosses (crossing selection). An intersection
  observer keeps the list of on-screen elements.
- **The art board** (`src/artboard/artboard.tsx`). It keeps a frame map from
  element to style record (translate, rotation, scale, and the size
  resizing writes; `tx` and `ty` are aliases of the transform's translate).
  It also keeps the target list and the lock flag that stops area selection
  while an element is being moved. Its handlers select elements, detect double clicks, drag, resize and
  rotate elements singly or in groups, align a selection to its first
  element and distribute a selection evenly along one axis.

The DOM is replaced by inputs. Element boxes come from a layout function
from element id to bounding box, read once per operation. Events, scroll
offsets, viewport sizes and the current time are parameters. Numbers are
exact reals.

Files:

- `geometry.dfy`: element ids, points, bounding boxes, translation of a box.
- `collections.dfy`: `indexOf`, `splice(i, 1)` and `filter(e => e !== x)`
  on lists, with their membership and no-duplicates facts.
- `drag_select.dfy`: the selector rectangle, scroll and cursor arithmetic,
  mouse-button gating, edge detection, the selection filter, the observer
  update, and the `DragSelectable` class holding the component's fields.
- `arrange.dfy`: the frame record, alignment deltas, the alignment and
  distribution loops as functions over the frame map, and the in-place sort.
- `artboard.dfy`: selection and double-click decisions, the handler writes,
  and the `ArtBoard` class holding the component's state.

The model follows the code where it differs from its own comments. The
code sorts a selection to distribute by the top or left edge (`rect.y`,
`rect.x`), not by the middle line the comment at
`src/artboard/artboard.tsx:679` names. Its total spacing is `|(first edge -
first size / 2) - (last edge - last size / 2)|`, which equals the distance
between the end midlines when the end elements have the same size
(`EqualEndSizesSpreadEvenly`). When the first element's edge minus half its
size is not past the last's, the steps miss the last midline by the
difference of the end sizes: short of it when the last element is the
larger, past it when the first is (`StepsMissBySizeDifference`,
`UnequalEndSizesExample`). When it is past the last's, the steps end twice
the gap between the end edges before the last midline (`StepsMissByEdgeGap`);
ends that share an edge are then reached exactly.

## Model

| member | source | states |
|---|---|---|
| Geometry.Translate | src/full-drag-select/component.tsx:548-553 | shifting a box by the page scroll keeps its size and keeps a laid-out box laid out |
| Collections.IndexOf | src/artboard/artboard.tsx:263 | `indexOf`: -1 exactly when the element is absent, otherwise the position of its first occurrence |
| Collections.RemoveAt | src/artboard/artboard.tsx:271-272 | `splice(index, 1)`: the list without the element at that position, the rest in order |
| Collections.RemoveAtMembership | src/artboard/artboard.tsx:271-272 | removing a position keeps every other element's membership; in a duplicate-free list it removes that element and keeps the list duplicate-free |
| Collections.RemoveAll | src/full-drag-select/component.tsx:109-112 | `filter(e => e !== x)`: `x` absent, every other element's membership kept, order kept, no duplicates introduced |
| Collections.NoDuplicatesCounts | src/artboard/artboard.tsx:261-276 | a list is duplicate-free exactly when every value occurs at most once in its multiset |
| Collections.PermutationKeepsNoDuplicates | src/artboard/artboard.tsx:680-687 | reordering a list, as the in-place sort does, keeps it duplicate-free |
| DragSelect.DragDirection | src/full-drag-select/component.tsx:275-278 | the tag is "Left" exactly when the raw cursor x grew and "Down" exactly when y grew; scroll is ignored |
| DragSelect.SelectorAt | src/full-drag-select/component.tsx:236-281 | width and height are never negative; on each axis the rectangle runs exactly between the scroll-adjusted anchor and the scroll-adjusted cursor; the tag is the drag direction |
| DragSelect.StartingSelector | src/full-drag-select/component.tsx:292-302 | the starting rectangle has zero size and sits at anchor plus scroll |
| DragSelect.NoMovementReproducesStart | src/full-drag-select/component.tsx:258-304 | with no movement and unchanged scroll `_getPosition` reproduces the starting rectangle, tagged RightUp |
| DragSelect.DocumentScroll | src/full-drag-select/component.tsx:359-368 | the body's scroll offset when positive, else the root element's, per axis |
| DragSelect.Scroll | src/full-drag-select/component.tsx:358-387 | an element container's own offset when not negative, otherwise the document scroll, per axis |
| DragSelect.ScrollNotNegative | src/full-drag-select/component.tsx:358-387 | with non-negative root offsets the scroll used is never negative |
| DragSelect.CursorPos | src/full-drag-select/component.tsx:330-356 | the cursor position times the zoom, plus area origin and document scroll, minus the container offset, gives back `pageX`, or `clientX` when `pageX` is zero (and y) |
| DragSelect.AreaOrigin | src/full-drag-select/component.tsx:389-422 | the document (standing in for a missing container too) has origin 0,0; an element container's origin is its box's top-left corner |
| DragSelect.IsRightClick | src/full-drag-select/component.tsx:151-161 | `which === 3` when `which` is present, else `button === 2`, else false |
| DragSelect.ClickSelection | src/full-drag-select/component.tsx:163-180 | a right click reports nothing; otherwise the target when it is selectable, else null |
| DragSelect.Tolerance | src/full-drag-select/component.tsx:440-443 | the tolerance is `min(size / 10, 30)` |
| DragSelect.ViewportSize | src/full-drag-select/component.tsx:390-409 | per axis the client size when positive, else the window's inner size; positive exactly when either is |
| DragSelect.IsCursorNearEdge | src/full-drag-select/component.tsx:430-454 | each edge is returned exactly when its band holds the cursor and no earlier edge in the order top, bottom, right, left does; otherwise none |
| DragSelect.InteriorIsNearNoEdge | src/full-drag-select/component.tsx:445-454 | a cursor at least 30 inside every edge is near none |
| DragSelect.PageOffset | src/full-drag-select/component.tsx:535-538 | `pageXOffset` when non-zero, else the root element's scroll offset (and y) |
| DragSelect.InArea | src/full-drag-select/component.tsx:540-571 | a kept box is measured; a laid-out box kept by either rule is crossed by the rectangle once shifted by the page scroll |
| DragSelect.ElementsInArea | src/full-drag-select/component.tsx:530-575 | an order-preserving subsequence of the on-screen list holding exactly the elements whose box, shifted by the page scroll, is crossed (RightUp/RightDown) or strictly enclosed (LeftUp/LeftDown); unmeasured boxes are never returned; no duplicates introduced |
| DragSelect.WindowSelectionWithinCrossing | src/artboard/type.ts:4-6 | for laid-out boxes, every element a window selection returns is also returned by the crossing selection of the same rectangle |
| DragSelect.ZeroAreaEnclosesNothing | src/full-drag-select/component.tsx:564-568 | a rectangle of zero width or height strictly encloses no laid-out box |
| DragSelect.ZeroAreaWindowSelectsNothing | src/full-drag-select/component.tsx:530-575 | a zero-area window selection returns no element |
| DragSelect.AfterEntry | src/full-drag-select/component.tsx:85-120 | an intersecting entry appends its target only when absent; a non-intersecting one removes every occurrence; others keep their membership |
| DragSelect.AfterEntries | src/full-drag-select/component.tsx:83-122 | after any entries, every on-screen element was on screen before or is the target of an intersecting entry |
| DragSelect.AfterEntriesKeepsList | src/full-drag-select/component.tsx:83-122 | after any entries a duplicate-free list stays duplicate-free, and elements no entry names keep their membership |
| DragSelect.LastEntryDecides | src/full-drag-select/component.tsx:83-122 | for every element, its last entry in the batch decides whether it is on screen afterwards, whatever entries for other elements follow |
| DragSelect.AfterEntriesAppend | src/full-drag-select/component.tsx:83-122 | applying two batches one after the other equals applying them as one batch |
| DragSelect.DragSelectable.constructor | src/full-drag-select/component.tsx:18-31 | positions, container offsets and the on-screen list start at zero or empty (so the list is duplicate-free); the selector is hidden |
| DragSelect.DragSelectable.GetStartingPositions | src/full-drag-select/component.tsx:283-304 | anchor and current cursor are the event's cursor position, the scroll is recorded, and the selector box is the zero-size starting rectangle |
| DragSelect.DragSelectable.StartUp | src/full-drag-select/component.tsx:183-205 | locked or right click changes nothing; otherwise the drag is anchored, and with a container the `_startUp` mousedown listener is removed and the move and end listeners are added |
| DragSelect.DragSelectable.HandleMouseDown | src/full-drag-select/component.tsx:135-149 | locked does nothing; with buttons 1 it reports the click selection and leaves the state as `_startUp` does (a right click changes nothing; otherwise anchor, scroll, zero-size selector box and listener swap); otherwise it leaves the state as `reset` does (cursor recorded and listeners swapped back with a container, selector zeroed and hidden) |
| DragSelect.DragSelectable.GetPosition | src/full-drag-select/component.tsx:236-281 | records the new cursor and returns the rectangle `SelectorAt` gives |
| DragSelect.DragSelectable.HandleMove | src/full-drag-select/component.tsx:208-234 | acts only with buttons 1: the selector is shown at the new rectangle with its direction class, and the reported selection is the elements in it, duplicate-free when the on-screen list is |
| DragSelect.DragSelectable.Reset | src/full-drag-select/component.tsx:495-528 | with a container the cursor is recorded and the listeners swapped back; the selector is zeroed and hidden |
| DragSelect.DragSelectable.ObserveEntries | src/full-drag-select/component.tsx:83-122 | the on-screen list after the callback is the entries applied in order, and stays duplicate-free |
| Arrange.AlignmentDelta | src/artboard/artboard.tsx:611-638 | left, center and right move only x so that the left edges, the midlines or the right edges meet; top, middle and bottom do the same on y; an unknown mode moves nothing |
| Arrange.AlignmentIdempotent | src/artboard/artboard.tsx:611-638 | a box already moved by its delta gets a zero delta from a second alignment |
| Arrange.Translated | src/artboard/artboard.tsx:640-654 | adding a delta to a record changes only its translate, by that delta |
| Arrange.AlignedUpToEffect | src/artboard/artboard.tsx:599-659 | after the loop has reached position k, each earlier target holds its own record moved by its delta and no other entry changed |
| Arrange.AlignedUpToKeeps | src/artboard/artboard.tsx:599-659 | after the loop has reached position k, every element not yet passed keeps its record, or its lack of one |
| Arrange.AlignedUpToDomain | src/artboard/artboard.tsx:599-659 | after the loop has reached position k the frame map has records for exactly the old entries and the targets passed |
| Arrange.Aligned | src/artboard/artboard.tsx:599-659 | the aligned frame map has records for exactly the old entries and every target after the first |
| Arrange.AlignedFrames | src/artboard/artboard.tsx:590-666 | with two or more distinct targets the first target's record is untouched, every other target's record moves by its delta on the mode's axis only, and other elements keep theirs |
| Arrange.WithAxisTranslate | src/artboard/artboard.tsx:716-722 | only the translate on the distribution axis is replaced |
| Arrange.TotalSpacing | src/artboard/artboard.tsx:696-701 | the total spacing is never negative |
| Arrange.StepsCoverSpacing | src/artboard/artboard.tsx:703-704 | the n - 1 average spacings add up to the total spacing |
| Arrange.ShiftLandsOnStep | src/artboard/artboard.tsx:705-722 | moving by -(oldDistance - step * i) puts the element's midline at the first midline plus step * i |
| Arrange.DistributedUpToEffect | src/artboard/artboard.tsx:705-729 | after the loop has reached position k, each earlier interior element holds its own moved record and nothing else changed |
| Arrange.DistributedUpToKeeps | src/artboard/artboard.tsx:705-729 | after the loop has reached position k, every element not yet passed keeps its record, or its lack of one |
| Arrange.DistributedUpToDomain | src/artboard/artboard.tsx:705-729 | after the loop has reached position k the frame map has records for exactly the old entries and the interior elements passed |
| Arrange.Distributed | src/artboard/artboard.tsx:696-729 | the distributed frame map adds records for exactly the interior elements, and none when the total spacing is zero |
| Arrange.DistributedFrames | src/artboard/artboard.tsx:670-787 | the first and last elements and all others keep their records; zero total spacing changes nothing; otherwise each interior midline lands at the first midline plus step * i by a move on the axis only |
| Arrange.EqualEndSizesSpreadEvenly | src/artboard/artboard.tsx:678-701 | when the end elements have equal size, the steps run exactly from the first midline to the last |
| Arrange.UnequalEndSizesExample | src/artboard/artboard.tsx:696-701 | boxes at 0 height 10 and at 100 height 30 give step 45, not 55, so the steps fall short; boxes at 0 height 30 and at 100 height 10 give total spacing 110 for midlines 90 apart, so they overshoot |
| Arrange.StepsMissBySizeDifference | src/artboard/artboard.tsx:696-729 | when the first element's edge minus half its size is not past the last's, the steps end at the last midline plus (first size - last size) |
| Arrange.StepsMissByEdgeGap | src/artboard/artboard.tsx:696-729 | when the first element's edge minus half its size is past the last's, the steps end at the last midline minus twice the gap between the end edges |
| Arrange.Swap | src/artboard/artboard.tsx:680-687 | exchanges two array cells and keeps the multiset |
| Arrange.SortByEdge | src/artboard/artboard.tsx:680-687 | in place, the array ends ascending by top edge (vertical) or left edge (horizontal) and is a permutation of what it held |
| Artboard.DoubleClickDetection | src/artboard/artboard.tsx:244-260 | a selection of the same element (or again of none) less than 250 ms after a recorded one is a double click, not at 250 ms or later, never for a different element, never before the first recorded selection |
| Artboard.NextLastSelect | src/artboard/artboard.tsx:244-260 | the kept record always names the new selection; it is the old record exactly on a double click, and otherwise a new record of the current time and the new selection |
| Artboard.SelectionUpdate | src/artboard/artboard.tsx:261-276 | no element clears the list; ctrl toggles the element's membership and keeps every other's; without ctrl an unselected element becomes the only target and a selected one keeps the list; no duplicates introduced |
| Artboard.NextTargets | src/artboard/artboard.tsx:261-276 | the new target list holds only old targets and the clicked element, and grows by at most one |
| Artboard.CtrlClickTwiceRestores | src/artboard/artboard.tsx:261-276 | ctrl-clicking an unselected element twice gives back the original list |
| Artboard.IndexOfAppended | src/artboard/artboard.tsx:263 | an element appended to a list lacking it is found at the end |
| Artboard.GroupClickVersusSelection | src/artboard/artboard.tsx:317-341 | off a wrapper the click is ignored; with ctrl it toggles like a selection click; without ctrl it always narrows to the clicked element, unlike a selection click on a selected element |
| Artboard.NextGroupTargets | src/artboard/artboard.tsx:325-340 | a result exactly on a wrapper; it holds only the group's targets and the clicked element |
| Artboard.DragWrite | src/artboard/artboard.tsx:445-455 | without shift both translates follow `beforeTranslate`; with shift only x (when `delta[0] != 0`) or else only y (when `delta[1] != 0`) changes, so at most one axis; nothing else in the record changes |
| Artboard.Apply | src/artboard/artboard.tsx:434-582 | scale never changes; only resizing writes width and height; a resize sets the translate to `beforeTranslate` through the `tx`/`ty` aliases and keeps the angle; a drag keeps the angle; a rotation adds `beforeDelta`; a group rotation sets angle and translate |
| Artboard.DragFromStartKeepsFrame | src/artboard/artboard.tsx:425-455 | a drag that reports back the start `handleDragStart` handed out leaves the record as it was |
| Artboard.RotateGroupFromStartKeepsFrame | src/artboard/artboard.tsx:547-582 | a group rotation that reports back the starts `handleRotateGroupStart` handed out leaves the record as it was |
| Artboard.ResizeFromStartKeepsPlace | src/artboard/artboard.tsx:471-497 | a resize that reports back the start `handleResizeStart` handed out only sets width and height |
| Artboard.RotationsCompose | src/artboard/artboard.tsx:522-540 | two rotation steps equal one by their sum; a zero step changes nothing |
| Artboard.AppliedAllEffect | src/artboard/artboard.tsx:357-359 | with distinct targets a group gesture gives each target its single-element write and leaves other records alone |
| Artboard.AppliedAll | src/artboard/artboard.tsx:357-359 | a group gesture never drops a record |
| Artboard.AppliedAllDomain | src/artboard/artboard.tsx:357-359 | after a group gesture the frame map has records for exactly the old entries and the gesture's targets |
| Artboard.ArtBoard.constructor | src/artboard/artboard.tsx:90-112 | empty frame map and target list (so free of duplicates), unlocked, no modifier keys, no recorded selection |
| Artboard.ArtBoard.NewFrameFor | src/artboard/artboard.tsx:120-134 | stores and returns a fresh record (translate 0, rotate 0, scale 1) |
| Artboard.ArtBoard.GetFrame | src/artboard/artboard.tsx:136-138 | returns the stored record when there is one and changes nothing; otherwise stores and returns a fresh record, no other entry changing |
| Artboard.ArtBoard.LockSelector | src/artboard/artboard.tsx:417-419 | sets the lock flag |
| Artboard.ArtBoard.UnLockSelector | src/artboard/artboard.tsx:421-423 | clears the lock flag |
| Artboard.ArtBoard.HandleSelectChange | src/artboard/artboard.tsx:240-284 | reports a double click, records the selection unless it was one, sets the targets by the selection rules, and keeps a duplicate-free target list duplicate-free |
| Artboard.ArtBoard.HandleMultipleSelectChange | src/artboard/artboard.tsx:286-294 | the area-selected elements become the targets; the list is duplicate-free exactly when they are |
| Artboard.ArtBoard.HandleGroupClick | src/artboard/artboard.tsx:317-341 | ignored off a wrapper; otherwise the targets become the group-click result, duplicate-free when the group's list is |
| Artboard.ArtBoard.HandleDragStart | src/artboard/artboard.tsx:425-432 | locks, creates the record if needed, hands back its translate |
| Artboard.ArtBoard.ApplyEdit | src/artboard/artboard.tsx:434-540 | only the edited element's record changes, to the handler's write applied to its current record |
| Artboard.ArtBoard.HandleDrag | src/artboard/artboard.tsx:434-464 | the element's record becomes the drag write under the current shift state |
| Artboard.ArtBoard.HandleGestureEnd | src/artboard/artboard.tsx:466-469 | clears the lock flag |
| Artboard.ArtBoard.HandleResizeStart | src/artboard/artboard.tsx:471-482 | locks, creates the record if needed, hands back its translate (read through the `tx`/`ty` aliases; 0,0 for a fresh record) |
| Artboard.ArtBoard.HandleResize | src/artboard/artboard.tsx:484-508 | the record gets the new width and height and its translate becomes `beforeTranslate`; angle and scale are kept |
| Artboard.ArtBoard.HandleRotateStart | src/artboard/artboard.tsx:515-520 | locks, creates the record if needed, hands back its angle |
| Artboard.ArtBoard.HandleRotate | src/artboard/artboard.tsx:522-540 | the angle grows by `beforeDelta`, nothing else changes |
| Artboard.ArtBoard.HandleDragGroupStart | src/artboard/artboard.tsx:352-356 | locks, creates missing records, hands back every element's translate, changes no stored record |
| Artboard.ArtBoard.ApplyAll | src/artboard/artboard.tsx:357-359 | applies a group's writes in order |
| Artboard.ArtBoard.HandleDragGroup | src/artboard/artboard.tsx:357-359 | `handleDrag` for every event, in order |
| Artboard.ArtBoard.HandleResizeGroupStart | src/artboard/artboard.tsx:369-375 | locks, creates missing records, hands back every element's translate, changes no stored record |
| Artboard.ArtBoard.HandleResizeGroup | src/artboard/artboard.tsx:376-378 | `handleResize` for every event, in order: each writes size and translate |
| Artboard.ArtBoard.HandleRotateGroupStart | src/artboard/artboard.tsx:547-566 | locks, creates missing records, hands back every element's angle and translate |
| Artboard.ArtBoard.HandleRotateGroup | src/artboard/artboard.tsx:567-582 | every element takes the angle and translate reported for it |
| Artboard.ArtBoard.SetAlignment | src/artboard/artboard.tsx:590-666 | one target raises the alert and changes nothing; none changes nothing; two or more give the aligned frame map, in which, for a duplicate-free list, the first target's record is untouched and each later target's translate moves by its alignment delta |
| Artboard.ArtBoard.DistributeElements | src/artboard/artboard.tsx:670-787 | the array stays a permutation; with more than two elements and a known direction it ends sorted by edge and the frame map is the distributed one; otherwise nothing changes |
| Artboard.ArtBoard.SpreadSorted | src/artboard/artboard.tsx:688-729 | the loop over the interior of the sorted list yields the distributed frame map |
| Artboard.ArtBoard.SetDistribution | src/artboard/artboard.tsx:789-793 | the target list itself is reordered by the sort, stays a permutation and stays duplicate-free, and the frame map is the distributed one, in which the first and last records are untouched |

## Left out

- React plumbing: lifecycle methods, rendering, `setState` batching and callbacks, the `setTimeout` deferrals and the 100 ms debounce. State updates take effect immediately, in program order.
- The `observerIdsCache` and container-offset updates in `UNSAFE_componentWillReceiveProps`: they depend on React's merging of props and state.
- DOM access: `getBoundingClientRect` (a layout function instead), `style.cssText`, class lists, tooltip creation and content, listener registration (three flags instead), and `preventDefault` on touch start.
- The scenejs frame's string round trips (`"Npx"`, `parseFloat`, `toCSS`): records hold numbers. Width and height never written are None.
- react-moveable's callbacks (`dragStart`, `updateRect`), the `onTargetCountChange` and `onArtBoardDoubleClick` callbacks, the guides and rulers, and keycon's key tracking (the `shiftKey` and `ctrlKey` fields stand for its result).
- `IntersectionObserver` itself: only its callback on a given list of entries is modelled.
- `src/full-drag-select/utils.ts` (deep equality of props) is not part of this model.
- `autoScroll`: its only call is commented out.
- The `mouseInteraction` alert in `handleClick` and the `break` early return in `reset`: both flags are never set to true, so those branches never run.
- Floating-point numbers and the tooltip rounding: the model uses exact reals, so `_getCursorPos` needs a positive zoom (the zoom is the constant 1).
- Artboard.ArtBoard.HandleResizeStart and Artboard.ArtBoard.HandleRotateGroupStart: the code hands the start to react-moveable only when its `dragStart` object is present; the model always hands it back.
- Arrange.SortByEdge: sorts stably, which the JavaScript sort also does, but the contract states only order and permutation.
- Arrange.AlignedFrames and Arrange.DistributedFrames: box snapshots are taken once, so a target listed twice is not modelled as re-reading its moved box; both lemmas assume distinct targets, which `ArtBoard.Valid` keeps for the selection handlers; `HandleMultipleSelectChange` and `HandleGroupClick` keep it only when given a duplicate-free list.
- Artboard.AppliedAllEffect: assumes distinct targets in a group gesture.
- The "align to art board" branch for a single target is modelled only as the alert it raises.
