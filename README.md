# draggable.js reorder controller, modelled in Dafny

`Draggable` (src/index.js) makes the children of a container element reorderable
with the mouse. Pressing the primary button on a child starts a drag session:
- the controller records the dragged node and its index among the container's
  children;
- it builds a floating copy of the node (the overlay) that follows the pointer.

While the pointer moves, the overlay is shifted by the pointer's travel. The
pointer is tested against a cache of the children's bounding boxes. The cache
was taken at construction or at the press, or rebuilt by a later scroll or
resize, which can happen in the middle of a drag. The first cached box that strictly contains the pointer gives
a drop slot `i`. When the child there is not the dragged node, the dragged node
is moved with `insertBefore`:
- before the drop node's next sibling, that is right after the drop node, when it
  travels forward;
- before the drop node when it travels backward.

Both nodes then get a short slide animation from their old slot. Releasing the
button hands the before/after diff to the `dragEnd` callback, if a move
happened. It then clears both flags, removes the overlay and clears the diff;
`drag`, `drop` and the cache keep their values. A later press
overwrites `drag`, and refills the cache only when it is empty. A scroll or
resize can rebuild the cache at any time.

The model is one imperative class plus the pure definitions its contracts use.

- `Wrappers`: `Option`, which stands for JavaScript's `null`/`undefined`.
- `Geometry`: integer boxes, `Snapshot` (the cache as one box per child, in child
  order) and `HitIndex` (the first slot that strictly contains a point).
- `ChildList`: the child sequence and its one mutation.
  - `InsertBefore` and `Relocation` follow the two `insertBefore` calls.
  - `Moved(s, j, i)` is the reference definition: remove at `j`, insert at `i`.
  - The main theorem `RelocationIsMoved` says the two agree. Around it are lemmas
    on positions, relative order, permutation and absence of repeats.
- `Dom`: nodes are opaque `nat` handles, and `parentNode` is a map. A ghost depth
  map proves that the upward walk ends. `IsStrictAncestor` is the relation
  `_isChildOf` computes, and `ElementIndex` is what `_getElementIndex` returns.
- `DraggableController.Draggable`: a class with the controller's fields.
  - `rectList`, `isMousedown`, `isMousemove`, `drag`, `drop`, `clone`, `diff`, the
    live `children` sequence and the listener and timer state.
  - Its methods mirror the handlers. The `Valid()` invariant is preserved by
    every handler. It says:
    - the document has no repeated children;
    - the cache is empty or holds one box per child;
    - a move is only recorded inside a press;
    - a press always has an overlay and a drag slot that holds the dragged node or
      encloses it;
    - the overlay is off the corner of the box the press started on (as
      that box was at the press) by the pointer's total travel since the press;
    - every pending timer handle was issued earlier.

Inputs from the host are parameters:
- the boxes (`box: Node -> Rect`, standing for `getBoundingClientRect`);
- mouse events (button, target, coordinates);
- what the `dragElement` resolver did (`ResolverCall`: returned a node or null, or
  threw).

Timer callbacks are methods the host calls: `AnimationFinished` and
`RefreshTimerFired`. The `dragEnd` call is the result of `MouseUp`.

Quirks of the code that the model follows:
- Construction binds and takes the first snapshot at once. Line 38 passes the
  result of `init()` to `_debounce`, so nothing is debounced.
- A press raises only `isMousedown` (line 74). A second press in the middle
  of a session leaves `isMousemove` as it was, so the following mouseup can
  report the diff without a move after that press.
- `destroy()` detaches only the container's mousedown listener.
  - `_unbindEventListener` removes the unwrapped `_getChildrenRect`, but the
    debounced wrappers were registered. So the scroll, resize and
    orientationchange listeners stay.
  - The document handlers stay too, and no timer is cancelled.
  - `_destroyClone` throws when no overlay exists, so destroy is only defined
    during a press.
- The debounce keeps its pending handle on the wrapped function. All four
  viewport listeners wrap the same bound `_getChildrenRect`, so they share a
  single pending refresh.

## Model

| member | source | states |
|---|---|---|
| Geometry.Snapshot | src/index.js:53-58 | the cache has exactly one entry per child, and entry k is the box of child k |
| Geometry.Contains | src/index.js:105 | the hit condition: the pointer lies strictly inside the box on both axes, so a point on an edge is outside |
| Geometry.HitIndex | src/index.js:103-106 | the hit is a slot strictly containing the point with no earlier slot containing it; no hit means no slot contains it |
| Geometry.EdgeIsOutside | src/index.js:105 | a pointer on any edge of slot k never selects slot k |
| Geometry.FirstSlotWins | src/index.js:103-127 | with two slots containing the pointer, the later one is never chosen and the hit is at or before the earlier one |
| ChildList.IndexOf | src/index.js:167-168 | `indexOf`: a found index holds the element with no earlier occurrence; not found exactly when the element is absent |
| ChildList.IndexOfDistinct | src/index.js:167 | in a list without repeats, the lookup of the element at k returns k |
| ChildList.NextSibling | src/index.js:110 | `nextElementSibling`: the child after position i, or null for the last child |
| ChildList.InsertBefore | src/index.js:110-113 | `insertBefore(x, ref)` on a child x: x is detached and put back immediately before ref, or at the end when ref is null |
| ChildList.Relocation | src/index.js:109-115 | the direction rule: moving forward (j < i) inserts before the next sibling of the child at i, moving backward inserts before the child at i |
| ChildList.Moved | src/index.js:108-116 | the reference definition the direction rule is proved against: remove the child at j, insert it at i |
| ChildList.RemoveAt | src/index.js:110-113 | taking out position j shortens the list by one, keeps the prefix and shifts the suffix down |
| ChildList.RemoveAtDistinct | src/index.js:110-113 | removing one element keeps a list free of repeats |
| ChildList.RelocationIsMoved | src/index.js:108-116 | both `insertBefore` branches of the direction rule equal "remove at j, insert at i" |
| ChildList.MovedPositions | src/index.js:108-116 | the dragged element ends at i, the drop element sits just before it (forward) or just after it (backward), positions outside [min(j,i), max(j,i)] are untouched, and those inside shift by one toward j |
| ChildList.MovedKeepsOrder | src/index.js:108-116 | removing the dragged element again gives the original list without it: every other child keeps its relative order |
| ChildList.MovedSameElements | src/index.js:108-116 | relocation keeps the multiset of children |
| ChildList.MovedDistinct | src/index.js:108-116 | relocation of a list without repeats has no repeats |
| ChildList.RelocationForwardExample | src/index.js:109-111 | for [A,B,C,D], A dropped onto C gives [B,C,A,D] |
| ChildList.RelocationBackwardExample | src/index.js:112-114 | for [A,B,C,D], D dropped onto B gives [A,D,B,C] |
| Dom.ParentNode | src/index.js:178 | `parentNode`: the linked parent, or null for a node without one |
| Dom.Ancestors | src/index.js:178-182 | the nodes the `parentNode` walk visits from a node, nearest first, up to the root |
| Dom.IsStrictAncestor | src/index.js:175-185 | the relation `_isChildOf` decides: the ancestor is reached by one or more `parentNode` steps |
| Dom.AncestorsAreShallower | src/index.js:179-182 | every node reached by the `parentNode` walk is strictly shallower than its start, so the walk ends |
| Dom.NotOwnAncestor | src/index.js:175-185 | no node is its own strict ancestor, so `_isChildOf(e, e)` is false |
| Dom.FirstEnclosing | src/index.js:170-172 | the result is the first child that is a strict ancestor of the node; none exactly when no child is |
| Dom.ElementIndex | src/index.js:163-173 | a resolved index is in range; a direct child resolves to a slot holding it; any other node resolves to a slot whose child encloses it |
| Dom.ElementIndexCases | src/index.js:163-173 | direct lookup first (the first occurrence), otherwise the first enclosing child, otherwise none exactly when no child encloses the node |
| Dom.DirectChildResolves | src/index.js:167-168 | a direct child at position k resolves to k |
| Dom.NestedResolves | src/index.js:170-172 | a non-child whose first enclosing child is at k resolves to k |
| DraggableController.RelocationStep | src/index.js:108-116 | one relocation yields `Moved`, keeps length and distinctness, puts the dragged node at i and the drop node beside it |
| DraggableController.Draggable.constructor | src/index.js:14-47 | options are stored (delay 300 when missing or 0); with a container the mousedown and viewport listeners are bound and the cache is the snapshot of the children; without one nothing is bound; the session starts empty and the invariant holds |
| DraggableController.Draggable.Destroy | src/index.js:48-51 | the mousedown listener is gone, the viewport listeners stay, and the session is reset |
| DraggableController.Draggable.RefreshRects | src/index.js:53-58 | the old entries are discarded and the cache becomes one box per child, in child order |
| DraggableController.Draggable.Admits | src/index.js:60-61 | the mousedown guards: the primary button, and a target other than the container |
| DraggableController.Draggable.Candidate | src/index.js:63-73 | the node to drag: the resolver's answer when one is configured, with null and a throw both meaning no node; otherwise the event target |
| DraggableController.Draggable.MouseDown | src/index.js:59-73 | a non-primary button or a press on the container changes nothing; otherwise an empty cache is filled first; a resolver that returns null or throws changes nothing more; a resolved node arms the session on its index |
| DraggableController.Draggable.Arm | src/index.js:68-85 | the session is armed on the resolved index of the node: `isMousedown` and the document listeners on, `isMousemove` left as it was, drag record `{node, k, k}`, overlay on slot k, the diff's old rect is slot k; the invariant holds |
| DraggableController.Draggable.Place | src/index.js:74-85 | with index k known: the drag record, the overlay position and the diff's old rect are set from slot k, `isMousedown` and the document listeners are turned on, and `isMousemove` is left as it was |
| DraggableController.Draggable.MouseMove | src/index.js:87-128 | the overlay is attached and shifted by the pointer delta, a move is recorded; with no hit the list, drag, drop and diff are unchanged; with a hit the state is as `Dropped` describes; the invariant holds |
| DraggableController.Draggable.Follow | src/index.js:88-100 | the overlay is attached and moved by exactly the pointer's travel since the last event; it keeps the invariant that the overlay is off the corner of the box the press started on, as that box was at the press, by the total travel since the press, so the per-move deltas telescope |
| DraggableController.Draggable.HitTest | src/index.js:103-106 | the loop returns exactly `HitIndex` of the cache |
| DraggableController.Draggable.Drop | src/index.js:103-127 | the drop record names slot i's child with lastIndex i, and the diff's new rect is slot i; a hit on the dragged node itself leaves the list, drag, drop index, diff nodes and animations unchanged; otherwise the relocation happens |
| DraggableController.Draggable.Relocate | src/index.js:107-123 | the list becomes `Moved(old, drag.index, i)`, drag is `{node, i, i}`, the drop index is i-1 or i+1 and names the old occupant of i, both nodes get a fresh animation from their old slot, and the diff names both nodes |
| DraggableController.Draggable.MoveDragged | src/index.js:109-115 | forward inserts before the drop node's next sibling, that is right after the drop node, and sets drop.index to i-1; backward inserts before the drop node and sets i+1; the result is `Moved` and keeps the list without repeats |
| DraggableController.Draggable.Displace | src/index.js:116-122 | drag takes slot i, each node's animation starts at its old slot box minus its new one, two fresh timer handles, the diff names the dragged and drop nodes |
| DraggableController.Draggable.MouseUp | src/index.js:129-140 | the callback gets the diff exactly when the press saw a move and `dragEnd` is set; afterwards both flags are false, the document handlers are off, and the overlay and diff are reset, while drag, drop and the cache keep their values |
| DraggableController.Draggable.DestroyClone | src/index.js:159-162 | the overlay record returns to its empty value |
| DraggableController.Draggable.GetElementIndex | src/index.js:163-173 | the lookup and the ancestor loop return exactly `ElementIndex` of the dragged node |
| DraggableController.Draggable.IsChildOf | src/index.js:175-185 | true exactly when both arguments are present and the second is reached from the first by one or more `parentNode` steps |
| DraggableController.Draggable.Animate | src/index.js:186-198 | the element starts offset so that it sits on its old box, any previous timer on it is replaced by a fresh handle, and the slide lasts `delay` |
| DraggableController.Draggable.AnimationFinished | src/index.js:193-197 | the element's pending animation is cleared and nothing else changes |
| DraggableController.Draggable.ViewportChanged | src/index.js:243-250 | with the viewport listeners bound, the pending refresh is replaced by a fresh handle, so at most one refresh is pending |
| DraggableController.Draggable.RefreshTimerFired | src/index.js:246-248 | the pending refresh runs: the cache becomes the snapshot of the current children |
| DraggableController.Draggable.ResetState | src/index.js:212-220 | both flags false, cache empty, drag and drop `{null, 0, 0}`, overlay and diff reset |
| DraggableController.Draggable.ClearDiff | src/index.js:221-226 | the diff record returns to `{old: {null, {}}, new: {null, {}}}` |

## Left out

- Styling and painting are foreign browser calls:
  - `_styled`, including its computed-style read path and the `px` suffix rule;
  - the `translate3d` strings;
  - `_initCloneElement`'s class and style assignments and `_handleCloneMove`;
  - the forced reflow through `offsetLeft`.
- `cloneNode`, `appendChild` and `remove` of the overlay: the overlay is a record of the node it copies, its offset and an `attached` flag. The `exist` field of the clone record itself is never read or set to true, so it is not modelled.
- Event binding (`_bindEventListener`, `_unbindEventListener`) is reduced to the flags `mousedownBound`, `viewportBound` and `listening`. A handler method can only be called while its flag allows it. `scrollElement` is not modelled separately, because it only selects which element carries one of the viewport listeners.
- Real time: timers are abstract handles taken from a counter. Elapsed time, `setTimeout` scheduling order and the 50 ms window are not modelled.
- Floating point: boxes and pointer coordinates are integers.
- Host mutations of the document between events: `children` and `parentOf` change only through the controller's own relocation.
- `rollup.config.js`: build tooling with no runtime logic.
- DraggableController.Draggable.MouseMove requires that a hit implies the dragged node is a direct child. For a nested node, `insertBefore` at lines 110 and 113 would move it out of its own parent into the container. That changes the tree, and the model does not follow it.
- DraggableController.Draggable.MouseMove, DraggableController.Draggable.MouseUp: both require a press in progress. The model does not cover a document handler left installed after `destroy()`, which throws at `clone.element` (lines 143 and 160). The `isMousedown` guard at line 93 is not reachable without that throw, so it is not modelled as a branch.
- DraggableController.Draggable.MouseDown requires that index resolution succeeds once the guards pass. When it fails, line 82 reads `.left` of an undefined rect and throws, and the model does not cover that path.
- DraggableController.Draggable.MouseUp models the `dragEnd` call at line 134 as always returning. A callback that throws would skip lines 136-139. Both flags would stay true and the overlay would stay in the page, although lines 130-131 have already removed the document handlers. That path is not modelled.
- DraggableController.Draggable.constructor does not model the `console.error` report at line 42 for a missing container. It models only that nothing is bound, because logging is I/O.
- The move and up handlers are one document-wide pair, `document.onmousemove` and `document.onmouseup`. The model's `listening` flag is per instance. So the model cannot show a second controller's press overwriting the first one's handlers.
- DraggableController.Draggable.Destroy requires a container and an overlay. Without them `destroy()` throws, at line 237 or line 160.
