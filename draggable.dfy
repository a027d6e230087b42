/**
 * The `Draggable` reorder controller: a drag session state machine over the
 * container's child list, a cached geometry snapshot used as fixed slots, the
 * relocation rule, index resolution, the overlay position and the timers.
 */
module DraggableController {
  import opened Wrappers
  import opened Geometry
  import opened ChildList
  import opened Dom

  /** `drag` and `drop`: the node, its current index and its index before the last relocation. */
  datatype Slot = Slot(element: Option<Node>, index: nat, lastIndex: nat)
  const EmptySlot := Slot(None, 0, 0)

  /**
   * The overlay: which node it is a deep copy of, its translation, and whether the
   * copy has been appended to the page (the `exist` mark set on the copy itself).
   */
  datatype Overlay = Overlay(copyOf: Option<Node>, x: int, y: int, attached: bool)
  const NoOverlay := Overlay(None, 0, 0, false)

  /** One side of the diff record handed to the completion callback; `{}` is `None`. */
  datatype Side = Side(node: Option<Node>, rect: Option<Rect>)
  datatype Diff = Diff(before: Side, after: Side)
  const EmptyDiff := Diff(Side(None, None), Side(None, None))

  /**
   * A displacement animation: the element starts offset by (`fromX`, `fromY`), which
   * puts it back at its old slot, slides to its new slot over `duration` ms, and
   * `timer` is the pending handle kept on the element (`element.animated`).
   */
  datatype Animation = Animation(fromX: int, fromY: int, duration: int, timer: nat)

  datatype MouseDownEvent = MouseDownEvent(button: int, target: Node, x: int, y: int)

  /** What one call of the host's drag-element resolver did. */
  datatype ResolverCall = Returned(node: Option<Node>) | Threw

  const DefaultDelay := 300

  /** What one relocation does to the document model, in the facts the controller's invariant needs. */
  lemma RelocationStep(c0: seq<Node>, j: nat, i: nat)
    requires NoDup(c0) && j < |c0| && i < |c0| && j != i
    ensures Relocation(c0, j, i) == Moved(c0, j, i)
    ensures |Moved(c0, j, i)| == |c0| && NoDup(Moved(c0, j, i))
    ensures Moved(c0, j, i)[i] == c0[j]
    ensures j < i ==> Moved(c0, j, i)[i - 1] == c0[i]
    ensures i < j ==> Moved(c0, j, i)[i + 1] == c0[i]
  {
    RelocationIsMoved(c0, j, i);
    MovedPositions(c0, j, i);
    MovedDistinct(c0, j, i);
  }

  class Draggable {
    // Options given at construction.
    const parent: Option<Node>          // groupElement
    const hasResolver: bool             // dragElement is configured
    const hasDragEnd: bool              // dragEnd is configured
    const delay: int                    // animation duration in ms

    // The document as far as the controller sees it.
    var children: seq<Node>             // parent.children, in order
    const parentOf: map<Node, Node>     // parentNode links
    ghost const depth: map<Node, nat>   // witnesses that the links are acyclic

    // Listener registration.
    var mousedownBound: bool            // the container's mousedown listener
    var viewportBound: bool             // the debounced scroll/resize/orientationchange listeners
    var listening: bool                 // document.onmousemove / onmouseup are installed

    // Session state.
    var rectList: seq<Rect>
    var isMousedown: bool
    var isMousemove: bool
    var drag: Slot
    var drop: Slot
    var clone: Overlay
    var diff: Diff
    var lastX: int                      // the closure's calcXY
    var lastY: int

    // Timers: handles are never reused.
    var refreshTimer: Option<nat>       // the debounced refresh's pending handle
    var animations: map<Node, Animation>
    var nextTimer: nat

    // Where the pointer went down and where the overlay started in this session.
    ghost var downX: int
    ghost var downY: int
    ghost var anchorX: int
    ghost var anchorY: int

    /**
     * While a session is armed: `drag.index` is a valid slot, and the child there is the
     * dragged node itself or a strict ancestor of it.
     */
    ghost predicate Armed()
      reads this`drag, this`children, this`rectList
    {
      && Layered(parentOf, depth)
      && drag.element.Some?
      && drag.index < |children|
      && |rectList| == |children|
      && drag.lastIndex == drag.index
      && (drag.element.value in children ==> children[drag.index] == drag.element.value)
      && (drag.element.value !in children ==> IsStrictAncestor(parentOf, depth, children[drag.index], drag.element.value))
    }

    /** The document: acyclic parent links and a child list without repeats. */
    ghost predicate DocumentValid()
      reads this`children
    {
      Layered(parentOf, depth) && NoDup(children)
    }

    /** The cache is empty or holds one slot per child. */
    ghost predicate CacheValid()
      reads this`rectList, this`children
    {
      rectList == [] || |rectList| == |children|
    }

    /** A move is only recorded inside a press, and a press always has an overlay and an armed drag. */
    ghost predicate SessionValid()
      reads this`isMousedown, this`isMousemove, this`clone, this`listening, this`drag, this`children, this`rectList
    {
      && (isMousemove ==> isMousedown)
      && (isMousedown <==> clone.copyOf.Some?)
      && (isMousedown ==> listening && Armed())
    }

    /** The overlay is off its start by the pointer's travel since the press. */
    ghost predicate OverlayValid()
      reads this`isMousedown, this`clone, this`lastX, this`lastY, this`downX, this`downY, this`anchorX, this`anchorY
    {
      isMousedown ==> clone.x == anchorX + (lastX - downX) && clone.y == anchorY + (lastY - downY)
    }

    /** Every pending timer handle was issued before `nextTimer`. */
    ghost predicate TimersValid()
      reads this`refreshTimer, this`animations, this`nextTimer
    {
      && (refreshTimer.Some? ==> refreshTimer.value < nextTimer)
      && (forall n :: n in animations ==> animations[n].timer < nextTimer)
    }

    ghost predicate Valid()
      reads this
    {
      && DocumentValid()
      && CacheValid()
      && (mousedownBound ==> parent.Some?)
      && SessionValid()
      && OverlayValid()
      && TimersValid()
    }

    /** The session may relocate: the dragged node is itself a direct child. */
    predicate DraggedIsChild()
      reads this
    {
      drag.element.Some? && drag.element.value in children
    }

    /** The mousedown guards: primary button, and the press is not on the container itself. */
    predicate Admits(e: MouseDownEvent) {
      e.button == 0 && parent != Some(e.target)
    }

    /** The node to drag: the resolver's answer when one is configured (a throw means none), else the target. */
    function Candidate(e: MouseDownEvent, call: ResolverCall): Option<Node> {
      if !hasResolver then Some(e.target)
      else match call
        case Returned(n) => n
        case Threw => None
    }

    /**
     * Construction binds the listeners and takes the first snapshot at once: the
     * debounce wrapper around the result of `init()` is never called.
     */
    constructor (group: Option<Node>, children: seq<Node>, parentOf: map<Node, Node>, ghost depth: map<Node, nat>,
                 hasResolver: bool, hasDragEnd: bool, delay: Option<int>, box: Node -> Rect)
      requires Layered(parentOf, depth) && NoDup(children)
      ensures Valid()
      ensures this.parent == group && this.children == children && this.parentOf == parentOf && this.depth == depth
      ensures this.hasResolver == hasResolver && this.hasDragEnd == hasDragEnd
      ensures this.delay == if delay.None? || delay == Some(0) then DefaultDelay else delay.value
      ensures mousedownBound == group.Some? && viewportBound == group.Some? && !listening
      ensures rectList == if group.Some? then Snapshot(children, box) else []
      ensures !isMousedown && !isMousemove
      ensures drag == EmptySlot && drop == EmptySlot && clone == NoOverlay && diff == EmptyDiff
      ensures refreshTimer == None && animations == map[]
    {
      this.parent := group;
      this.hasResolver := hasResolver;
      this.hasDragEnd := hasDragEnd;
      this.delay := if delay.None? || delay == Some(0) then DefaultDelay else delay.value;
      this.children := children;
      this.parentOf := parentOf;
      this.depth := depth;
      mousedownBound, viewportBound, listening := false, false, false;
      rectList := [];
      isMousedown, isMousemove := false, false;
      drag, drop, clone, diff := EmptySlot, EmptySlot, NoOverlay, EmptyDiff;
      lastX, lastY := 0, 0;
      refreshTimer, animations, nextTimer := None, map[], 0;
      new;
      if group.Some? {
        mousedownBound, viewportBound := true, true;
        RefreshRects(box);
      }
    }

    /** `destroy()`: unbinds and resets. The scroll/resize listeners and the document handlers stay. */
    method Destroy()
      requires Valid() && parent.Some?
      requires clone.copyOf.Some?   // `_destroyClone` dereferences the overlay
      modifies this`mousedownBound, this`isMousedown, this`isMousemove, this`rectList, this`drag, this`drop, this`clone, this`diff
      ensures Valid()
      ensures !mousedownBound && viewportBound == old(viewportBound) && listening == old(listening)
      ensures !isMousedown && !isMousemove && rectList == []
      ensures drag == EmptySlot && drop == EmptySlot && clone == NoOverlay && diff == EmptyDiff
    {
      mousedownBound := false;
      ResetState();
    }

    /** `_getChildrenRect`: the cache is emptied and refilled with one box per child, in child order. */
    method RefreshRects(box: Node -> Rect)
      modifies this`rectList
      ensures rectList == Snapshot(children, box)
    {
      rectList := [];
      for k := 0 to |children|
        invariant |rectList| == k
        invariant forall m :: 0 <= m < k ==> rectList[m] == box(children[m])
      {
        rectList := rectList + [box(children[k])];
      }
    }

    /** The mousedown listener: either leaves the session as it was or arms it on the resolved node. */
    method MouseDown(e: MouseDownEvent, call: ResolverCall, box: Node -> Rect)
      requires Valid() && mousedownBound
      // src/index.js:82 reads the box of the resolved index, so resolution must succeed.
      requires Admits(e) && Candidate(e, call).Some? ==> ElementIndex(children, parentOf, depth, Candidate(e, call).value).Some?
      modifies this`rectList, this`isMousedown, this`drag, this`clone, this`diff, this`lastX, this`lastY, this`listening
      modifies this`downX, this`downY, this`anchorX, this`anchorY
      ensures Valid()
      ensures !Admits(e) ==> unchanged(this)
      ensures Admits(e) ==> rectList == if old(rectList) == [] then Snapshot(children, box) else old(rectList)
      ensures Admits(e) && Candidate(e, call).None? ==>
        && isMousedown == old(isMousedown) && listening == old(listening)
        && drag == old(drag) && clone == old(clone) && diff == old(diff)
        && lastX == old(lastX) && lastY == old(lastY)
      ensures Admits(e) && Candidate(e, call).Some? ==>
        && ElementIndex(children, parentOf, depth, Candidate(e, call).value) == Some(drag.index)
        && ArmedOn(Candidate(e, call).value, drag.index, e.x, e.y, old(diff))
    {
      if e.button != 0 { return; }
      if parent == Some(e.target) { return; }
      if rectList == [] {
        RefreshRects(box);
      }
      var element := Candidate(e, call);
      if element.None? { return; }
      Arm(element.value, e.x, e.y);
    }

    /**
     * The session armed on `element`, pressed at (`x`, `y`): the drag record names it at
     * its resolved index `k`, the overlay copy sits on slot `k`, and the diff's old rect is
     * that slot.
     */
    ghost predicate ArmedOn(element: Node, k: nat, x: int, y: int, diff0: Diff)
      reads this`rectList, this`isMousedown, this`listening, this`drag, this`clone, this`diff, this`lastX, this`lastY
    {
      && k < |rectList|
      && isMousedown && listening
      && drag == Slot(Some(element), k, k)
      && clone == Overlay(Some(element), rectList[k].left, rectList[k].top, false)
      && diff == diff0.(before := diff0.before.(rect := Some(rectList[k])))
      && lastX == x && lastY == y
    }

    /** src/index.js:69-85: record the node, raise the flag, copy it into the overlay and place it on its slot. */
    method Arm(element: Node, x: int, y: int)
      requires Valid() && rectList != []
      requires ElementIndex(children, parentOf, depth, element).Some?
      modifies this`isMousedown, this`drag, this`clone, this`diff, this`lastX, this`lastY, this`listening
      modifies this`downX, this`downY, this`anchorX, this`anchorY
      ensures Valid()
      ensures ElementIndex(children, parentOf, depth, element) == Some(drag.index)
      ensures ArmedOn(element, drag.index, x, y, old(diff))
    {
      drag := drag.(element := Some(element));
      var index := GetElementIndex();
      Place(element, index.value, x, y);
    }

    /** src/index.js:74-85 once the index `k` is known: the session state is rebuilt around slot `k`. */
    method Place(element: Node, k: nat, x: int, y: int)
      requires k < |rectList|
      modifies this`isMousedown, this`drag, this`clone, this`diff, this`lastX, this`lastY, this`listening
      modifies this`downX, this`downY, this`anchorX, this`anchorY
      ensures downX == x && downY == y && anchorX == clone.x && anchorY == clone.y
      ensures ArmedOn(element, k, x, y, old(diff))
    {
      var r := rectList[k];
      isMousedown, listening := true, true;
      lastX, lastY := x, y;
      clone := Overlay(Some(element), r.left, r.top, false);
      diff := diff.(before := diff.before.(rect := Some(r)));
      drag := Slot(Some(element), k, k);
      downX, downY, anchorX, anchorY := x, y, r.left, r.top;
    }

    /**
     * The effect of a relocation onto slot `i`, relative to the state before it (`c0`,
     * `drag0`, ...): the list is `Moved(c0, j, i)`, the drop node sits next to the
     * dragged one, both get a fresh animation, and the diff names both nodes.
     */
    ghost predicate Relocated(i: nat, c0: seq<Node>, drag0: Slot, anim0: map<Node, Animation>, timer0: nat)
      reads this`children, this`drop, this`rectList, this`drag, this`animations, this`nextTimer
    {
      i < |c0| && Rearranged(i, c0, drag0) && Displaced(i, c0[i], drag0, anim0, timer0)
    }

    /**
     * The list half of a relocation from slot `drag0.index` onto slot `i`: the list is
     * `Moved(c0, j, i)` and the drop index names the old occupant of slot `i`, one step
     * back towards `j`.
     */
    ghost predicate Rearranged(i: nat, c0: seq<Node>, drag0: Slot)
      reads this`children, this`drop, this`rectList
    {
      && i < |c0| && |rectList| == |c0| && drag0.element.Some? && drag0.index < |c0|
      && var j := drag0.index;
      && j != i
      && children == Moved(c0, j, i)
      && |children| == |c0|
      && children[i] == drag0.element.value
      && drop.index == (if j < i then i - 1 else i + 1)
      && drop.index < |children| && children[drop.index] == c0[i]
    }

    /**
     * The bookkeeping half: the drag record sits on slot `i`, both nodes get a fresh
     * animation from their old slot boxes, and the diff names both nodes.
     */
    ghost predicate Displaced(i: nat, target: Node, drag0: Slot, anim0: map<Node, Animation>, timer0: nat)
      reads this`drag, this`drop, this`animations, this`nextTimer, this`rectList
    {
      && i < |rectList| && drag0.index < |rectList| && drop.index < |rectList| && drag0.element.Some?
      && var j := drag0.index;
      && drag == Slot(drag0.element, i, i)
      && nextTimer == timer0 + 2
      && animations == anim0
           [drag0.element.value := Animation(rectList[j].left - rectList[i].left, rectList[j].top - rectList[i].top, delay, timer0)]
           [target := Animation(rectList[i].left - rectList[drop.index].left, rectList[i].top - rectList[drop.index].top, delay, timer0 + 1)]
    }

    /**
     * The effect of a hit on slot `i`: the drop record always moves to slot `i`; the
     * child list, the drag record and the diff nodes change only when the hit child is
     * not the dragged one.
     */
    ghost predicate Dropped(i: nat, c0: seq<Node>, drag0: Slot, drop0: Slot, diff0: Diff,
                            anim0: map<Node, Animation>, timer0: nat)
      reads this`children, this`drop, this`rectList, this`drag, this`diff, this`animations, this`nextTimer
    {
      && i < |c0| && |rectList| == |c0| && drag0.element.Some?
      && drop.element == Some(c0[i]) && drop.lastIndex == i
      && (drag0.element.value == c0[i] ==>
          && children == c0 && drag == drag0 && drop.index == drop0.index
          && diff == diff0.(after := diff0.after.(rect := Some(rectList[i])))
          && animations == anim0 && nextTimer == timer0)
      && (drag0.element.value != c0[i] ==>
          && Relocated(i, c0, drag0, anim0, timer0)
          && diff == Diff(diff0.before.(node := drag0.element), Side(Some(c0[i]), Some(rectList[i]))))
    }

    /** The document mousemove handler of an armed session. */
    method MouseMove(x: int, y: int)
      requires Valid() && isMousedown
      requires HitIndex(rectList, x, y).Some? ==> DraggedIsChild()
      modifies this`clone, this`isMousemove, this`lastX, this`lastY
      modifies this`drop, this`children, this`drag, this`diff, this`animations, this`nextTimer
      ensures Valid()
      ensures isMousemove
      ensures clone == old(clone).(x := old(clone.x) + (x - old(lastX)), y := old(clone.y) + (y - old(lastY)), attached := true)
      ensures lastX == x && lastY == y
      ensures HitIndex(rectList, x, y).None? ==>
        && children == old(children) && drag == old(drag) && drop == old(drop) && diff == old(diff)
        && animations == old(animations) && nextTimer == old(nextTimer)
      ensures HitIndex(rectList, x, y).Some? ==>
        Dropped(HitIndex(rectList, x, y).value, old(children), old(drag), old(drop), old(diff), old(animations), old(nextTimer))
    {
      Follow(x, y);
      var hit := HitTest(x, y);
      if hit.Some? {
        Drop(hit.value);
      }
    }

    /** The overlay is attached and shifted by the pointer's travel since the last event. */
    method Follow(x: int, y: int)
      requires Valid() && isMousedown
      modifies this`clone, this`isMousemove, this`lastX, this`lastY
      ensures Valid() && isMousedown
      ensures isMousemove
      ensures clone == old(clone).(x := old(clone.x) + (x - old(lastX)), y := old(clone.y) + (y - old(lastY)), attached := true)
      ensures lastX == x && lastY == y
    {
      clone := clone.(attached := true);
      isMousemove := true;
      clone := clone.(x := clone.x + (x - lastX), y := clone.y + (y - lastY));
      lastX, lastY := x, y;
    }

    /** The hit test loop: the first cached slot that strictly contains the pointer. */
    method HitTest(x: int, y: int) returns (hit: Option<nat>)
      ensures hit == HitIndex(rectList, x, y)
    {
      var i := 0;
      while i < |rectList|
        invariant i <= |rectList|
        invariant forall k :: 0 <= k < i ==> !Contains(rectList[k], x, y)
      {
        if Contains(rectList[i], x, y) {
          return Some(i);
        }
        i := i + 1;
      }
      return None;
    }

    /** The body of a hit on slot `i`: the drop record moves to `i`, and the dragged node follows unless it is the hit one. */
    method Drop(i: nat)
      requires Valid() && isMousedown && i < |rectList|
      requires children[i] != drag.element.value ==> DraggedIsChild()
      modifies this`drop, this`children, this`drag, this`diff, this`animations, this`nextTimer
      ensures Valid()
      ensures Dropped(i, old(children), old(drag), old(drop), old(diff), old(animations), old(nextTimer))
    {
      var target := children[i];
      drop := drop.(element := Some(target), lastIndex := i);
      if drag.element.value != target {
        Relocate(i);
      }
      diff := diff.(after := diff.after.(rect := Some(rectList[i])));
    }

    /** The relocation branch: the direction rule, both displacement animations, and the diff nodes. */
    method Relocate(i: nat)
      requires Valid() && isMousedown && i < |children| && DraggedIsChild()
      requires drop.element == Some(children[i]) && drop.lastIndex == i && children[i] != drag.element.value
      modifies this`drop, this`children, this`drag, this`diff, this`animations, this`nextTimer
      ensures Valid()
      ensures drop.element == old(drop.element) && drop.lastIndex == i
      ensures diff == Diff(old(diff).before.(node := old(drag).element), old(diff).after.(node := Some(old(children)[i])))
      ensures Relocated(i, old(children), old(drag), old(animations), old(nextTimer))
    {
      var target := children[i];
      MoveDragged(i);
      Displace(i, target);
    }

    /**
     * The two `insertBefore` calls of the direction rule: before the drop node's next
     * sibling (that is, right after the drop node) when moving forward, before the drop
     * node when moving backward.
     */
    method MoveDragged(i: nat)
      requires DocumentValid() && Armed() && i < |children| && DraggedIsChild()
      requires children[i] != drag.element.value
      modifies this`children, this`drop
      ensures DocumentValid()
      ensures drop == old(drop).(index := drop.index)
      ensures Rearranged(i, old(children), drag)
    {
      ghost var c0 := children;
      var j := drag.index;
      if j < i {
        children := InsertBefore(children, drag.element.value, NextSibling(children, i));
        drop := drop.(index := i - 1);
      } else {
        children := InsertBefore(children, drag.element.value, Some(children[i]));
        drop := drop.(index := i + 1);
      }
      assert children == Relocation(c0, j, i);
      RelocationStep(c0, j, i);
    }

    /** After the move: the drag record takes slot `i`, both nodes animate, the diff names both. */
    method Displace(i: nat, target: Node)
      requires TimersValid() && i < |rectList| && drag.index < |rectList| && drop.index < |rectList|
      requires drag.element.Some? && drag.lastIndex == drag.index
      requires drop.element == Some(target) && drop.lastIndex == i
      modifies this`drag, this`diff, this`animations, this`nextTimer
      ensures TimersValid()
      ensures diff == Diff(old(diff).before.(node := old(drag).element), old(diff).after.(node := Some(target)))
      ensures Displaced(i, target, old(drag), old(animations), old(nextTimer))
    {
      drag := drag.(index := i);
      Animate(drag.element.value, rectList[drag.index], rectList[drag.lastIndex]);
      Animate(target, rectList[drop.index], rectList[drop.lastIndex]);
      drag := drag.(lastIndex := i);
      diff := diff.(before := diff.before.(node := drag.element), after := diff.after.(node := drop.element));
    }

    /** The document mouseup handler: report a moved session, then tear the session down. */
    method MouseUp() returns (ended: Option<Diff>)
      requires Valid() && isMousedown
      modifies this`listening, this`isMousedown, this`isMousemove, this`clone, this`diff
      ensures Valid()
      ensures ended.Some? <==> old(isMousedown) && old(isMousemove) && hasDragEnd
      ensures ended.Some? ==> ended.value == old(diff)
      ensures !listening && !isMousedown && !isMousemove
      ensures clone == NoOverlay && diff == EmptyDiff
      ensures drag == old(drag) && drop == old(drop) && rectList == old(rectList)
    {
      listening := false;
      ended := None;
      if isMousedown && isMousemove {
        if hasDragEnd {
          ended := Some(diff);
        }
      }
      isMousedown := false;
      isMousemove := false;
      DestroyClone();
      ClearDiff();
    }

    /** `_destroyClone`: the overlay is removed and its record reset. */
    method DestroyClone()
      requires clone.copyOf.Some?   // `clone.element.remove()` on null throws
      modifies this`clone
      ensures clone == NoOverlay
    {
      clone := NoOverlay;
    }

    /** `_getElementIndex`: direct lookup of `drag.element`, then the first enclosing child. */
    method GetElementIndex() returns (index: Option<nat>)
      requires Layered(parentOf, depth) && drag.element.Some?
      ensures index == ElementIndex(children, parentOf, depth, drag.element.value)
    {
      var element := drag.element.value;
      ElementIndexCases(children, parentOf, depth, element);
      index := IndexOf(children, element);
      if index.Some? {
        return;
      }
      var i := 0;
      while i < |children|
        invariant i <= |children|
        invariant forall k :: 0 <= k < i ==> !IsStrictAncestor(parentOf, depth, children[k], element)
      {
        var inside := IsChildOf(Some(element), Some(children[i]));
        if inside {
          return Some(i);
        }
        i := i + 1;
      }
      return None;
    }

    /** `_isChildOf`: climbs `parentNode` from `child.parentNode` looking for `ancestor`. */
    method IsChildOf(child: Option<Node>, ancestor: Option<Node>) returns (inside: bool)
      requires Layered(parentOf, depth)
      ensures inside <==> child.Some? && ancestor.Some? && IsStrictAncestor(parentOf, depth, ancestor.value, child.value)
    {
      if child.Some? && ancestor.Some? {
        var cur := ParentNode(parentOf, child.value);
        while cur.Some?
          invariant cur.Some? ==> cur.value in depth
          invariant IsStrictAncestor(parentOf, depth, ancestor.value, child.value) <==>
                      cur.Some? && (cur.value == ancestor.value || ancestor.value in Ancestors(parentOf, depth, cur.value))
          decreases if cur.Some? then depth[cur.value] + 1 else 0
        {
          if ancestor.value == cur.value {
            return true;
          }
          cur := ParentNode(parentOf, cur.value);
        }
      }
      return false;
    }

    /**
     * `_animate`: the element is offset back onto its old slot, any pending timer on it is
     * replaced by a fresh one, and the slide to the new slot takes `delay` ms.
     */
    method Animate(element: Node, rect: Rect, lastRect: Rect)
      modifies this`animations, this`nextTimer
      ensures animations == old(animations)[element := Animation(lastRect.left - rect.left, lastRect.top - rect.top, delay, old(nextTimer))]
      ensures rect.left + animations[element].fromX == lastRect.left && rect.top + animations[element].fromY == lastRect.top
      ensures nextTimer == old(nextTimer) + 1
    {
      animations := animations[element := Animation(lastRect.left - rect.left, lastRect.top - rect.top, delay, nextTimer)];
      nextTimer := nextTimer + 1;
    }

    /** The animation timer fires: the element's transition and transform are cleared. */
    method AnimationFinished(element: Node)
      requires Valid() && element in animations
      modifies this`animations
      ensures Valid()
      ensures animations == old(animations) - {element}
    {
      animations := animations - {element};
    }

    /** A scroll, resize or orientation change: the one pending refresh is replaced by a new one. */
    method ViewportChanged()
      requires Valid()
      modifies this`refreshTimer, this`nextTimer
      ensures Valid()
      ensures viewportBound ==> refreshTimer == Some(old(nextTimer)) && nextTimer == old(nextTimer) + 1
      ensures viewportBound && old(refreshTimer).Some? ==> refreshTimer != old(refreshTimer)
      ensures !viewportBound ==> refreshTimer == old(refreshTimer) && nextTimer == old(nextTimer)
    {
      if viewportBound {
        refreshTimer := Some(nextTimer);
        nextTimer := nextTimer + 1;
      }
    }

    /** The debounced refresh runs: the cache is rebuilt from the current children. */
    method RefreshTimerFired(box: Node -> Rect)
      requires Valid() && refreshTimer.Some?
      modifies this`rectList, this`refreshTimer
      ensures Valid()
      ensures rectList == Snapshot(children, box) && refreshTimer == None
    {
      refreshTimer := None;
      RefreshRects(box);
    }

    /** `_resetState`: flags down, cache emptied, records back to their initial values. */
    method ResetState()
      requires clone.copyOf.Some?
      modifies this`isMousedown, this`isMousemove, this`rectList, this`drag, this`drop, this`clone, this`diff
      ensures !isMousedown && !isMousemove && rectList == []
      ensures drag == EmptySlot && drop == EmptySlot && clone == NoOverlay && diff == EmptyDiff
    {
      isMousedown := false;
      isMousemove := false;
      rectList := [];
      drag := EmptySlot;
      drop := EmptySlot;
      DestroyClone();
      ClearDiff();
    }

    /** `_clearDiff`. */
    method ClearDiff()
      modifies this`diff
      ensures diff == EmptyDiff
    {
      diff := EmptyDiff;
    }
  }
}
