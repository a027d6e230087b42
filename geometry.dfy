/** Bounding boxes, the geometry cache and the hit test of the reorder controller. */
module Geometry {
  import opened Wrappers

  /** A bounding box as the host reports it, in integer pixel coordinates. */
  datatype Rect = Rect(left: int, right: int, top: int, bottom: int)

  /** The pointer lies strictly inside the box: a point on an edge is outside. */
  predicate Contains(r: Rect, x: int, y: int) {
    r.left < x < r.right && r.top < y < r.bottom
  }

  /** One box per item, in item order: the geometry cache taken at one instant. */
  function Snapshot<T>(items: seq<T>, box: T -> Rect): (rects: seq<Rect>)
    ensures |rects| == |items|
    ensures forall k :: 0 <= k < |items| ==> rects[k] == box(items[k])
  {
    seq(|items|, k requires 0 <= k < |items| => box(items[k]))
  }

  /** The first slot, in cache order, whose box strictly contains the pointer. */
  function HitIndex(rects: seq<Rect>, x: int, y: int): (hit: Option<nat>)
    ensures hit.Some? ==> hit.value < |rects| && Contains(rects[hit.value], x, y)
    ensures hit.Some? ==> forall k :: 0 <= k < hit.value ==> !Contains(rects[k], x, y)
    ensures hit.None? ==> forall k :: 0 <= k < |rects| ==> !Contains(rects[k], x, y)
  {
    if rects == [] then None
    else if Contains(rects[0], x, y) then Some(0)
    else match HitIndex(rects[1..], x, y)
      case None => None
      case Some(k) => Some(k + 1)
  }

  /** A pointer on any edge of slot `k` never selects slot `k`. */
  lemma EdgeIsOutside(rects: seq<Rect>, x: int, y: int, k: nat)
    requires k < |rects|
    requires x == rects[k].left || x == rects[k].right || y == rects[k].top || y == rects[k].bottom
    ensures HitIndex(rects, x, y) != Some(k)
  {
  }

  /** When slots overlap, the earlier one wins. */
  lemma FirstSlotWins(rects: seq<Rect>, x: int, y: int, a: nat, b: nat)
    requires a < b < |rects|
    requires Contains(rects[a], x, y) && Contains(rects[b], x, y)
    ensures HitIndex(rects, x, y) != Some(b)
    ensures HitIndex(rects, x, y).Some? && HitIndex(rects, x, y).value <= a
  {
  }
}
