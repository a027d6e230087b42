/**
 * The part of the document the controller reads: opaque node handles, the
 * `parentNode` links, and which direct child of the container encloses a node.
 */
module Dom {
  import opened Wrappers
  import opened ChildList

  /** An opaque element handle; the controller compares handles and nothing else. */
  type Node = nat

  /**
   * The `parentNode` links form a forest: every linked node and its parent carry a
   * depth, and a parent is strictly shallower than its child. `depth` exists only
   * to make the upward walk terminate; the document itself has no such field.
   */
  ghost predicate Layered(parentOf: map<Node, Node>, depth: map<Node, nat>) {
    forall n :: n in parentOf ==> n in depth && parentOf[n] in depth && depth[parentOf[n]] < depth[n]
  }

  /** `n.parentNode`, with `None` for null. */
  function ParentNode(parentOf: map<Node, Node>, n: Node): Option<Node> {
    if n in parentOf then Some(parentOf[n]) else None
  }

  /** The chain `n.parentNode`, `n.parentNode.parentNode`, ... up to the root. */
  ghost function Ancestors(parentOf: map<Node, Node>, depth: map<Node, nat>, n: Node): seq<Node>
    requires Layered(parentOf, depth)
    decreases if n in depth then depth[n] else 0
  {
    if n in parentOf then [parentOf[n]] + Ancestors(parentOf, depth, parentOf[n]) else []
  }

  /** `a` is reached from `n` by one or more `parentNode` steps. */
  ghost predicate IsStrictAncestor(parentOf: map<Node, Node>, depth: map<Node, nat>, a: Node, n: Node)
    requires Layered(parentOf, depth)
  {
    a in Ancestors(parentOf, depth, n)
  }

  /** Every ancestor is strictly shallower than the node it was reached from. */
  lemma {:induction false} AncestorsAreShallower(parentOf: map<Node, Node>, depth: map<Node, nat>, n: Node)
    requires Layered(parentOf, depth)
    ensures forall a :: a in Ancestors(parentOf, depth, n) ==> n in depth && a in depth && depth[a] < depth[n]
    decreases if n in depth then depth[n] else 0
  {
    if n in parentOf {
      AncestorsAreShallower(parentOf, depth, parentOf[n]);
    }
  }

  /** No node is its own strict ancestor, so `_isChildOf(e, e)` is false. */
  lemma NotOwnAncestor(parentOf: map<Node, Node>, depth: map<Node, nat>, n: Node)
    requires Layered(parentOf, depth)
    ensures !IsStrictAncestor(parentOf, depth, n, n)
  {
    AncestorsAreShallower(parentOf, depth, n);
  }

  /** The first direct child, in child order, that is a strict ancestor of `e`. */
  ghost function FirstEnclosing(children: seq<Node>, parentOf: map<Node, Node>, depth: map<Node, nat>, e: Node): (r: Option<nat>)
    requires Layered(parentOf, depth)
    ensures r.Some? ==> r.value < |children| && IsStrictAncestor(parentOf, depth, children[r.value], e)
    ensures r.Some? ==> forall k {:trigger IsStrictAncestor(parentOf, depth, children[k], e)} :: 0 <= k < r.value ==> !IsStrictAncestor(parentOf, depth, children[k], e)
    ensures r.None? ==> forall k {:trigger IsStrictAncestor(parentOf, depth, children[k], e)} :: 0 <= k < |children| ==> !IsStrictAncestor(parentOf, depth, children[k], e)
  {
    if children == [] then None
    else if IsStrictAncestor(parentOf, depth, children[0], e) then Some(0)
    else match FirstEnclosing(children[1..], parentOf, depth, e)
      case None => None
      case Some(k) => Some(k + 1)
  }

  /**
   * Index resolution of a dragged node: its own position when it is a direct child,
   * otherwise the position of the first direct child enclosing it, otherwise nothing.
   */
  ghost function ElementIndex(children: seq<Node>, parentOf: map<Node, Node>, depth: map<Node, nat>, e: Node): (r: Option<nat>)
    requires Layered(parentOf, depth)
    ensures r.Some? ==> r.value < |children|
    ensures e in children ==> r.Some? && children[r.value] == e
    ensures e !in children && r.Some? ==> IsStrictAncestor(parentOf, depth, children[r.value], e)
  {
    match IndexOf(children, e)
    case Some(k) => Some(k)
    case None => FirstEnclosing(children, parentOf, depth, e)
  }

  /**
   * Which index resolution picks: the first position of a direct child; for any other
   * node the first enclosing child; "none" exactly when no child encloses it.
   */
  lemma ElementIndexCases(children: seq<Node>, parentOf: map<Node, Node>, depth: map<Node, nat>, e: Node)
    requires Layered(parentOf, depth)
    ensures e in children ==> ElementIndex(children, parentOf, depth, e) == IndexOf(children, e)
    ensures e !in children ==> ElementIndex(children, parentOf, depth, e) == FirstEnclosing(children, parentOf, depth, e)
    ensures e in children ==> e !in children[..ElementIndex(children, parentOf, depth, e).value]
    ensures e !in children && ElementIndex(children, parentOf, depth, e).Some? ==>
      forall k {:trigger IsStrictAncestor(parentOf, depth, children[k], e)} ::
        0 <= k < ElementIndex(children, parentOf, depth, e).value ==> !IsStrictAncestor(parentOf, depth, children[k], e)
    ensures e !in children ==> (ElementIndex(children, parentOf, depth, e).None? <==>
      forall k {:trigger IsStrictAncestor(parentOf, depth, children[k], e)} ::
        0 <= k < |children| ==> !IsStrictAncestor(parentOf, depth, children[k], e))
  {
  }

  /** A direct child at position `k` resolves to `k`. */
  lemma DirectChildResolves(children: seq<Node>, parentOf: map<Node, Node>, depth: map<Node, nat>, k: nat)
    requires Layered(parentOf, depth) && NoDup(children) && k < |children|
    ensures ElementIndex(children, parentOf, depth, children[k]) == Some(k)
  {
    IndexOfDistinct(children, k);
  }

  /** A node nested inside the direct child at `k` (and in no earlier one) resolves to `k`. */
  lemma NestedResolves(children: seq<Node>, parentOf: map<Node, Node>, depth: map<Node, nat>, e: Node, k: nat)
    requires Layered(parentOf, depth) && e !in children && k < |children|
    requires IsStrictAncestor(parentOf, depth, children[k], e)
    requires forall m :: 0 <= m < k ==> !IsStrictAncestor(parentOf, depth, children[m], e)
    ensures ElementIndex(children, parentOf, depth, e) == Some(k)
  {
    ElementIndexCases(children, parentOf, depth, e);
  }
}
