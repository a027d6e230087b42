/**
 * The container's ordered child list, as a sequence of distinct handles, and the
 * one mutation the controller performs on it: moving one child next to another.
 */
module ChildList {
  import opened Wrappers

  /** A DOM child list never holds the same node twice. */
  predicate NoDup<T(==)>(s: seq<T>) {
    forall a, b :: 0 <= a < b < |s| ==> s[a] != s[b]
  }

  /** The position of the first occurrence of `x`, as `Array.prototype.indexOf` finds it. */
  function IndexOf<T(==)>(s: seq<T>, x: T): (r: Option<nat>)
    ensures r.Some? ==> r.value < |s| && s[r.value] == x && x !in s[..r.value]
    ensures r.None? <==> x !in s
  {
    if s == [] then None
    else if s[0] == x then Some(0)
    else match IndexOf(s[1..], x)
      case None => None
      case Some(k) =>
        assert s[..k + 1] == [s[0]] + s[1..][..k];
        Some(k + 1)
  }

  lemma IndexOfDistinct<T>(s: seq<T>, k: nat)
    requires NoDup(s) && k < |s|
    ensures IndexOf(s, s[k]) == Some(k)
  {
  }

  /** The sequence without its element at position `j`. */
  function RemoveAt<T>(s: seq<T>, j: nat): (r: seq<T>)
    requires j < |s|
    ensures |r| == |s| - 1
    ensures forall k :: 0 <= k < j ==> r[k] == s[k]
    ensures forall k :: j <= k < |r| ==> r[k] == s[k + 1]
  {
    s[..j] + s[j + 1..]
  }

  /** Reference definition of one relocation: take the element at `j` out, put it back at `i`. */
  function Moved<T>(s: seq<T>, j: nat, i: nat): seq<T>
    requires j < |s| && i < |s|
  {
    var t := RemoveAt(s, j);
    t[..i] + [s[j]] + t[i..]
  }

  /** `nextElementSibling` of the child at `i`; `None` for the last child. */
  function NextSibling<T>(s: seq<T>, i: nat): Option<T>
    requires i < |s|
  {
    if i + 1 < |s| then Some(s[i + 1]) else None
  }

  /**
   * `parent.insertBefore(x, ref)` on a child `x` of the same parent: `x` is detached
   * and re-inserted right before `ref`, or appended when `ref` is null.
   */
  function InsertBefore<T(==)>(s: seq<T>, x: T, ref: Option<T>): seq<T>
    requires x in s
    requires ref.Some? ==> ref.value in s && ref.value != x
  {
    var t := RemoveAt(s, IndexOf(s, x).value);
    match ref
    case None => t + [x]
    case Some(n) =>
      assert n in t by {
        var p := IndexOf(s, n).value;
        var j := IndexOf(s, x).value;
        assert p != j;
        if p < j { assert t[p] == n; } else { assert t[p - 1] == n; }
      }
      var k := IndexOf(t, n).value;
      t[..k] + [x] + t[k..]
  }

  /**
   * The direction rule of the move handler: moving forward (`j < i`) the dragged child goes
   * right after the drop child, moving backward right before it.
   */
  function Relocation<T(==)>(s: seq<T>, j: nat, i: nat): seq<T>
    requires NoDup(s) && j < |s| && i < |s| && j != i
  {
    if j < i then InsertBefore(s, s[j], NextSibling(s, i))
    else InsertBefore(s, s[j], Some(s[i]))
  }

  lemma RemoveAtDistinct<T>(s: seq<T>, j: nat)
    requires NoDup(s) && j < |s|
    ensures NoDup(RemoveAt(s, j))
  {
    var t := RemoveAt(s, j);
    forall a, b | 0 <= a < b < |t| ensures t[a] != t[b] {
      var a' := if a < j then a else a + 1;
      var b' := if b < j then b else b + 1;
      assert t[a] == s[a'] && t[b] == s[b'] && a' < b';
    }
  }

  /** The main theorem: the direction rule is exactly "remove at `j`, insert at `i`". */
  lemma RelocationIsMoved<T>(s: seq<T>, j: nat, i: nat)
    requires NoDup(s) && j < |s| && i < |s| && j != i
    ensures Relocation(s, j, i) == Moved(s, j, i)
  {
    IndexOfDistinct(s, j);
    var t := RemoveAt(s, j);
    RemoveAtDistinct(s, j);
    if j < i {
      if i + 1 < |s| {
        assert t[i] == s[i + 1];
        IndexOfDistinct(t, i);
      } else {
        assert t[..i] == t && t[i..] == [];
      }
    } else {
      assert t[i] == s[i];
      IndexOfDistinct(t, i);
    }
  }

  /** The moved element lands at `i`, and the drop element at its new index. */
  lemma MovedPositions<T>(s: seq<T>, j: nat, i: nat)
    requires j < |s| && i < |s|
    ensures |Moved(s, j, i)| == |s|
    ensures Moved(s, j, i)[i] == s[j]
    ensures j < i ==> Moved(s, j, i)[i - 1] == s[i]
    ensures i < j ==> Moved(s, j, i)[i + 1] == s[i]
    ensures forall k :: 0 <= k < |s| && k < i && k < j ==> Moved(s, j, i)[k] == s[k]
    ensures forall k :: 0 <= k < |s| && k > i && k > j ==> Moved(s, j, i)[k] == s[k]
    ensures j < i ==> forall k :: j <= k < i ==> Moved(s, j, i)[k] == s[k + 1]
    ensures i < j ==> forall k :: i < k <= j ==> Moved(s, j, i)[k] == s[k - 1]
  {
  }

  /** Every other child keeps its relative order: dropping the moved one from both sides agrees. */
  lemma MovedKeepsOrder<T>(s: seq<T>, j: nat, i: nat)
    requires j < |s| && i < |s|
    ensures RemoveAt(Moved(s, j, i), i) == RemoveAt(s, j)
  {
    var t := RemoveAt(s, j);
    var m := Moved(s, j, i);
    assert m == t[..i] + [s[j]] + t[i..];
    assert RemoveAt(m, i) == t;
  }

  /** Taking one element out and putting it back keeps the multiset of elements. */
  lemma MovedSameElements<T>(s: seq<T>, j: nat, i: nat)
    requires j < |s| && i < |s|
    ensures multiset(Moved(s, j, i)) == multiset(s)
  {
    var t := RemoveAt(s, j);
    assert s == s[..j] + [s[j]] + s[j + 1..];
    assert t == s[..j] + s[j + 1..];
    assert t == t[..i] + t[i..];
    calc {
      multiset(Moved(s, j, i));
      multiset(t[..i]) + multiset{s[j]} + multiset(t[i..]);
      multiset(t) + multiset{s[j]};
      multiset(s);
    }
  }

  /** A relocation of a list without repeats has no repeats. */
  lemma MovedDistinct<T>(s: seq<T>, j: nat, i: nat)
    requires j < |s| && i < |s| && NoDup(s)
    ensures NoDup(Moved(s, j, i))
  {
    var t := RemoveAt(s, j);
    RemoveAtDistinct(s, j);
    var m := Moved(s, j, i);
    assert |m| == |s|;
    forall a, b | 0 <= a < b < |m| ensures m[a] != m[b] {
      if a == i || b == i {
        var o := if a == i then b else a;
        var o' := if o < i then o else o - 1;
        assert m[o] == t[o'];
        var p := if o' < j then o' else o' + 1;
        assert t[o'] == s[p] && p != j;
      } else {
        var a' := if a < i then a else a - 1;
        var b' := if b < i then b else b - 1;
        assert m[a] == t[a'] && m[b] == t[b'] && a' < b';
      }
    }
  }

  /** Dragging the first of four children onto the third puts it third. */
  lemma RelocationForwardExample<T>(a: T, b: T, c: T, d: T)
    requires NoDup([a, b, c, d])
    ensures Relocation([a, b, c, d], 0, 2) == [b, c, a, d]
  {
    var s := [a, b, c, d];
    RelocationIsMoved(s, 0, 2);
    var t := RemoveAt(s, 0);
    assert t == [b, c, d];
    assert Moved(s, 0, 2) == [b, c] + [a] + [d];
  }

  /** Dragging the last of four children onto the second puts it second. */
  lemma RelocationBackwardExample<T>(a: T, b: T, c: T, d: T)
    requires NoDup([a, b, c, d])
    ensures Relocation([a, b, c, d], 3, 1) == [a, d, b, c]
  {
    var s := [a, b, c, d];
    RelocationIsMoved(s, 3, 1);
    var t := RemoveAt(s, 3);
    assert t == [a, b, c];
    assert Moved(s, 3, 1) == [a] + [d] + [b, c];
  }
}
