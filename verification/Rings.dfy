/** Circular doubly linked lists with embedded nodes, as in linux/list.h. */
module Rings {

  class ListHead {
    var next: ListHead
    var prev: ListHead
    /** The structure the node is embedded in; null for a node that stands alone as a list head. */
    var entry: object?

    /** INIT_LIST_HEAD */
    constructor ()
      ensures next == this && prev == this && entry == null
    {
      next, prev, entry := this, this, null;
    }
  }

  /** The nodes, in this order, form one ring. */
  ghost predicate Ring(ns: seq<ListHead>)
    reads ns`next, ns`prev
  {
    && |ns| > 0
    && (forall i, j :: 0 <= i < j < |ns| ==> ns[i] != ns[j])
    && (forall i {:trigger After(ns, i)} :: 0 <= i < |ns| ==> ns[i].next == After(ns, i) && After(ns, i).prev == ns[i])
  }

  /** The node after node i of the ring. */
  ghost function After(ns: seq<ListHead>, i: int): ListHead
    requires 0 <= i < |ns|
  {
    if i + 1 < |ns| then ns[i + 1] else ns[0]
  }

  lemma RingAt(ns: seq<ListHead>, i: int)
    requires Ring(ns) && 0 <= i < |ns|
    ensures ns[i].next == After(ns, i) && After(ns, i).prev == ns[i]
    ensures forall j :: 0 <= j < |ns| && ns[j] == ns[i] ==> j == i
    ensures i > 0 ==> ns[i] != ns[0]
  {
  }

  ghost function Rotated(ns: seq<ListHead>, k: int): seq<ListHead>
    requires 0 <= k <= |ns|
  {
    ns[k..] + ns[..k]
  }

  lemma RotatedRing(ns: seq<ListHead>, k: int)
    requires Ring(ns) && 0 <= k <= |ns|
    ensures Ring(Rotated(ns, k))
  {
    var rs := Rotated(ns, k);
    forall i | 0 <= i < |rs| ensures rs[i].next == After(rs, i) && After(rs, i).prev == rs[i] {
      var j := if i < |ns| - k then i + k else i - (|ns| - k);
      assert rs[i] == ns[j];
      assert ns[j].next == After(ns, j) && After(ns, j).prev == ns[j];
    }
  }

  /** Takes the first node out of its ring: __list_del_entry, list_del. */
  method Unlink(n: ListHead, ghost ns: seq<ListHead>)
    requires Ring(ns) && |ns| > 1 && n == ns[0]
    modifies n.prev`next, n.next`prev
    ensures Ring(ns[1..])
  {
    assert n.next == After(ns, 0) && ns[|ns| - 1].next == After(ns, |ns| - 1);
    n.next.prev := n.prev;
    n.prev.next := n.next;
    ghost var rs := ns[1..];
    forall i | 0 <= i < |rs| ensures rs[i].next == After(rs, i) && After(rs, i).prev == rs[i] {
      assert old(ns[i + 1].next) == After(ns, i + 1);
    }
  }

  /** Inserts a node between the last and the first node of a ring: __list_add. */
  method Append(n: ListHead, first: ListHead, ghost ns: seq<ListHead>)
    requires Ring(ns) && first == ns[0] && n !in ns
    modifies n`next, n`prev, first`prev, first.prev`next
    ensures Ring(ns + [n])
  {
    var last := first.prev;
    assert ns[|ns| - 1].next == After(ns, |ns| - 1);
    first.prev := n;
    n.next := first;
    n.prev := last;
    last.next := n;
    ghost var rs := ns + [n];
    forall i | 0 <= i < |rs| ensures rs[i].next == After(rs, i) && After(rs, i).prev == rs[i] {
      if i < |ns| {
        assert old(ns[i].next) == After(ns, i);
      }
    }
  }

  lemma Neighbours(ns: seq<ListHead>, i: int)
    requires Ring(ns) && 0 <= i < |ns|
    ensures ns[i].next in ns && ns[i].prev in ns
  {
    var j := if i == 0 then |ns| - 1 else i - 1;
    assert ns[i].next == After(ns, i);
    assert After(ns, j).prev == ns[j];
  }

  lemma FirstOnce(ns: seq<ListHead>)
    requires Ring(ns)
    ensures ns[0] !in ns[1..]
  {
  }

  ghost predicate Apart(a: seq<ListHead>, b: seq<ListHead>) {
    forall i, j :: 0 <= i < |a| && 0 <= j < |b| ==> a[i] != b[j]
  }

  /** Three rings with no node in common. */
  ghost predicate ThreeRings(a: seq<ListHead>, b: seq<ListHead>, c: seq<ListHead>)
    reads a`next, a`prev, b`next, b`prev, c`next, c`prev
  {
    Ring(a) && Ring(b) && Ring(c) && Apart(a, b) && Apart(a, c) && Apart(b, c)
  }

  lemma LoneRing(n: ListHead)
    requires n.next == n && n.prev == n
    ensures Ring([n])
  {
  }

  lemma LoneRings(a: ListHead, b: ListHead, c: ListHead)
    requires Ring([a]) && Ring([b]) && Ring([c]) && a != b && a != c && b != c
    ensures ThreeRings([a], [b], [c])
  {
  }

  /** The orders that ListDel goes through. */
  lemma DelOrder(ns: seq<ListHead>, i: int)
    requires 0 < i < |ns|
    ensures var rs := Rotated(ns, i);
            && |rs| == |ns| && rs[0] == ns[i]
            && Rotated(rs[1..], |ns| - i - 1) == ns[..i] + ns[i + 1..]
  {
  }

  /** list_del: takes node i out of the ring that starts at node 0. */
  method ListDel(n: ListHead, ghost ns: seq<ListHead>, ghost i: int)
    requires Ring(ns) && 0 < i < |ns| && n == ns[i]
    modifies ns`next, ns`prev
    ensures Ring(ns[..i] + ns[i + 1..])
  {
    hide Ring, Rotated;
    Neighbours(ns, i);
    RotatedRing(ns, i);
    DelOrder(ns, i);
    ghost var rs := Rotated(ns, i);
    Unlink(n, rs);
    RotatedRing(rs[1..], |ns| - i - 1);
  }

  /** The orders that ListAdd goes through. */
  lemma AddOrder(ns: seq<ListHead>, n: ListHead)
    requires Ring(ns) && n !in ns
    ensures |ns| > 0
    ensures var rs := Rotated(ns, 1);
            && |rs| == |ns| && rs[0] == After(ns, 0) && n !in rs && (forall m :: m in rs ==> m in ns)
            && Rotated(rs + [n], |ns| - 1) == [ns[0], n] + ns[1..]
  {
  }

  /** list_add: inserts a node right after the first node of the ring. */
  method ListAdd(n: ListHead, head: ListHead, ghost ns: seq<ListHead>)
    requires Ring(ns) && head == ns[0] && n !in ns
    modifies n`next, n`prev, ns`next, ns`prev
    ensures Ring([head, n] + ns[1..])
  {
    hide Ring, Rotated;
    AddOrder(ns, n);
    RingAt(ns, 0);
    RotatedRing(ns, 1);
    ghost var rs := Rotated(ns, 1);
    Neighbours(rs, 0);
    Append(n, head.next, rs);
    RotatedRing(rs + [n], |ns| - 1);
  }

  /** The orders that ListMoveTail goes through. */
  lemma MovedOrder(ns: seq<ListHead>, k: int)
    requires 0 < k < |ns|
    ensures Rotated(ns[1..], k - 1) == ns[k..] + ns[1..k]
    ensures Rotated(ns[k..] + ns[1..k] + [ns[0]], |ns| - 1) == [ns[0]] + ns[k..] + ns[1..k]
  {
  }

  /** list_move_tail(head, pos): moves the first node of the ring to the place before node k. */
  method ListMoveTail(head: ListHead, pos: ListHead, ghost ns: seq<ListHead>, ghost k: int)
    requires Ring(ns) && head == ns[0] && 0 < k < |ns| && pos == ns[k]
    modifies ns`next, ns`prev
    ensures Ring([head] + ns[k..] + ns[1..k])
  {
    hide Ring, Rotated;
    Neighbours(ns, 0);
    FirstOnce(ns);
    Unlink(head, ns);
    ghost var rest := ns[1..];
    RotatedRing(rest, k - 1);
    ghost var rs := Rotated(rest, k - 1);
    MovedOrder(ns, k);
    Neighbours(rs, 0);
    assert pos.prev in ns;
    Append(head, pos, rs);
    RotatedRing(rs + [head], |ns| - 1);
  }

  // The same operations beside two other rings.

  method ListDelIn(n: ListHead, ghost ns: seq<ListHead>, ghost i: int, ghost b: seq<ListHead>, ghost c: seq<ListHead>)
    requires ThreeRings(ns, b, c) && 0 < i < |ns| && n == ns[i]
    modifies ns`next, ns`prev
    ensures ThreeRings(ns[..i] + ns[i + 1..], b, c)
  {
    ListDel(n, ns, i);
  }

  method ListAddIn(n: ListHead, head: ListHead, ghost ns: seq<ListHead>, ghost b: seq<ListHead>, ghost c: seq<ListHead>)
    requires ThreeRings(ns, b, c) && head == ns[0] && n !in ns && n !in b && n !in c
    modifies n`next, n`prev, ns`next, ns`prev
    ensures ThreeRings([head, n] + ns[1..], b, c)
  {
    ListAdd(n, head, ns);
  }

  method ListMoveTailIn(head: ListHead, pos: ListHead, ghost ns: seq<ListHead>, ghost k: int,
                        ghost b: seq<ListHead>, ghost c: seq<ListHead>)
    requires ThreeRings(ns, b, c) && head == ns[0] && 0 < k < |ns| && pos == ns[k]
    modifies ns`next, ns`prev
    ensures ThreeRings([head] + ns[k..] + ns[1..k], b, c)
  {
    ListMoveTail(head, pos, ns, k);
  }
}
