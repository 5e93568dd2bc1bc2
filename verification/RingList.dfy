/** The intrusive circular doubly linked list of elist.h, on the heap. */
module RingList {

  /** `list_head` together with the entry it is embedded in; the list head itself
      carries no data. */
  class Node<T(0)> {
    var next: Node?<T>
    var prev: Node?<T>
    var data: T

    /** `INIT_LIST_HEAD`. */
    constructor (data: T)
      ensures next == this && prev == this && this.data == data
    {
      this.data := data;
      next, prev := this, this;
    }
  }

  //
  // Rings
  //

  function After(n: nat, i: nat): nat {
    if i + 1 == n then 0 else i + 1
  }

  ghost predicate Distinct<T(0)>(c: seq<Node<T>>) {
    forall i, j :: 0 <= i < j < |c| ==> c[i] != c[j]
  }

  /** The nodes of c, in order, form a closed ring: next and prev are mutually inverse. */
  ghost predicate Ring<T(0)>(c: seq<Node<T>>)
    reads c
  {
    && |c| > 0 && Distinct(c)
    && (forall i :: 0 <= i < |c| ==> c[i].next == c[After(|c|, i)])
    && (forall i :: 0 <= i < |c| ==> c[After(|c|, i)].prev == c[i])
  }

  /** `__list_add`. */
  method ListAdd<T(0)>(lnew: Node<T>, prev: Node<T>, next: Node<T>)
    requires lnew != prev && lnew != next
    modifies lnew`next, lnew`prev, prev`next, next`prev
    ensures next.prev == lnew && lnew.next == next && lnew.prev == prev && prev.next == lnew
    ensures prev != next ==> next.next == old(next.next) && prev.prev == old(prev.prev)
  {
    next.prev := lnew;
    lnew.next := next;
    lnew.prev := prev;
    prev.next := lnew;
  }

  /** `list_add_tail`: the new node goes between the last node and the head. */
  method ListAddTail<T(0)>(lnew: Node<T>, head: Node<T>, ghost c: seq<Node<T>>)
    requires Ring(c) && c[0] == head && lnew !in c
    modifies lnew`next, lnew`prev, c
    ensures Ring(c + [lnew])
    ensures forall x :: x in c ==> x.data == old(x.data)
  {
    ghost var n := |c|;
    assert After(n, n - 1) == 0;
    assert head.prev == c[n - 1];
    ListAdd(lnew, head.prev, head);
    ghost var d := c + [lnew];
    assert forall i :: 0 <= i < n - 1 ==> c[i].next == c[i + 1] by {
      assert forall i :: 0 <= i < n - 1 ==> After(n, i) == i + 1;
    }
    forall i | 0 <= i < |d| ensures d[i].next == d[After(|d|, i)] && d[After(|d|, i)].prev == d[i] {
      if i < n - 1 {
        assert old(c[i].next) == c[After(n, i)] && old(c[After(n, i)].prev) == c[i];
        assert c[i + 1] != c[0];
      }
    }
  }

  /** The nodes of c, in order, are linked to each other in both directions. */
  ghost predicate Linked<T(0)>(c: seq<Node<T>>)
    reads c
  {
    forall i :: 0 <= i < |c| - 1 ==> c[i].next == c[i + 1] && c[i + 1].prev == c[i]
  }

  ghost predicate Closed<T(0)>(c: seq<Node<T>>)
    reads c
  {
    |c| > 0 && c[|c| - 1].next == c[0] && c[0].prev == c[|c| - 1]
  }

  lemma RingParts<T(0)>(c: seq<Node<T>>)
    ensures Ring(c) <==> Distinct(c) && Linked(c) && Closed(c)
  {
    if Ring(c) {
      assert c[After(|c|, |c| - 1)].prev == c[|c| - 1];
      forall i | 0 <= i < |c| - 1 ensures c[i].next == c[i + 1] && c[i + 1].prev == c[i] {
        assert c[i].next == c[After(|c|, i)] && c[After(|c|, i)].prev == c[i];
      }
    }
  }

  lemma LinkedJoin<T(0)>(a: seq<Node<T>>, b: seq<Node<T>>)
    requires Linked(a) && Linked(b)
    requires a != [] && b != [] ==> a[|a| - 1].next == b[0] && b[0].prev == a[|a| - 1]
    ensures Linked(a + b)
  {
    var c := a + b;
    forall i | 0 <= i < |c| - 1 ensures c[i].next == c[i + 1] && c[i + 1].prev == c[i] {
      if i >= |a| {
        assert c[i] == b[i - |a|] && c[i + 1] == b[i - |a| + 1];
      }
    }
  }

  lemma TailDistinct<T(0)>(h: Node<T>, a: seq<Node<T>>)
    requires Distinct([h] + a)
    ensures h !in a && Distinct(a)
  {
    var c := [h] + a;
    forall i | 0 <= i < |a| ensures a[i] != h {
      assert c[0] != c[i + 1];
    }
    forall i, j | 0 <= i < j < |a| ensures a[i] != a[j] {
      assert c[i + 1] != c[j + 1];
    }
  }

  lemma TailLinked<T(0)>(h: Node<T>, a: seq<Node<T>>)
    requires Linked([h] + a)
    ensures Linked(a)
    ensures a != [] ==> h.next == a[0] && a[0].prev == h
  {
    var c := [h] + a;
    forall i | 0 <= i < |a| - 1 ensures a[i].next == a[i + 1] && a[i + 1].prev == a[i] {
      assert c[i + 1].next == c[i + 1 + 1] && c[i + 1 + 1].prev == c[i + 1];
    }
    if a != [] {
      assert c[0].next == c[0 + 1];
    }
  }

  /** The entries of a ring, without its head. */
  lemma RingTail<T(0)>(h: Node<T>, a: seq<Node<T>>)
    requires Ring([h] + a)
    ensures h !in a && Distinct(a) && Linked(a)
    ensures a != [] ==> h.next == a[0] && h.prev == a[|a| - 1] && a[0].prev == h && a[|a| - 1].next == h
    ensures a == [] ==> h.next == h && h.prev == h
  {
    RingParts([h] + a);
    TailDistinct(h, a);
    TailLinked(h, a);
    assert Closed([h] + a);
  }

  lemma HeadDistinct<T(0)>(h: Node<T>, a: seq<Node<T>>)
    requires h !in a && Distinct(a)
    ensures Distinct([h] + a)
  {
    forall i, j | 0 <= i < j < |[h] + a| ensures ([h] + a)[i] != ([h] + a)[j] {
      assert ([h] + a)[j] == a[j - 1];
    }
  }

  /** `__list_del`: the runs on either side stay linked. */
  method ListUnlink<T(0)>(prev: Node<T>, next: Node<T>, ghost a: seq<Node<T>>, ghost b: seq<Node<T>>)
    requires Distinct(a) && Distinct(b) && (forall x :: x in a ==> x !in b) && Linked(a) && Linked(b)
    requires a != [] && prev == a[|a| - 1] && next == if b == [] then a[0] else b[0]
    modifies next`prev, prev`next
    ensures next.prev == prev && prev.next == next && Linked(a) && Linked(b)
    ensures b != [] ==> b[|b| - 1].next == old(b[|b| - 1].next) && a[0].prev == old(a[0].prev)
  {
    assert prev in a && a[0] in a && (b == [] || (next in b && b[|b| - 1] in b));
    assert forall i :: 0 <= i < |a| ==> a[i] in a;
    assert forall i :: 0 <= i < |b| ==> b[i] in b;
    next.prev := prev;
    prev.next := next;
  }

  /** A ring taken apart at entry k. */
  lemma RingSplit<T(0)>(c: seq<Node<T>>, k: nat)
    requires Ring(c) && 0 < k < |c|
    ensures var a, b := c[..k], c[k + 1..];
      && Distinct(a) && Distinct(b) && (forall x :: x in a ==> x !in b) && c[k] !in a && c[k] !in b
      && Linked(a) && Linked(b) && c[k].prev == a[k - 1] && c[k].next == (if b == [] then c[0] else b[0])
      && (b != [] ==> b[|b| - 1].next == c[0] && c[0].prev == b[|b| - 1])
  {
    RingParts(c);
    var b := c[k + 1..];
    assert forall i :: 0 <= i < |b| ==> b[i] == c[i + k + 1];
    assert c[k - 1].next == c[k - 1 + 1];
    forall i | 0 <= i < |b| - 1 ensures b[i].next == b[i + 1] && b[i + 1].prev == b[i] {
      assert c[i + k + 1].next == c[i + k + 1 + 1];
    }
  }

  ghost function Without<T(0)>(c: seq<Node<T>>, k: nat): seq<Node<T>>
    requires k < |c|
  {
    c[..k] + c[k + 1..]
  }

  lemma RingJoin<T(0)>(a: seq<Node<T>>, b: seq<Node<T>>)
    requires a != [] && Distinct(a) && Distinct(b) && (forall x :: x in a ==> x !in b) && Linked(a) && Linked(b)
    requires var last := a[|a| - 1]; last.next == (if b == [] then a[0] else b[0]) && last.next.prev == last
    requires b != [] ==> b[|b| - 1].next == a[0] && a[0].prev == b[|b| - 1]
    ensures Ring(a + b)
  {
    LinkedJoin(a, b);
    forall i, j | 0 <= i < j < |a + b| ensures (a + b)[i] != (a + b)[j] {
      if i < |a| <= j {
        assert (a + b)[i] in a && (a + b)[j] in b;
      }
    }
    RingParts(a + b);
  }

  /** `list_del`: the other nodes close the ring; the entry keeps no link into it. */
  method ListDel<T(0)>(entry: Node<T>, ghost c: seq<Node<T>>, ghost k: nat)
    requires Ring(c) && 0 < k < |c| && c[k] == entry
    modifies c
    ensures Ring(Without(c, k)) && entry !in Without(c, k)
    ensures entry.next == null && entry.prev == null
    ensures forall x :: x in c ==> x.data == old(x.data)
  {
    RingSplit(c, k);
    ghost var a, b := c[..k], c[k + 1..];
    assert a[0] == c[0];
    ListUnlink(entry.prev, entry.next, a, b);
    entry.next := null;
    entry.prev := null;
    RingJoin(a, b);
  }

  /** `list_empty`. */
  method ListEmpty<T(0)>(head: Node<T>, ghost c: seq<Node<T>>) returns (empty: bool)
    requires Ring(c) && c[0] == head
    ensures empty == (|c| == 1)
  {
    assert c[0].next == c[After(|c|, 0)];
    empty := head.next == head;
  }

  /** The four writes of `__list_splice`: they keep the two runs of entries linked. */
  method Relink<T(0)>(first: Node<T>, last: Node<T>, head: Node<T>, at: Node<T>,
                      ghost a: seq<Node<T>>, ghost b: seq<Node<T>>)
    requires Distinct(a) && Distinct(b) && Linked(a) && Linked(b) && head !in a && head !in b
    requires forall x :: x in a ==> x !in b
    requires a != [] && first == a[0] && last == a[|a| - 1]
    requires at == if b == [] then head else b[0]
    modifies first`prev, head`next, last`next, at`prev
    ensures first.prev == head && head.next == first && last.next == at && at.prev == last
    ensures Linked(a) && Linked(b)
    ensures b != [] ==> b[|b| - 1].next == old(b[|b| - 1].next)
  {
    assert first in a && last in a && (at == head || at in b);
    assert forall x :: x in b ==> x != first && x != last && x != head;
    assert forall i :: 0 <= i < |a| ==> a[i] in a && a[i] != head && a[i] != at;
    assert forall i :: 0 <= i < |b| ==> b[i] in b;
    first.prev := head;
    head.next := first;
    last.next := at;
    at.prev := last;
  }

  /** `list_splice`: the entries of the list after `list` go, in order, in front of those
      after `head`, and the ring through `head` is closed.  The head of the spliced list
      is left as it was. */
  method ListSplice<T(0)>(list: Node<T>, head: Node<T>, ghost a: seq<Node<T>>, ghost b: seq<Node<T>>)
    requires Ring([list] + a) && Ring([head] + b)
    requires list != head && list !in b && head !in a && forall x :: x in a ==> x !in b
    modifies a, head, b
    ensures Ring([head] + a + b)
    ensures list.next == old(list.next) && list.prev == old(list.prev)
    ensures forall x :: x in a || x in b ==> x.data == old(x.data)
  {
    RingTail(list, a);
    RingTail(head, b);
    var empty := ListEmpty(list, [list] + a);
    if empty {
      assert [head] + a + b == [head] + b;
      return;
    }
    HeadDistinct(head, a);
    var first, last, at := list.next, list.prev, head.next;
    Relink(first, last, head, at, a, b);
    LinkedJoin([head], a);
    RingJoin([head] + a, b);
  }
}
