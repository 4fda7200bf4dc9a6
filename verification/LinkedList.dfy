/** Circular doubly linked lists with a head node that belongs to no element. */
module LinkedList {

  /** A link; entry is the structure it is embedded in. */
  class ListHead<T> {
    var prev: ListHead?<T>
    var next: ListHead?<T>
    const entry: T

    constructor (entry: T)
      ensures this.entry == entry && prev == null && next == null
    {
      this.entry := entry;
      prev, next := null, null;
    }
  }

  /** The nodes around the ring: position 0 and the position after the last are the head. */
  function At<T>(head: ListHead<T>, s: seq<ListHead<T>>, i: nat): ListHead<T> {
    if 0 < i <= |s| then s[i - 1] else head
  }

  ghost predicate Distinct<T(!new)>(head: ListHead<T>, s: seq<ListHead<T>>) {
    head !in s && forall i, j :: 0 <= i < j < |s| ==> s[i] != s[j]
  }

  /** The list at head holds exactly the links s, in order, and every neighbour points back. */
  ghost predicate Ring<T(!new)>(head: ListHead<T>, s: seq<ListHead<T>>)
    reads head, s
  {
    Distinct(head, s) && forall i: nat, j: nat :: j == i + 1 && i <= |s| ==> At(head, s, i).next == At(head, s, j) && At(head, s, j).prev == At(head, s, i)
  }

  /** init_list_head. */
  method InitListHead<T(!new)>(head: ListHead<T>)
    modifies head
    ensures Ring(head, [])
  {
    head.prev := head;
    head.next := head;
  }

  /** list_empty. */
  method ListEmpty<T(!new)>(head: ListHead<T>, ghost s: seq<ListHead<T>>) returns (r: bool)
    requires Ring(head, s)
    ensures r <==> s == []
  {
    assert At(head, s, 0).next == At(head, s, 1);
    r := head.next == head;
  }

  /** __list_add: el between two neighbours, which may be one node. */
  method ListInsert<T(!new)>(el: ListHead<T>, prev: ListHead<T>, next: ListHead<T>)
    requires el != prev && el != next
    modifies el, prev, next
    ensures el.prev == prev && el.next == next && prev.next == el && next.prev == el
    ensures prev != next ==> prev.prev == old(prev.prev) && next.next == old(next.next)
  {
    prev.next := el;
    el.prev := prev;
    el.next := next;
    next.prev := el;
  }

  /** Linking el in after the k-th node of the ring, whatever else is the same. */
  lemma RingInsert<T(!new)>(head: ListHead<T>, s: seq<ListHead<T>>, k: nat, el: ListHead<T>)
    requires Distinct(head, s) && k <= |s| && el != head && el !in s
    requires el.prev == At(head, s, k) && el.next == At(head, s, k + 1) && At(head, s, k).next == el && At(head, s, k + 1).prev == el
    requires forall i: nat, j: nat :: j == i + 1 && i <= |s| && i != k ==> At(head, s, i).next == At(head, s, j) && At(head, s, j).prev == At(head, s, i)
    ensures Ring(head, s[..k] + [el] + s[k..])
  {
    var r := s[..k] + [el] + s[k..];
    forall i: nat, j: nat | j == i + 1 && i <= |r| ensures At(head, r, i).next == At(head, r, j) && At(head, r, j).prev == At(head, r, i) {
      if i < k {
        assert At(head, r, i) == At(head, s, i) && At(head, r, j) == At(head, s, j);
      } else if i > k + 1 {
        var i', j' := i - 1, j - 1;
        assert At(head, r, i) == At(head, s, i') && At(head, r, j) == At(head, s, j');
      }
    }
  }

  /** Different positions before the end are different nodes, and so are different positions after the head. */
  lemma Separate<T(!new)>(head: ListHead<T>, s: seq<ListHead<T>>, k: nat)
    requires Distinct(head, s)
    ensures k <= |s| ==> forall i: nat :: i <= |s| && i != k ==> At(head, s, i) != At(head, s, k)
    ensures 0 < k <= |s| + 1 ==> forall i: nat :: 0 < i <= |s| + 1 && i != k ==> At(head, s, i) != At(head, s, k)
  {
  }

  /** Linking in after position k: the common part of list_add and list_add_tail. */
  method ListAddAfter<T(!new)>(el: ListHead<T>, head: ListHead<T>, ghost s: seq<ListHead<T>>, ghost k: nat, prev: ListHead<T>, next: ListHead<T>)
    requires Ring(head, s) && el != head && el !in s && k <= |s| && prev == At(head, s, k) && next == At(head, s, k + 1)
    modifies el, prev, next
    ensures Ring(head, s[..k] + [el] + s[k..])
  {
    assert prev.next == next && next.prev == prev;
    ListInsert(el, prev, next);
    Separate(head, s, k);
    Separate(head, s, k + 1);
    RingInsert(head, s, k, el);
  }

  /** list_add: in front of the first element. */
  method ListAdd<T(!new)>(el: ListHead<T>, head: ListHead<T>, ghost s: seq<ListHead<T>>)
    requires Ring(head, s) && el != head && el !in s
    modifies el, head, s
    ensures Ring(head, [el] + s)
  {
    assert head.next == At(head, s, 1) by { assert At(head, s, 0).next == At(head, s, 1); }
    ListAddAfter(el, head, s, 0, head, head.next);
    assert s[..0] + [el] + s[0..] == [el] + s;
  }

  /** list_add_tail: after the last element. */
  method ListAddTail<T(!new)>(el: ListHead<T>, head: ListHead<T>, ghost s: seq<ListHead<T>>)
    requires Ring(head, s) && el != head && el !in s
    modifies el, head, s
    ensures Ring(head, s + [el])
  {
    ghost var n := |s|;
    assert head.prev == At(head, s, n) by { var m := n + 1; assert At(head, s, m).prev == At(head, s, n); }
    ListAddAfter(el, head, s, n, head.prev, head);
    assert s[..n] + [el] + s[n..] == s + [el];
  }

  /** Unlinking position k + 1 of the ring. */
  lemma RingDelete<T(!new)>(head: ListHead<T>, s: seq<ListHead<T>>, k: nat)
    requires Distinct(head, s) && k < |s|
    requires At(head, s, k).next == At(head, s, k + 2) && At(head, s, k + 2).prev == At(head, s, k)
    requires forall i: nat, j: nat :: j == i + 1 && i <= |s| && i != k && i != k + 1 ==> At(head, s, i).next == At(head, s, j) && At(head, s, j).prev == At(head, s, i)
    ensures Ring(head, s[..k] + s[k + 1..])
  {
    var r := s[..k] + s[k + 1..];
    forall i: nat, j: nat | j == i + 1 && i <= |r| ensures At(head, r, i).next == At(head, r, j) && At(head, r, j).prev == At(head, r, i) {
      if i < k {
        assert At(head, r, i) == At(head, s, i) && At(head, r, j) == At(head, s, j);
      } else {
        var i', j' := i + 1, j + 1;
        assert At(head, r, j) == At(head, s, j');
        if i > k { assert At(head, r, i) == At(head, s, i'); } else { assert At(head, r, i) == At(head, s, i); }
      }
    }
  }

  /** list_del: el leaves its ring, wherever it stands. */
  method ListDel<T(!new)>(el: ListHead<T>, ghost head: ListHead<T>, ghost s: seq<ListHead<T>>, ghost k: nat)
    requires Ring(head, s) && k < |s| && el == s[k]
    modifies el, head, s
    ensures Ring(head, s[..k] + s[k + 1..]) && el.prev == null && el.next == null
  {
    ghost var k1 := k + 1;
    ghost var k2 := k1 + 1;
    assert At(head, s, k).next == At(head, s, k1) && At(head, s, k1).prev == At(head, s, k);
    assert At(head, s, k1).next == At(head, s, k2) && At(head, s, k2).prev == At(head, s, k1);
    var prev, next := el.prev, el.next;
    prev.next := next;
    next.prev := prev;
    el.prev := null;
    el.next := null;
    Separate(head, s, k);
    Separate(head, s, k1);
    Separate(head, s, k2);
    RingDelete(head, s, k);
  }
}
