/** The list operations of src/llist.c in both builds. A list is reached through a head pointer that the
    operations update; here the head pointer is the field of a Head object. The operations are proved against
    the sequence of nodes that the next pointers lead through. */
module SinglyLinked {
  import opened Sequences

  datatype Status = Success | Already | NoEntry

  class Node {
    var next: Node?
    var data: int
  }

  class Head {
    var first: Node?
  }

  ghost function At(s: seq<Node>, i: int): Node? {
    if 0 <= i < |s| then s[i] else null
  }

  /** The list that starts at first consists of the nodes of s, in this order, without a cycle. */
  ghost predicate Chain(first: Node?, s: seq<Node>)
    reads s
  {
    && first == At(s, 0)
    && (forall i {:trigger s[i].next} :: 0 <= i < |s| ==> s[i].next == At(s, i + 1))
    && NoDuplicates(s)
  }

  /** Where next skips node k and is otherwise unchanged, node k has left the list. */
  lemma SkippedNode(first: Node?, s: seq<Node>, k: int, r: seq<Node>)
    requires IsWithout(r, s, k) && NoDuplicates(r)
    requires forall i {:trigger s[i].next} :: 0 <= i < |s| && i != k && i != k - 1 ==> s[i].next == At(s, i + 1)
    requires if k == 0 then first == At(s, 1) else first == s[0] && s[k - 1].next == At(s, k + 1)
    ensures Chain(first, r)
  {
    forall i | 0 <= i < |r| ensures r[i].next == At(r, i + 1) {
      assert r[i].next == s[if i < k then i else i + 1].next;
      if i + 1 < |r| { assert r[i + 1] == s[if i + 1 < k then i + 1 else i + 2]; }
    }
  }

  /** append(): a new item goes to the end; an item that is in the list stays where it is. */
  method Append(head: Head, item: Node, ghost s: seq<Node>) returns (status: Status)
    requires Chain(head.first, s)
    modifies head, item`next, s
    ensures item !in s ==> status == Success && Chain(head.first, s + [item])
    ensures item in s ==> Chain(head.first, s) && (status == Success <==> item == s[|s| - 1]) && status != NoEntry
    ensures forall n :: n in s || n == item ==> n.data == old(n.data)
  {
    var it := head.first;
    ghost var i := 0;
    while it != null && it.next != null
      invariant 0 <= i <= |s| && (s != [] ==> i < |s|)
      invariant it == At(s, i)
      invariant item !in s[..i]
      decreases |s| - i
    {
      if it == item { return Already; }
      it := it.next;
      i := i + 1;
    }
    assert s != [] ==> i == |s| - 1;
    if it != null { Distinct(s, i); }
    if it == null {
      head.first := item;
    } else {
      it.next := item;
    }
    item.next := null;
    status := Success;
    if item !in s { AppendedDistinct(s, item); }
  }

  /** unlink_intern(); the caller may know the predecessor. */
  method UnlinkIntern(head: Head, item: Node, known: Node?, ghost s: seq<Node>, ghost k: int) returns (status: Status)
    requires Chain(head.first, s)
    requires if item in s then 0 <= k < |s| && s[k] == item else k == -1
    requires known != null ==> 0 < k && known == s[k - 1]
    modifies head, item`next, s
    ensures item in s ==> status == Success && Chain(head.first, Removed(s, k)) && item.next == null
    ensures item !in s ==> status == NoEntry && Chain(head.first, s) && item.next == old(item.next)
    ensures forall n :: n in s || n == item ==> n.data == old(n.data)
  {
    if item in s {
      Distinct(s, k);
      if k > 0 { Distinct(s, k - 1); }
    }
    if head.first == item {
      head.first := item.next;
    } else {
      var prev := known;
      if prev == null {
        var i := head.first;
        ghost var j := 0;
        while i != null && i.next != item
          invariant 0 <= j <= |s| && i == At(s, j)
          invariant item !in s[..j] && (j < |s| ==> s[j] != item)
          decreases |s| - j
        {
          i := i.next;
          j := j + 1;
        }
        if i == null { return NoEntry; }
        assert s[j + 1] == item;
        prev := i;
      }
      assert 0 < k && prev == s[k - 1];
      prev.next := item.next;
    }
    item.next := null;
    status := Success;
    RemovedElements(s, k);
    SkippedNode(head.first, s, k, Removed(s, k));
  }

  /** unlink(). */
  method Unlink(head: Head, item: Node, ghost s: seq<Node>, ghost k: int) returns (status: Status)
    requires Chain(head.first, s)
    requires if item in s then 0 <= k < |s| && s[k] == item else k == -1
    modifies head, item`next, s
    ensures item in s ==> status == Success && Chain(head.first, Removed(s, k)) && item.next == null
    ensures item !in s ==> status == NoEntry && Chain(head.first, s) && item.next == old(item.next)
  {
    status := UnlinkIntern(head, item, null, s, k);
  }

  /** unlink_data(): the first node with the data leaves the list and is returned. */
  method UnlinkData(head: Head, data: int, ghost s: seq<Node>) returns (item: Node?, ghost k: nat)
    requires Chain(head.first, s)
    modifies head, s
    ensures item == null <==> forall n :: n in s ==> old(n.data) != data
    ensures item == null ==> Chain(head.first, s)
    ensures item != null ==> k < |s| && item == s[k] && old(item.data) == data
    ensures item != null ==> forall i :: 0 <= i < k ==> old(s[i].data) != data
    ensures item != null ==> Chain(head.first, Removed(s, k)) && item.next == null
  {
    item := head.first;
    k := 0;
    while item != null && item.data != data
      invariant 0 <= k <= |s| && item == At(s, k)
      invariant forall i :: 0 <= i < k ==> s[i].data != data
      decreases |s| - k
    {
      item := item.next;
      k := k + 1;
    }
    if item != null {
      var _ := Unlink(head, item, s, k);
    }
  }
}

module DoublyLinked {
  import opened Sequences
  import opened SinglyLinked

  class DNode {
    var prev: DNode?
    var next: DNode?
    var data: int
  }

  class DHead {
    var first: DNode?
  }

  ghost function DAt(s: seq<DNode>, i: int): DNode? {
    if 0 <= i < |s| then s[i] else null
  }

  ghost predicate Forward(first: DNode?, s: seq<DNode>)
    reads s
  {
    && first == DAt(s, 0)
    && (forall i {:trigger s[i].next} :: 0 <= i < |s| ==> s[i].next == DAt(s, i + 1))
    && NoDuplicates(s)
  }

  /** prev is the inverse of next. */
  ghost predicate Backward(s: seq<DNode>)
    reads s
  {
    forall i {:trigger s[i].prev} :: 0 <= i < |s| ==> s[i].prev == DAt(s, i - 1)
  }

  ghost predicate DChain(first: DNode?, s: seq<DNode>)
    reads s
  {
    Forward(first, s) && Backward(s)
  }

  /** Where next and prev skip node k and are otherwise unchanged, node k has left the list. */
  lemma SkippedNode(first: DNode?, s: seq<DNode>, k: int, r: seq<DNode>)
    requires IsWithout(r, s, k) && NoDuplicates(r)
    requires forall i {:trigger s[i].next} :: 0 <= i < |s| && i != k && i != k - 1 ==> s[i].next == DAt(s, i + 1)
    requires forall i {:trigger s[i].prev} :: 0 <= i < |s| && i != k && i != k + 1 ==> s[i].prev == DAt(s, i - 1)
    requires if k == 0 then first == DAt(s, 1) else first == s[0] && s[k - 1].next == DAt(s, k + 1)
    requires k + 1 < |s| ==> s[k + 1].prev == DAt(s, k - 1)
    ensures DChain(first, r)
  {
    forall i | 0 <= i < |r| ensures r[i].next == DAt(r, i + 1) {
      assert r[i].next == s[if i < k then i else i + 1].next;
      if i + 1 < |r| { assert r[i + 1] == s[if i + 1 < k then i + 1 else i + 2]; }
    }
    forall i | 0 <= i < |r| ensures r[i].prev == DAt(r, i - 1) {
      assert r[i].prev == s[if i < k then i else i + 1].prev;
      if i > 0 { assert r[i - 1] == s[if i - 1 < k then i - 1 else i]; }
    }
  }

  /** Where next and prev lead around item between nodes k - 1 and k, item is in the list there. */
  lemma InsertedNode(first: DNode?, s: seq<DNode>, item: DNode, k: nat, r: seq<DNode>)
    requires IsWith(r, s, item, k) && NoDuplicates(r) && k < |s|
    requires forall i {:trigger s[i].next} :: 0 <= i < |s| && i != k - 1 ==> s[i].next == DAt(s, i + 1)
    requires forall i {:trigger s[i].prev} :: 0 <= i < |s| && i != k ==> s[i].prev == DAt(s, i - 1)
    requires if k == 0 then first == item else first == s[0] && s[k - 1].next == item
    requires s[k].prev == item && item.next == s[k] && item.prev == DAt(s, k - 1)
    ensures DChain(first, r)
  {
    assert r[k] == item;
    forall i | 0 <= i < |r| ensures r[i].next == DAt(r, i + 1) {
      if i != k { assert r[i].next == s[if i < k then i else i - 1].next; }
      if i + 1 < |r| { assert r[i + 1] == if i + 1 < k then s[i + 1] else if i + 1 == k then item else s[i]; }
    }
    forall i | 0 <= i < |r| ensures r[i].prev == DAt(r, i - 1) {
      if i != k { assert r[i].prev == s[if i < k then i else i - 1].prev; }
      if i > 0 { assert r[i - 1] == if i - 1 < k then s[i - 1] else if i - 1 == k then item else s[i - 2]; }
    }
  }

  /** append(). The check for an item that is in the list misses the last one, whose prev pointer is then
      made to point to itself: the prev pointers stay right if and only if the item is not the last node. */
  method Append(head: DHead, item: DNode, ghost s: seq<DNode>) returns (status: Status)
    requires DChain(head.first, s)
    modifies head, item`next, item`prev, s
    ensures item !in s ==> status == Success && DChain(head.first, s + [item])
    ensures item in s ==> Forward(head.first, s) && (Backward(s) <==> item != s[|s| - 1])
    ensures item in s ==> status != NoEntry && (status == Already <==> item != s[|s| - 1])
  {
    var it := head.first;
    ghost var i := 0;
    while it != null && it.next != null
      invariant 0 <= i <= |s| && (s != [] ==> i < |s|)
      invariant it == DAt(s, i)
      invariant item !in s[..i]
      decreases |s| - i
    {
      if it == item { return Already; }
      it := it.next;
      i := i + 1;
    }
    assert s != [] ==> i == |s| - 1;
    if it != null { Distinct(s, i); }
    if it == null {
      head.first := item;
      item.prev := null;
    } else {
      it.next := item;
      item.prev := it;
    }
    item.next := null;
    status := Success;
    if item in s {
      assert s[i] == item && item.prev == item;
      assert DAt(s, i - 1) != item;
    } else {
      AppendedDistinct(s, item);
    }
  }

  /** unlink(): the predecessor is known from the prev pointer. */
  method Unlink(head: DHead, item: DNode, ghost s: seq<DNode>, ghost k: nat)
    requires DChain(head.first, s) && k < |s| && s[k] == item
    modifies head, item`next, item`prev, s
    ensures DChain(head.first, Removed(s, k)) && item.prev == null && item.next == null
  {
    Distinct(s, k);
    if k > 0 { Distinct(s, k - 1); }
    if k + 1 < |s| { Distinct(s, k + 1); }
    if head.first == item {
      head.first := item.next;
    } else if item.prev != null {
      item.prev.next := item.next;
    }
    if item.next != null {
      item.next.prev := item.prev;
    }
    item.prev := null;
    item.next := null;
    RemovedElements(s, k);
    SkippedNode(head.first, s, k, Removed(s, k));
  }

  /** unlink_data(). */
  method UnlinkData(head: DHead, data: int, ghost s: seq<DNode>) returns (item: DNode?, ghost k: nat)
    requires DChain(head.first, s)
    modifies head, s
    ensures item == null <==> forall n :: n in s ==> old(n.data) != data
    ensures item == null ==> DChain(head.first, s)
    ensures item != null ==> k < |s| && item == s[k] && old(item.data) == data
    ensures item != null ==> forall i :: 0 <= i < k ==> old(s[i].data) != data
    ensures item != null ==> DChain(head.first, Removed(s, k)) && item.prev == null && item.next == null
  {
    item := head.first;
    k := 0;
    while item != null && item.data != data
      invariant 0 <= k <= |s| && item == DAt(s, k)
      invariant forall i :: 0 <= i < k ==> s[i].data != data
      decreases |s| - k
    {
      item := item.next;
      k := k + 1;
    }
    if item != null {
      Unlink(head, item, s, k);
    }
  }

  /** insert(): the new item goes in front of a node of the list. */
  method Insert(head: DHead, item: DNode, before: DNode, ghost s: seq<DNode>, ghost k: nat)
    requires DChain(head.first, s) && item !in s && k < |s| && s[k] == before
    modifies head, item`next, item`prev, s
    ensures DChain(head.first, Inserted(s, item, k))
  {
    Distinct(s, k);
    if k > 0 { Distinct(s, k - 1); }
    if before.prev == null {
      head.first := item;
      item.prev := null;
      item.next := before;
      before.prev := item;
    } else {
      before.prev.next := item;
      item.prev := before.prev;
      before.prev := item;
      item.next := before;
    }
    InsertedElements(s, item, k);
    InsertedNode(head.first, s, item, k, Inserted(s, item, k));
  }
}
