/** The doubly linked list of tuples in a persistent pool. New nodes go to the head. */
module PersistentList {
  import opened Recovery
  import opened PoolLog

  class ListNode {
    var next: ListNode?
    var prev: ListNode?
    var key: Key
    var obj: Tuple
    ghost var rank: nat  // how many nodes are older

    constructor (entry: Tuple)
      ensures next == null && prev == null && key == entry.key && obj == entry
    {
      next, prev, key, obj := null, null, entry.key, entry;
    }
  }

  /** The node at position i, null outside the list. */
  function NodeAt(spine: seq<ListNode>, i: int): ListNode? {
    if 0 <= i < |spine| then spine[i] else null
  }

  class List {
    var head: ListNode?
    var tail: ListNode?
    ghost var spine: seq<ListNode>   // in insertion order
    ghost var contents: seq<Tuple>   // the tuples along the spine

    ghost predicate Valid()
      reads this, spine
    {
      && head == NodeAt(spine, |spine| - 1)
      && tail == NodeAt(spine, 0)
      && |contents| == |spine|
      && (forall i {:trigger Placed(spine[i], i)} :: 0 <= i < |spine| ==> Placed(spine[i], i))
    }

    ghost predicate Placed(n: ListNode, i: nat)
      requires i < |contents|
      reads this`contents, this`spine, n
    {
      && n.rank == i
      && n.next == NodeAt(spine, i - 1)
      && n.prev == NodeAt(spine, i + 1)
      && n.obj == contents[i] && n.key == contents[i].key
    }

    constructor ()
      ensures Valid() && spine == [] && contents == []
    {
      head, tail, spine, contents := null, null, [], [];
    }

    /** Makes a node the head; every other node keeps its tuple and its place. */
    method Insert(entry: Tuple) returns (node: ListNode)
      requires Valid()
      modifies this, spine
      ensures Valid() && fresh(node)
      ensures spine == old(spine) + [node] && contents == old(contents) + [entry]
    {
      ghost var was, n := spine, |spine|;
      assert n > 0 ==> head == was[n - 1];
      node := new ListNode(entry);
      node.rank := n;
      if head == null {
        head, tail := node, node;
      } else {
        node.next := head;
        head.prev := node;
        head := node;
      }
      spine, contents := spine + [node], contents + [entry];
      forall i | 0 <= i < |spine|
        ensures Placed(spine[i], i)
      {
        if i < n {
          assert old(Placed(spine[i], i)) && old(Placed(spine[n - 1], n - 1));
          assert spine[i] == was[i] && was[i].rank == i;
          assert was[i].prev == if i == n - 1 then node else old(was[i].prev);
        }
      }
    }

    /** Overwrites the tuple of a node; the links do not change. */
    method Replace(node: ListNode, entry: Tuple, ghost i: nat)
      requires Valid() && i < |spine| && spine[i] == node && node.key == entry.key
      modifies this`contents, node`obj
      ensures Valid() && contents == old(contents)[i := entry]
    {
      node.obj := entry;
      contents := contents[i := entry];
      forall j | 0 <= j < |spine|
        ensures Placed(spine[j], j)
      {
        assert old(Placed(spine[j], j)) && old(Placed(spine[i], i));
      }
    }

    /** Following `next` from the head visits the tuples newest first. */
    method Forward() returns (ts: seq<Tuple>)
      requires Valid()
      ensures ts == Reversed(contents)
    {
      ts := [];
      var current := head;
      ghost var i := |spine| - 1;
      while current != null
        invariant -1 <= i < |spine| && current == NodeAt(spine, i)
        invariant |ts| == |spine| - 1 - i && forall j :: 0 <= j < |ts| ==> ts[j] == contents[|spine| - 1 - j]
        decreases i
      {
        assert Placed(spine[i], i);
        ts := ts + [current.obj];
        current := current.next;
        i := i - 1;
      }
    }

    /** Following `prev` from the tail visits them in exactly the opposite order. */
    method Backward() returns (ts: seq<Tuple>)
      requires Valid()
      ensures ts == contents
    {
      ts := [];
      var current := tail;
      ghost var i := 0;
      while current != null
        invariant 0 <= i <= |spine| && current == NodeAt(spine, i) && ts == contents[..i]
        decreases |spine| - i
      {
        assert Placed(spine[i], i);
        ts := ts + [current.obj];
        current := current.prev;
        i := i + 1;
      }
    }
  }
}
