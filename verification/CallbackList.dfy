/** Callbacks of asynchronous commands and the linked list they wait in. */
module CallbackList {
  /** What a callback does when it runs: issue further commands, disconnect, or free the connection. */
  datatype Action = Issue(cb: Callback) | Disconnect | Free

  datatype Callback = Null | Fn(script: seq<Action>)

  class Node {
    var cb: Callback
    var next: Node?
    ghost var rank: nat

    constructor (cb: Callback)
      ensures this.cb == cb && next == null
    {
      this.cb, next := cb, null;
    }
  }

  function NodeAt(spine: seq<Node>, i: int): Node? {
    if 0 <= i < |spine| then spine[i] else null
  }

  class List {
    var head: Node?
    var tail: Node?
    ghost var spine: seq<Node>
    ghost var contents: seq<Callback>
    ghost var first: nat
    ghost var Repr: set<Node>

    ghost predicate Valid()
      reads this, Repr
    {
      && |contents| == |spine|
      && head == NodeAt(spine, 0) && tail == NodeAt(spine, |spine| - 1)
      && (forall i {:trigger spine[i]} :: 0 <= i < |spine| ==> spine[i] in Repr)
      && (forall i {:trigger Placed(spine[i], i)} :: 0 <= i < |spine| ==> Placed(spine[i], i))
    }

    ghost predicate Placed(n: Node, i: nat)
      requires i < |contents|
      reads this`contents, this`spine, this`first, n
    {
      n.rank == first + i && n.next == NodeAt(spine, i + 1) && n.cb == contents[i]
    }

    constructor ()
      ensures Valid() && contents == [] && Repr == {}
    {
      head, tail, spine, contents, first, Repr := null, null, [], [], 0, {};
    }

    /** Appends a copy of the callback. */
    method Push(source: Callback)
      requires Valid()
      modifies this, Repr
      ensures Valid() && contents == old(contents) + [source] && fresh(Repr - old(Repr))
    {
      ghost var was, n := spine, |spine|;
      assert n > 0 ==> tail == was[n - 1] && Placed(was[n - 1], n - 1);
      var cb := new Node(source);
      cb.rank := first + n;
      if head == null {
        head := cb;
      }
      if tail != null {
        tail.next := cb;
      }
      tail := cb;
      spine, contents, Repr := spine + [cb], contents + [source], Repr + {cb};
      forall i | 0 <= i < |spine|
        ensures Placed(spine[i], i)
      {
        if i < n {
          assert old(Placed(spine[i], i)) && spine[i] == was[i] && was[i].rank == first + i;
          assert was[i].next == if i == n - 1 then cb else old(was[i].next);
        }
      }
    }

    /** Takes the oldest callback off the list. */
    method Shift() returns (found: bool, target: Callback)
      requires Valid()
      modifies this
      ensures Valid() && Repr == old(Repr)
      ensures found == (old(contents) != [])
      ensures found ==> [target] + contents == old(contents)
      ensures !found ==> contents == []
    {
      var cb := head;
      if cb == null {
        return false, Null;
      }
      assert Placed(spine[0], 0);
      head := cb.next;
      if cb == tail {
        assert old(Placed(spine[|spine| - 1], |spine| - 1));
        tail := null;
      }
      ghost var was := spine;
      spine, contents, first := spine[1..], contents[1..], first + 1;
      forall i | 0 <= i < |spine|
        ensures Placed(spine[i], i)
      {
        assert old(Placed(spine[i + 1], i + 1)) && spine[i] == was[i + 1];
        assert NodeAt(spine, i + 1) == NodeAt(was, i + 2);
      }
      return true, cb.cb;
    }
  }
}
