/**
 Reply objects. Every object the reader's creation functions allocate gets the next index of an
 arena, and a pointer is an index, -1 for NULL. Parents are allocated before their children, so a
 pointer stored in an array always leads upwards.
 */
module Arena {
  import opened Resp

  type Ptr = p: int | -1 <= p
  const NULL: Ptr := -1

  datatype Object =
    | Leaf(reply: Reply)
    | Multi(elements: int, element: seq<Ptr>)

  /** The object at p and everything below it is allocated before `hi` and has no empty slot. */
  predicate Complete(heap: seq<Object>, p: Ptr, hi: nat)
    decreases hi - p
  {
    && 0 <= p < hi <= |heap|
    && (heap[p].Multi? ==>
          && |heap[p].element| == (if heap[p].elements < 0 then 0 else heap[p].elements)
          && forall j :: 0 <= j < |heap[p].element| ==>
               p < heap[p].element[j] && Complete(heap, heap[p].element[j], hi))
  }

  /** The reply tree a complete object stands for. */
  function Value(heap: seq<Object>, p: Ptr, hi: nat): Reply
    requires Complete(heap, p, hi)
    decreases hi - p
  {
    match heap[p]
    case Leaf(r) => r
    case Multi(n, element) =>
      if n < 0 then Hollow(n)
      else Array(seq(|element|, j requires 0 <= j < |element| => Value(heap, element[j], hi)))
  }

  /** Writes outside [p, hi) and allocation do not touch the tree at p. */
  lemma {:induction false} Untouched(heap: seq<Object>, heap': seq<Object>, p: Ptr, hi: nat, hi': nat)
    requires Complete(heap, p, hi) && hi <= hi' <= |heap'|
    requires forall q :: p <= q < hi ==> heap'[q] == heap[q]
    ensures Complete(heap', p, hi') && Value(heap', p, hi') == Value(heap, p, hi)
    decreases hi - p
  {
    if heap[p].Leaf? {
    } else {
      var element := heap[p].element;
      forall j | 0 <= j < |element|
        ensures Complete(heap', element[j], hi') && Value(heap', element[j], hi') == Value(heap, element[j], hi)
      {
        Untouched(heap, heap', element[j], hi, hi');
      }
    }
  }
}
