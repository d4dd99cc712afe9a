/**
 The reader's task stack over the arena: slot i of the stack is an array under construction, and
 slot i + 1 works on one of its elements. `Linked` is the stack's invariant, `Frames` what it means.
 */
module TaskStack {
  import opened Bytes
  import opened Resp
  import opened Resume
  import opened Arena

  const SLOTS: nat := 9
  const TYPE_NONE: int := -1
  const TYPE_STRING: int := 1
  const TYPE_ARRAY: int := 2
  const TYPE_INTEGER: int := 3
  const TYPE_STATUS: int := 5
  const TYPE_ERROR: int := 6

  datatype Task = Task(ty: int, elements: int, idx: int, obj: Ptr, parent: int)

  predicate KnownType(ty: int) {
    ty in {TYPE_STRING, TYPE_ARRAY, TYPE_INTEGER, TYPE_STATUS, TYPE_ERROR}
  }

  function TypeByte(ty: int): Option<byte> {
    if ty == TYPE_STRING then Some(DOLLAR)
    else if ty == TYPE_ARRAY then Some(STAR)
    else if ty == TYPE_INTEGER then Some(COLON)
    else if ty == TYPE_STATUS then Some(PLUS)
    else if ty == TYPE_ERROR then Some(MINUS)
    else None
  }

  /** Where the finished elements of array i end in the arena; `cur` is the object in the top slot, if any. */
  function Above(stack: seq<Task>, ridx: int, heap: seq<Object>, cur: Ptr, i: nat): int
    requires |stack| == SLOTS && i < ridx < SLOTS
  {
    if i + 1 < ridx then stack[i + 1].obj else if cur == NULL then |heap| else cur
  }

  /**
   Array i has room for its announced elements; the task above it is its child and works on an
   element in range; elements before that one are finished, the ones after it are still empty.
   */
  ghost predicate Level(stack: seq<Task>, ridx: int, heap: seq<Object>, cur: Ptr, i: nat)
    requires |stack| == SLOTS && i < ridx < SLOTS
  {
    var p, slot, hi := stack[i].obj, stack[i + 1].idx, Above(stack, ridx, heap, cur, i);
    && stack[i].ty == TYPE_ARRAY
    && stack[i + 1].parent == i
    && 0 <= p < hi <= |heap|
    && heap[p].Multi?
    && |heap[p].element| == heap[p].elements == stack[i].elements
    && 0 <= slot < stack[i].elements
    && heap[p].element[slot] == (if i + 1 < ridx then stack[i + 1].obj else cur)
    && (forall j :: 0 <= j < slot ==> p < heap[p].element[j] && Complete(heap, heap[p].element[j], hi))
    && (forall j :: slot < j < |heap[p].element| ==> heap[p].element[j] == NULL)
  }

  ghost predicate Linked(stack: seq<Task>, ridx: int, heap: seq<Object>, cur: Ptr) {
    && |stack| == SLOTS
    && -1 <= ridx < SLOTS
    && (ridx >= 0 ==> stack[0].parent == -1)
    && forall i: nat :: i < ridx ==> Level(stack, ridx, heap, cur, i)
  }

  ghost function FrameAt(stack: seq<Task>, ridx: int, heap: seq<Object>, cur: Ptr, i: nat): (f: Frame)
    requires |stack| == SLOTS && i < ridx < SLOTS && Level(stack, ridx, heap, cur, i)
    ensures |f.done| == stack[i + 1].idx < f.count == stack[i].elements
  {
    var element, hi := heap[stack[i].obj].element, Above(stack, ridx, heap, cur, i);
    var slot := stack[i + 1].idx;
    Frame(stack[i].elements, seq(slot, j requires 0 <= j < slot => Value(heap, element[j], hi)))
  }

  ghost function Frames(stack: seq<Task>, ridx: int, heap: seq<Object>, cur: Ptr): (fs: seq<Frame>)
    requires Linked(stack, ridx, heap, cur)
    ensures |fs| == (if ridx < 0 then 0 else ridx) && WellFormed(fs)
  {
    seq(if ridx < 0 then 0 else ridx, i requires 0 <= i < ridx => FrameAt(stack, ridx, heap, cur, i))
  }

  /** Allocate an object and, below the root, store it in the parent's slot. */
  function Install(stack: seq<Task>, ridx: int, heap: seq<Object>, o: Object): seq<Object>
    requires |stack| == SLOTS && 0 <= ridx < SLOTS
    requires ridx > 0 ==> 0 <= stack[ridx - 1].obj < |heap| && heap[stack[ridx - 1].obj].Multi?
    requires ridx > 0 ==> 0 <= stack[ridx].idx < |heap[stack[ridx - 1].obj].element|
  {
    if ridx == 0 then heap + [o]
    else
      var p := stack[ridx - 1].obj;
      heap[p := heap[p].(element := heap[p].element[stack[ridx].idx := |heap|])] + [o]
  }

  /** One level is unaffected by writes outside its own stretch of the arena. */
  lemma LevelStays(stack: seq<Task>, ridx: int, heap: seq<Object>, cur: Ptr,
                   stack': seq<Task>, ridx': int, heap': seq<Object>, cur': Ptr, i: nat)
    requires |stack| == |stack'| == SLOTS && i < ridx < SLOTS && i < ridx' < SLOTS
    requires Level(stack, ridx, heap, cur, i)
    requires stack'[i] == stack[i]
    requires stack'[i + 1].idx == stack[i + 1].idx && stack'[i + 1].parent == stack[i + 1].parent
    requires Above(stack', ridx', heap', cur', i) == Above(stack, ridx, heap, cur, i) <= |heap'|
    requires (if i + 1 < ridx' then stack'[i + 1].obj else cur') == (if i + 1 < ridx then stack[i + 1].obj else cur)
    requires forall q :: stack[i].obj <= q < Above(stack, ridx, heap, cur, i) ==> heap'[q] == heap[q]
    ensures Level(stack', ridx', heap', cur', i)
    ensures FrameAt(stack', ridx', heap', cur', i) == FrameAt(stack, ridx, heap, cur, i)
  {
    var hi := Above(stack, ridx, heap, cur, i);
    var element := heap[stack[i].obj].element;
    forall j | 0 <= j < stack[i + 1].idx
      ensures Complete(heap', element[j], hi) && Value(heap', element[j], hi) == Value(heap, element[j], hi)
    {
      Untouched(heap, heap', element[j], hi, hi);
    }
  }

  /** The object pointers of open arrays grow with the stack. */
  lemma {:induction false} OpenGrows(stack: seq<Task>, ridx: int, heap: seq<Object>, cur: Ptr, i: nat)
    requires Linked(stack, ridx, heap, cur) && i < ridx
    ensures stack[i].obj <= stack[ridx - 1].obj
    ensures i < ridx - 1 ==> stack[i + 1].obj <= stack[ridx - 1].obj
    decreases ridx - i
  {
    assert Level(stack, ridx, heap, cur, i);
    if i == ridx - 1 {
    } else {
      OpenGrows(stack, ridx, heap, cur, i + 1);
    }
  }

  /** The array the current item is to be stored in exists and has the slot. */
  lemma ParentReady(stack: seq<Task>, ridx: int, heap: seq<Object>, cur: Ptr)
    requires Linked(stack, ridx, heap, cur) && ridx >= 1
    ensures 0 <= stack[ridx - 1].obj < |heap| && heap[stack[ridx - 1].obj].Multi?
    ensures 0 <= stack[ridx].idx < |heap[stack[ridx - 1].obj].element|
    ensures stack[ridx].parent == ridx - 1
  {
    assert Level(stack, ridx, heap, cur, ridx - 1);
  }

  lemma Installed(stack: seq<Task>, ridx: int, heap: seq<Object>, o: Object)
    requires Linked(stack, ridx, heap, NULL) && ridx >= 0
    ensures ridx >= 1 ==> 0 <= stack[ridx - 1].obj < |heap| && heap[stack[ridx - 1].obj].Multi?
    ensures ridx >= 1 ==> 0 <= stack[ridx].idx < |heap[stack[ridx - 1].obj].element|
    ensures
      var heap' := Install(stack, ridx, heap, o);
      && Linked(stack, ridx, heap', |heap|)
      && Frames(stack, ridx, heap', |heap|) == Frames(stack, ridx, heap, NULL)
      && |heap'| == |heap| + 1 && heap'[|heap|] == o
  {
    if ridx >= 1 {
      ParentReady(stack, ridx, heap, NULL);
      var heap' := Install(stack, ridx, heap, o);
      var top := ridx - 1;
      forall i: nat | i < ridx
        ensures Level(stack, ridx, heap', |heap|, i)
        ensures FrameAt(stack, ridx, heap', |heap|, i) == FrameAt(stack, ridx, heap, NULL, i)
      {
        assert Level(stack, ridx, heap, NULL, i);
        if i < top {
          OpenGrows(stack, ridx, heap, NULL, i);
          LevelStays(stack, ridx, heap, NULL, stack, ridx, heap', |heap|, i);
        } else {
          TopStays(stack, ridx, heap, o);
        }
      }
    }
  }

  lemma TopStays(stack: seq<Task>, ridx: int, heap: seq<Object>, o: Object)
    requires Linked(stack, ridx, heap, NULL) && ridx >= 1
    requires Level(stack, ridx, heap, NULL, ridx - 1)
    ensures
      var heap' := Install(stack, ridx, heap, o);
      && Level(stack, ridx, heap', |heap|, ridx - 1)
      && FrameAt(stack, ridx, heap', |heap|, ridx - 1) == FrameAt(stack, ridx, heap, NULL, ridx - 1)
  {
    var heap' := Install(stack, ridx, heap, o);
    var p, slot := stack[ridx - 1].obj, stack[ridx].idx;
    var element := heap[p].element;
    forall j | 0 <= j < slot
      ensures heap'[p].element[j] == element[j]
      ensures Complete(heap', element[j], |heap|) && Value(heap', element[j], |heap|) == Value(heap, element[j], |heap|)
    {
      Untouched(heap, heap', element[j], |heap|, |heap|);
    }
  }

  /** Filling the last slot of the innermost array completes that array. */
  lemma Popped(stack: seq<Task>, ridx: int, heap: seq<Object>, q: Ptr)
    requires Linked(stack, ridx, heap, q) && ridx >= 1 && Complete(heap, q, |heap|)
    requires stack[ridx].idx == stack[ridx - 1].elements - 1
    ensures
      var p := stack[ridx - 1].obj;
      && Linked(stack, ridx - 1, heap, p)
      && Complete(heap, p, |heap|)
      && var top := FrameAt(stack, ridx, heap, q, ridx - 1);
      && |top.done| == top.count - 1
      && Frames(stack, ridx, heap, q) == Frames(stack, ridx - 1, heap, p) + [top]
      && Value(heap, p, |heap|) == Array(top.done + [Value(heap, q, |heap|)])
  {
    var p, below := stack[ridx - 1].obj, ridx - 1;
    assert Level(stack, ridx, heap, q, below);
    forall i: nat | i < below
      ensures Level(stack, below, heap, p, i)
      ensures FrameAt(stack, below, heap, p, i) == FrameAt(stack, ridx, heap, q, i)
    {
      assert Level(stack, ridx, heap, q, i);
      LevelStays(stack, ridx, heap, q, stack, below, heap, p, i);
    }
    assert Linked(stack, below, heap, p);
    var element := heap[p].element;
    forall j | 0 <= j < |element| - 1
      ensures Complete(heap, element[j], |heap|) && Value(heap, element[j], |heap|) == Value(heap, element[j], q)
    {
      Untouched(heap, heap, element[j], q, |heap|);
    }
  }

  /** Filling any other slot moves the task on to the next one. */
  lemma Advanced(stack: seq<Task>, ridx: int, heap: seq<Object>, q: Ptr, task: Task)
    requires Linked(stack, ridx, heap, q) && ridx >= 1 && Complete(heap, q, |heap|)
    requires stack[ridx].idx < stack[ridx - 1].elements - 1
    requires task.idx == stack[ridx].idx + 1 && task.parent == stack[ridx].parent
    ensures
      var stack' := stack[ridx := task];
      && Linked(stack', ridx, heap, NULL)
      && Linked(stack, ridx - 1, heap, stack[ridx - 1].obj)
      && var top := FrameAt(stack, ridx, heap, q, ridx - 1);
      && var below := Frames(stack, ridx - 1, heap, stack[ridx - 1].obj);
      && |top.done| < top.count - 1
      && Frames(stack, ridx, heap, q) == below + [top]
      && Frames(stack', ridx, heap, NULL) == below + [Frame(top.count, top.done + [Value(heap, q, |heap|)])]
  {
    var stack', p, below := stack[ridx := task], stack[ridx - 1].obj, ridx - 1;
    assert Level(stack, ridx, heap, q, below);
    forall i: nat | i < below
      ensures Level(stack', ridx, heap, NULL, i) && Level(stack, below, heap, p, i)
      ensures FrameAt(stack', ridx, heap, NULL, i) == FrameAt(stack, ridx, heap, q, i)
      ensures FrameAt(stack, ridx, heap, q, i) == FrameAt(stack, below, heap, p, i)
    {
      assert Level(stack, ridx, heap, q, i);
      LevelStays(stack, ridx, heap, q, stack', ridx, heap, NULL, i);
      LevelStays(stack, ridx, heap, q, stack, below, heap, p, i);
    }
    assert Linked(stack, below, heap, p);
    var element := heap[p].element;
    forall j | 0 <= j < task.idx
      ensures p < element[j] && Complete(heap, element[j], |heap|)
      ensures j < task.idx - 1 ==> Value(heap, element[j], |heap|) == Value(heap, element[j], q)
    {
      if j < task.idx - 1 { Untouched(heap, heap, element[j], q, |heap|); }
    }
    assert Level(stack', ridx, heap, NULL, below);
    assert FrameAt(stack', ridx, heap, NULL, below) ==
           Frame(stack[below].elements, FrameAt(stack, ridx, heap, q, below).done + [Value(heap, q, |heap|)]);
  }

  /** A fresh array with room for elements becomes the innermost frame. */
  lemma Pushed(stack: seq<Task>, ridx: int, heap: seq<Object>, n: int, task: Task)
    requires 0 <= ridx < SLOTS - 1 && n > 0 && heap != [] && Linked(stack, ridx, heap, |heap| - 1)
    requires stack[ridx].ty == TYPE_ARRAY
    requires heap[|heap| - 1] == Multi(n, seq(n, _ => NULL))
    requires task.idx == 0 && task.parent == ridx
    ensures
      var stack' := stack[ridx := stack[ridx].(elements := n, obj := |heap| - 1)][ridx + 1 := task];
      && Linked(stack', ridx + 1, heap, NULL)
      && Frames(stack', ridx + 1, heap, NULL) == Frames(stack, ridx, heap, |heap| - 1) + [Frame(n, [])]
  {
    var q, above := |heap| - 1, ridx + 1;
    var stack' := stack[ridx := stack[ridx].(elements := n, obj := q)][above := task];
    forall i: nat | i < ridx
      ensures Level(stack', above, heap, NULL, i)
      ensures FrameAt(stack', above, heap, NULL, i) == FrameAt(stack, ridx, heap, q, i)
    {
      assert Level(stack, ridx, heap, q, i);
      LevelStays(stack, ridx, heap, q, stack', above, heap, NULL, i);
    }
    assert Level(stack', above, heap, NULL, ridx);
    assert FrameAt(stack', above, heap, NULL, ridx) == Frame(n, []);
  }

  /** The type of the current task is not part of what the stack has built. */
  lemma TypeIsBookkeeping(stack: seq<Task>, ridx: int, heap: seq<Object>, task: Task)
    requires Linked(stack, ridx, heap, NULL) && ridx >= 0
    requires task == stack[ridx].(ty := task.ty)
    ensures Linked(stack[ridx := task], ridx, heap, NULL)
    ensures Frames(stack[ridx := task], ridx, heap, NULL) == Frames(stack, ridx, heap, NULL)
  {
    var stack' := stack[ridx := task];
    forall i: nat | i < ridx
      ensures Level(stack', ridx, heap, NULL, i)
      ensures FrameAt(stack', ridx, heap, NULL, i) == FrameAt(stack, ridx, heap, NULL, i)
    {
      assert Level(stack, ridx, heap, NULL, i);
      LevelStays(stack, ridx, heap, NULL, stack', ridx, heap, NULL, i);
    }
  }
}
