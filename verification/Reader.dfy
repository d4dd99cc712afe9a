/**
 The incremental reply reader: a cursor into a buffer that grows with every feed, a nine-slot task
 stack, and reply objects linked together while they are read.
 */
module Reader {
  import opened Bytes
  import opened Decimal
  import opened Resp
  import opened Resume
  import opened Arena
  import opened TaskStack
  import Sds

  const MAX_SPARE: nat := 16384
  const COMPACT_AT: nat := 1024

  lemma {:induction false} UpToCrReaches(s: bytes, i: nat)
    requires i < |s| && CR !in s[..i + 1]
    ensures |UpToCr(s)| > i && UpToCr(s)[i] == s[i]
  {
    assert s[0] in s[..i + 1];
    if i == 0 {
    } else {
      assert s[1..][..i] == s[..i + 1][1..];
      UpToCrReaches(s[1..], i - 1);
    }
  }

  /** Offset of the first CR LF pair of s, or -1; s is followed by a NUL terminator. */
  method SeekNewline(s: bytes) returns (k: int)
    ensures k == FindCrlf(s)
  {
    var pos := 0;
    var last := |s| - 1;
    while pos < last
      invariant 0 <= pos <= |s|
      invariant FindCrlf(s) == (var k := FindCrlf(s[pos..]); if k < 0 then -1 else pos + k)
    {
      while pos < last && At(s, pos) != CR
        invariant 0 <= pos <= |s|
        invariant pos <= last
        invariant FindCrlf(s) == (var k := FindCrlf(s[pos..]); if k < 0 then -1 else pos + k)
      {
        assert s[pos..][1..] == s[pos + 1..];
        pos := pos + 1;
      }
      if At(s, pos) != CR {
        return -1;
      } else if At(s, pos + 1) == LF {
        return pos;
      } else {
        assert pos < last ==> s[pos..][1..] == s[pos + 1..];
        pos := pos + 1;
      }
    }
    return -1;
  }

  /** A bulk item is decided once its header, its announced length and two more bytes are there. */
  lemma BulkDecided(s: bytes, k: nat, depth: nat)
    requires FindCrlf(s) == k
    ensures
      var n := LineInteger(s[..k]);
      ParseBody(DOLLAR, s, depth) ==
      if n < 0 then Done(Nil, s[k + 2..])
      else if |s| < k + n + 4 then More
      else Done(Bulk(s[k + 2..][..n]), s[k + n + 4..])
  {
    var n := LineInteger(s[..k]);
    if 0 <= n <= |s| - k - 4 {
      SubSlice(s, k + 2, |s|, n + 2, |s| - k - 2);
      assert s[k + 2..|s|] == s[k + 2..];
    }
  }

  /** An array header with nothing to follow is decided at the end of its line. */
  lemma EmptyDecided(s: bytes, k: nat, depth: nat)
    requires FindCrlf(s) == k && depth < MAX_DEPTH && LineInteger(s[..k]) <= 0
    ensures
      var n := LineInteger(s[..k]);
      ParseBody(STAR, s, depth) == Done(if n == -1 then Nil else if n == 0 then Array([]) else Hollow(n), s[k + 2..])
  {
    var none: seq<Reply> := [];
    assert none + none == none;
    assert ParseMany(0, s[k + 2..], depth + 1) == Done(none, s[k + 2..]);
  }

  /** Length of the sign a number may start with. */
  function SignLength(s: bytes): nat {
    if s != [] && (s[0] == MINUS || s[0] == PLUS) then 1 else 0
  }

  lemma NumberEnds(s: bytes, k: nat, i: nat)
    requires k < |s| && s[k] == CR && SignLength(s) <= i <= k && s[i] == CR && CR !in s[..i]
    requires AllDigits(s[SignLength(s)..i])
    ensures LineInteger(s[..k]) == (if s[0] == MINUS then -1 else 1) * Natural(s[SignLength(s)..i])
  {
    UpToCrIsPrefix(s[..k], i);
    assert s[..k][..i] == s[..i];
    assert s[..i][SignLength(s)..] == s[SignLength(s)..i];
    if i == 0 { assert s[0..0] == []; }
  }

  lemma NumberBreaks(s: bytes, k: nat, i: nat)
    requires k < |s| && SignLength(s) <= i < k && CR !in s[..i + 1] && !(ZERO <= s[i] <= ZERO + 9)
    ensures LineInteger(s[..k]) == -1
  {
    var text, start := UpToCr(s[..k]), SignLength(s);
    assert s[..k][..i + 1] == s[..i + 1];
    UpToCrReaches(s[..k], i);
    assert s[..k][..1] == [s[0]] && s[0] in s[..i + 1];
    UpToCrReaches(s[..k], 0);
    assert SignLength(text) == start;
    assert text[start..][i - start] == s[i];
  }

  /** Reads a signed number up to the first CR; the line ends at offset k, and -1 stands for a malformed one. */
  method ReadLongLong(s: bytes, ghost k: nat) returns (r: int)
    requires k < |s| && s[k] == CR
    ensures r == LineInteger(s[..k])
  {
    var v, mult, i := 0, 1, 0;
    if s[0] == MINUS {
      mult, i := -1, 1;
    } else if s[0] == PLUS {
      mult, i := 1, 1;
    }
    ghost var start := i;
    while s[i] != CR
      invariant start <= i <= k
      invariant forall x :: 0 <= x < i ==> s[x] != CR
      invariant AllDigits(s[start..i]) && v == Natural(s[start..i])
      decreases k - i
    {
      var dec := s[i] - ZERO;
      if 0 <= dec < 10 {
        OneMoreDigit(s, start, i);
        v := v * 10 + dec;
        i := i + 1;
      } else {
        NumberBreaks(s, k, i);
        return -1;
      }
    }
    NumberEnds(s, k, i);
    return mult * v;
  }

  lemma OneMoreDigit(s: bytes, start: nat, i: nat)
    requires start <= i < |s| && AllDigits(s[start..i]) && ZERO <= s[i] <= ZERO + 9
    ensures AllDigits(s[start..i + 1]) && Natural(s[start..i + 1]) == Natural(s[start..i]) * 10 + (s[i] - ZERO)
  {
    var t := s[start..i + 1];
    assert t == s[start..i] + [s[i]];
    assert t[..|t| - 1] == s[start..i];
  }

  class Reader {
    var err: Option<ParseError>
    var buf: bytes
    var spare: nat
    var pos: nat
    var len: nat
    const rstack: array<Task>
    var ridx: int
    var reply: Ptr
    var heap: seq<Object>

    ghost var fed: bytes           // everything accepted by Feed
    ghost var out: seq<Reply>      // the replies handed out
    ghost var root: bytes          // what was fed from the start of the current reply on

    ghost function Unread(): bytes
      requires pos <= |buf|
      reads this
    {
      buf[pos..]
    }

    ghost predicate Buffered()
      reads this, rstack
    {
      && rstack.Length == SLOTS
      && pos <= len == |buf|
      && -1 <= ridx < SLOTS
      && Leaves(fed, out, root)
    }

    /** The reader is inside a reply and the stack says what is missing. */
    ghost predicate Reading()
      reads this, rstack
    {
      && Buffered()
      && err.None?
      && 0 <= ridx
      && (rstack[ridx].ty == TYPE_NONE || KnownType(rstack[ridx].ty))
      && Linked(rstack[..], ridx, heap, NULL)
      && reply == (if ridx == 0 then NULL else rstack[0].obj)
      && Tracks(root, Frames(rstack[..], ridx, heap, NULL), TypeByte(rstack[ridx].ty), Unread())
    }

    /** The current item has become the object q, but the stack has not moved on. */
    ghost predicate Filled(q: Ptr)
      reads this, rstack
    {
      && Buffered()
      && err.None?
      && 0 <= ridx
      && Linked(rstack[..], ridx, heap, q)
      && Complete(heap, q, |heap|)
      && Holds(root, Frames(rstack[..], ridx, heap, q), Value(heap, q, |heap|), Unread())
    }

    /** A whole reply hangs off `top`. */
    ghost predicate Whole(top: Ptr)
      reads this, rstack
    {
      && Buffered()
      && err.None?
      && ridx == -1
      && Complete(heap, top, |heap|)
      && Completes(root, Value(heap, top, |heap|), Unread())
    }

    ghost predicate Idle()
      reads this, rstack
    {
      Buffered() && err.None? && ridx == -1 && reply == NULL && root == Unread()
    }

    ghost predicate Stopped()
      reads this, rstack
    {
      && Buffered()
      && err.Some? && Parse(root, 0) == Bad(err.value)
      && buf == [] && ridx == -1 && reply == NULL
    }

    /** A nested array past the deepest slot is an error at once, so the reader never rests on one. */
    ghost predicate Waiting()
      reads this, rstack
    {
      Reading() && !(ridx == MAX_DEPTH && rstack[ridx].ty == TYPE_ARRAY)
    }

    ghost predicate Valid()
      reads this, rstack
    {
      Idle() || Waiting() || Stopped()
    }

    constructor ()
      ensures Idle() && fresh(rstack) && fed == [] && out == []
    {
      rstack := new Task[SLOTS](_ => Task(TYPE_NONE, -1, -1, NULL, -1));
      err, buf, spare, pos, len := None, [], 0, 0, 0;
      ridx, reply, heap := -1, NULL, [];
      fed, out, root := [], [], [];
    }

    method SetTask(i: nat, task: Task)
      requires i < rstack.Length
      modifies rstack
      ensures rstack[..] == old(rstack[..])[i := task]
    {
      rstack[i] := task;
    }

    method SetError(e: ParseError)
      requires Buffered() && Parse(root, 0) == Bad(e)
      modifies this
      ensures Stopped() && err == Some(e)
      ensures fed == old(fed) && out == old(out) && root == old(root)
    {
      reply := NULL;
      buf, pos, len := [], 0, 0;
      ridx := -1;
      err := Some(e);
    }

    method Append(chunk: bytes)
      requires Idle() || Waiting()
      modifies this
      ensures (if old(Idle()) then Idle() else Waiting())
      ensures fed == old(fed) + chunk && out == old(out)
    {
      LeavesLater(fed, out, root, chunk);
      if ridx >= 0 {
        FeedKeepsTracking(root, Frames(rstack[..], ridx, heap, NULL), TypeByte(rstack[ridx].ty), Unread(), chunk);
      }
      LongerSlices(buf, chunk, pos);
      spare := Sds.AfterCat(|buf|, spare, |chunk|);
      buf := buf + chunk;
      len := |buf|;
      fed, root := fed + chunk, root + chunk;
      assert rstack[..] == old(rstack[..]);
    }

    /** Takes more input; refused once the reader has failed. */
    method Feed(chunk: bytes) returns (ok: bool)
      requires Valid()
      modifies this
      ensures Valid() && out == old(out)
      ensures ok == old(err.None?) && err == old(err)
      ensures fed == if ok then old(fed) + chunk else old(fed)
    {
      if err.Some? {
        return false;
      }
      if |chunk| >= 1 {
        if len == 0 && spare > MAX_SPARE {
          buf, spare, pos := [], 0, 0;
          assert rstack[..] == old(rstack[..]);
        }
        Append(chunk);
      } else {
        assert fed + chunk == fed;
      }
      return true;
    }

    /** The last element of the innermost array completes it: the array is the finished object now. */
    lemma CloseArray(q: Ptr)
      requires Filled(q) && ridx >= 1 && rstack[ridx].idx == rstack[ridx - 1].elements - 1
      ensures
        var p := rstack[ridx - 1].obj;
        && Linked(rstack[..], ridx - 1, heap, p)
        && Complete(heap, p, |heap|)
        && Holds(root, Frames(rstack[..], ridx - 1, heap, p), Value(heap, p, |heap|), Unread())
    {
      Popped(rstack[..], ridx, heap, q);
      LastElement(root, Frames(rstack[..], ridx - 1, heap, rstack[ridx - 1].obj),
                  FrameAt(rstack[..], ridx, heap, q, ridx - 1), Value(heap, q, |heap|), Unread());
    }

    lemma StepOn(q: Ptr, task: Task)
      requires Filled(q) && ridx >= 1 && rstack[ridx].idx != rstack[ridx - 1].elements - 1
      requires task.idx == rstack[ridx].idx + 1 && task.parent == rstack[ridx].parent
      ensures
        var stack := rstack[..][ridx := task];
        && Linked(stack, ridx, heap, NULL)
        && Tracks(root, Frames(stack, ridx, heap, NULL), None, Unread())
    {
      assert Level(rstack[..], ridx, heap, q, ridx - 1);
      Advanced(rstack[..], ridx, heap, q, task);
      NextElement(root, Frames(rstack[..], ridx - 1, heap, rstack[ridx - 1].obj),
                  FrameAt(rstack[..], ridx, heap, q, ridx - 1), Value(heap, q, |heap|), Unread());
    }

    /**
     Gives the finished object its place: close every array it completes, and either step to the
     next element of the first array that still has one or find the whole reply complete.
     */
    method MoveToNextTask(ghost q: Ptr)
      requires Filled(q)
      modifies this`ridx, rstack
      ensures rstack[0] == old(rstack[0])
      ensures ridx < 0 ==> Whole(if old(ridx) == 0 then q else old(rstack[0].obj))
      ensures ridx >= 0 ==>
        && 1 <= ridx <= old(ridx)
        && Buffered() && rstack[ridx].ty == TYPE_NONE
        && Linked(rstack[..], ridx, heap, NULL)
        && Tracks(root, Frames(rstack[..], ridx, heap, NULL), None, Unread())
    {
      ghost var o := q;
      while ridx >= 0
        invariant Filled(o) && rstack[..] == old(rstack[..]) && 0 <= ridx <= old(ridx)
        invariant o == if ridx == old(ridx) then q else rstack[ridx].obj
        decreases ridx
      {
        if ridx == 0 {
          ridx := ridx - 1;
          NothingOpen(root, Value(heap, o, |heap|), Unread());
          return;
        }
        var cur, prv := rstack[ridx], rstack[ridx - 1];
        if cur.idx == prv.elements - 1 {
          CloseArray(o);
          o := prv.obj;
          ridx := ridx - 1;
        } else {
          var task := cur.(ty := TYPE_NONE, elements := -1, idx := cur.idx + 1);
          StepOn(o, task);
          SetTask(ridx, task);
          return;
        }
      }
    }

    /** Allocates a reply object and stores it in the array of the parent task, if there is one. */
    method Create(o: Object) returns (q: Ptr)
      requires Buffered() && 0 <= ridx && Linked(rstack[..], ridx, heap, NULL)
      modifies this`heap
      ensures q == |old(heap)| && |heap| == q + 1 && heap[q] == o
      ensures Linked(rstack[..], ridx, heap, q)
      ensures Frames(rstack[..], ridx, heap, q) == old(Frames(rstack[..], ridx, heap, NULL))
    {
      q := |heap|;
      var task := rstack[ridx];
      Installed(rstack[..], ridx, heap, o);
      ghost var installed := Install(rstack[..], ridx, heap, o);
      if ridx >= 1 {
        ParentReady(rstack[..], ridx, heap, NULL);
      }
      heap := heap + [o];
      if task.parent >= 0 {
        var parent := rstack[task.parent].obj;
        heap := heap[parent := heap[parent].(element := heap[parent].element[task.idx := q])];
      }
      assert heap == installed;
    }

    /** Turns a decided item into an object and moves on. */
    method Deliver(o: Object, ghost r: Reply)
      requires Buffered() && err.None? && 0 <= ridx && Linked(rstack[..], ridx, heap, NULL)
      requires reply == if ridx == 0 then NULL else rstack[0].obj
      requires
        || o == Leaf(r)
        || (r == Array([]) && o == Multi(0, []))
        || (r.Hollow? && r.count < 0 && o == Multi(r.count, []))
      requires Holds(root, Frames(rstack[..], ridx, heap, NULL), r, Unread())
      modifies this`heap, this`ridx, this`reply, rstack
      ensures if ridx < 0 then Whole(reply) else Reading()
    {
      var q := Create(o);
      assert Complete(heap, q, |heap|) && Value(heap, q, |heap|) == r;
      if ridx == 0 {
        reply := q;
      }
      assert rstack[..] == old(rstack[..]);
      MoveToNextTask(q);
    }

    /** The item is not decided by what has been read so far. */
    method GiveUp() returns (ok: bool)
      requires Reading() && ParseItem(TypeByte(rstack[ridx].ty), Unread(), ridx) == More
      ensures !ok && Parse(root, 0) == More
    {
      PendingNow(root, Frames(rstack[..], ridx, heap, NULL), TypeByte(rstack[ridx].ty), Unread());
      return false;
    }

    /** Passes over a decided item of n bytes, makes it an object, and moves on. */
    method Finish(n: nat, o: Object, ghost r: Reply) returns (ok: bool)
      requires Reading() && TypeByte(rstack[ridx].ty).Some? && 0 < n <= |Unread()|
      requires ParseBody(TypeByte(rstack[ridx].ty).value, Unread(), ridx) == Done(r, Unread()[n..])
      requires
        || o == Leaf(r)
        || (r == Array([]) && o == Multi(0, []))
        || (r.Hollow? && r.count < 0 && o == Multi(r.count, []))
      modifies this`pos, this`heap, this`ridx, this`reply, rstack
      ensures ok && pos == old(pos) + n && if ridx < 0 then Whole(reply) else Reading()
    {
      ItemRead(root, Frames(rstack[..], ridx, heap, NULL), TypeByte(rstack[ridx].ty).value, Unread());
      pos := pos + n;
      assert old(Unread())[n..] == Unread();
      Deliver(o, r);
      return true;
    }

    method ProcessLineItem() returns (ok: bool)
      requires Reading() && rstack[ridx].ty in {TYPE_INTEGER, TYPE_STATUS, TYPE_ERROR}
      modifies this`pos, this`heap, this`ridx, this`reply, rstack
      ensures ok ==> pos > old(pos) && if ridx < 0 then Whole(reply) else Reading()
      ensures !ok ==> Reading() && Parse(root, 0) == More
    {
      var s := buf[pos..];
      var k := SeekNewline(s);
      if k < 0 {
        ok := GiveUp();
        return;
      }
      var r: Reply;
      if rstack[ridx].ty == TYPE_INTEGER {
        var v := ReadLongLong(s, k);
        r := Number(v);
      } else {
        r := if rstack[ridx].ty == TYPE_STATUS then Status(s[..k]) else Failure(s[..k]);
      }
      ok := Finish(k + 2, Leaf(r), r);
    }

    method ProcessBulkItem() returns (ok: bool)
      requires Reading() && rstack[ridx].ty == TYPE_STRING
      modifies this`pos, this`heap, this`ridx, this`reply, rstack
      ensures ok ==> pos > old(pos) && if ridx < 0 then Whole(reply) else Reading()
      ensures !ok ==> Reading() && Parse(root, 0) == More
    {
      var s := buf[pos..];
      var k := SeekNewline(s);
      if k < 0 {
        ok := GiveUp();
        return;
      }
      var bytelen := k + 2;
      var n := ReadLongLong(s, k);
      BulkDecided(s, k, ridx);
      var r := Nil;
      if n >= 0 {
        bytelen := bytelen + n + 2;
        if pos + bytelen > len {
          ok := GiveUp();
          return;
        }
        r := Bulk(s[k + 2..][..n]);
      }
      ok := Finish(bytelen, Leaf(r), r);
    }

    /** Opens an array of n elements whose header line ends at offset k. */
    method OpenArray(n: int, k: nat)
      requires Reading() && rstack[ridx].ty == TYPE_ARRAY && ridx < MAX_DEPTH
      requires FindCrlf(Unread()) == k && LineInteger(Unread()[..k]) == n && n > 0
      modifies this`pos, this`heap, this`ridx, this`reply, rstack
      ensures Reading() && pos > old(pos)
    {
      HeaderRead(root, Frames(rstack[..], ridx, heap, NULL), Unread(), k, n);
      ghost var rest := Unread()[k + 2..];
      pos := pos + k + 2;
      assert rest == Unread();
      PushTask(n);
    }

    method PushTask(n: int)
      requires Buffered() && err.None? && 0 <= ridx < MAX_DEPTH && rstack[ridx].ty == TYPE_ARRAY && n > 0
      requires Linked(rstack[..], ridx, heap, NULL)
      requires reply == if ridx == 0 then NULL else rstack[0].obj
      requires Tracks(root, Frames(rstack[..], ridx, heap, NULL) + [Frame(n, [])], None, Unread())
      modifies this`heap, this`ridx, this`reply, rstack
      ensures Reading()
    {
      var isRoot := ridx == 0;
      var q := Create(Multi(n, seq(n, _ => NULL)));
      var task := Task(TYPE_NONE, -1, 0, NULL, ridx);
      Pushed(rstack[..], ridx, heap, n, task);
      SetTask(ridx, rstack[ridx].(elements := n, obj := q));
      ridx := ridx + 1;
      SetTask(ridx, task);
      if isRoot {
        reply := q;
      }
    }

    /** The array item once its nesting depth has been accepted. */
    method ProcessHeader() returns (ok: bool)
      requires Reading() && rstack[ridx].ty == TYPE_ARRAY && ridx < MAX_DEPTH
      modifies this`pos, this`heap, this`ridx, this`reply, rstack
      ensures ok ==> pos > old(pos) && if ridx < 0 then Whole(reply) else Reading()
      ensures !ok ==> Reading() && Parse(root, 0) == More
    {
      var s := buf[pos..];
      var k := SeekNewline(s);
      if k < 0 {
        ok := GiveUp();
        return;
      }
      var n := ReadLongLong(s, k);
      if n > 0 {
        OpenArray(n, k);
        ok := true;
      } else {
        EmptyDecided(s, k, ridx);
        ok := Finish(k + 2, if n == -1 then Leaf(Nil) else Multi(n, []),
                     if n == -1 then Nil else if n == 0 then Array([]) else Hollow(n));
      }
    }

    method ProcessMultiBulkItem() returns (ok: bool)
      requires Reading() && rstack[ridx].ty == TYPE_ARRAY
      modifies this, rstack
      ensures fed == old(fed) && out == old(out) && root == old(root)
      ensures ok ==> pos > old(pos) && buf == old(buf) && if ridx < 0 then Whole(reply) else Reading()
      ensures !ok ==> Stopped() || (Reading() && Parse(root, 0) == More)
    {
      if ridx == MAX_DEPTH {
        PendingNow(root, Frames(rstack[..], ridx, heap, NULL), TypeByte(rstack[ridx].ty), Unread());
        SetError(TooDeep);
        return false;
      }
      ok := ProcessHeader();
    }

    /** Reads the type byte of the current item unless an earlier call has. */
    method ReadType() returns (ok: bool)
      requires Reading()
      modifies this, rstack
      ensures fed == old(fed) && out == old(out) && root == old(root)
      ensures ok ==> Reading() && KnownType(rstack[ridx].ty) && buf == old(buf) && pos >= old(pos)
      ensures !ok ==> Stopped() || (Reading() && Parse(root, 0) == More)
    {
      if rstack[ridx].ty >= 0 {
        return true;
      }
      if len - pos < 1 {
        ok := GiveUp();
        return;
      }
      var b := buf[pos];
      ghost var frames := Frames(rstack[..], ridx, heap, NULL);
      TypeRead(root, frames, Unread());
      PendingNow(root, frames, Some(b), Unread()[1..]);
      pos := pos + 1;
      assert Unread() == old(Unread())[1..];
      var ty := if b == MINUS then TYPE_ERROR else if b == PLUS then TYPE_STATUS else if b == COLON then TYPE_INTEGER
                else if b == DOLLAR then TYPE_STRING else if b == STAR then TYPE_ARRAY else TYPE_NONE;
      if ty == TYPE_NONE {
        SetError(BadType(b));
        return false;
      }
      TypeIsBookkeeping(rstack[..], ridx, heap, rstack[ridx].(ty := ty));
      SetTask(ridx, rstack[ridx].(ty := ty));
      return true;
    }

    /** One item: progress, a wait for more input, or an error. */
    method ProcessItem() returns (ok: bool)
      requires Reading()
      modifies this, rstack
      ensures fed == old(fed) && out == old(out) && root == old(root)
      ensures ok ==> pos > old(pos) && buf == old(buf) && if ridx < 0 then Whole(reply) else Reading()
      ensures !ok ==> Stopped() || (Reading() && Parse(root, 0) == More)
    {
      ok := ReadType();
      if ok {
        var ty := rstack[ridx].ty;
        if ty == TYPE_STRING {
          ok := ProcessBulkItem();
        } else if ty == TYPE_ARRAY {
          ok := ProcessMultiBulkItem();
        } else {
          ok := ProcessLineItem();
        }
      }
    }

    /** Drops the consumed part of the buffer once it is large. */
    method Compact()
      requires Buffered() && err.None?
      modifies this`buf, this`spare, this`pos, this`len
      ensures Buffered() && Unread() == old(Unread())
    {
      if pos >= COMPACT_AT {
        Sds.RangeToEnd(buf, pos);
        spare := spare + pos;
        buf := Sds.Range(buf, pos, -1);
        pos := 0;
        len := |buf|;
      }
    }

    /** Starts a reply when none is open, and processes items until it is complete or input runs out. */
    method Run() returns (done: bool)
      requires Idle() || Reading()
      modifies this, rstack
      ensures fed == old(fed) && out == old(out) && root == old(root)
      ensures done ==> Whole(reply)
      ensures !done ==> Stopped() || (Waiting() && Parse(root, 0) == More)
    {
      if ridx == -1 {
        SetTask(0, Task(TYPE_NONE, -1, -1, NULL, -1));
        ridx := 0;
        StartsTracking(root);
        assert Frames(rstack[..], ridx, heap, NULL) == [];
      }
      while ridx >= 0
        invariant fed == old(fed) && out == old(out) && root == old(root)
        invariant if ridx < 0 then Whole(reply) else Reading()
        decreases |buf| - pos
      {
        var ok := ProcessItem();
        if !ok {
          if err.None? {
            RestsShallow();
          }
          return false;
        }
      }
      return true;
    }

    /**
     One request for a reply. NULL with success means that what was fed so far holds no further
     reply; failure is final.
     */
    method GetReply() returns (ok: bool, r: Ptr)
      requires Valid()
      modifies this, rstack
      ensures Valid() && fed == old(fed)
      ensures ok == err.None? && (!ok ==> r == NULL)
      ensures old(err.Some?) ==> err == old(err)
      ensures r == NULL ==> out == old(out)
      ensures r != NULL ==> Complete(heap, r, |heap|) && out == old(out) + [Value(heap, r, |heap|)]
      ensures r != NULL ==> |root| < |old(root)|
      ensures ok && r == NULL ==> Parse(root, 0) == More
    {
      r := NULL;
      if err.Some? {
        return false, NULL;
      }
      if len == 0 {
        if ridx >= 0 {
          NothingUnread();
        }
        return true, NULL;
      }
      var done := Run();
      if err.Some? {
        return false, NULL;
      }
      Compact();
      if done {
        r := reply;
        reply := NULL;
        Emitted(r);
        out := out + [Value(heap, r, |heap|)];
        root := Unread();
      }
      return true, r;
    }

    lemma NothingUnread()
      requires Waiting() && Unread() == []
      ensures Parse(root, 0) == More
    {
      PendingNow(root, Frames(rstack[..], ridx, heap, NULL), TypeByte(rstack[ridx].ty), Unread());
    }

    lemma RestsShallow()
      requires Reading() && Parse(root, 0) == More
      ensures Waiting()
    {
      PendingNow(root, Frames(rstack[..], ridx, heap, NULL), TypeByte(rstack[ridx].ty), Unread());
    }

    lemma Emitted(r: Ptr)
      requires Buffered() && Complete(heap, r, |heap|) && Completes(root, Value(heap, r, |heap|), Unread())
      ensures Leaves(fed, out + [Value(heap, r, |heap|)], Unread()) && |Unread()| < |root|
    {
      assert root + [] == root && Unread() + [] == Unread();
      assert Parse(root + [], 0) == Done(Value(heap, r, |heap|), Unread() + []);
      LeavesOneMore(fed, out, root);
    }

    /** What the replies handed out mean: they are what the stream fed so far starts with. */
    lemma Agrees(t: bytes)
      requires Valid()
      ensures out <= Decode(fed + t).replies
      ensures err.Some? ==> Decode(fed + t) == Stream(out, err)
      ensures err.None? && Parse(root, 0) == More ==> Decode(fed) == Stream(out, None)
    {
      LeavesLater(fed, out, root, t);
      LeavesDecodes(fed + t, out, root + t);
      if err.Some? {
        ParseStays(root, t, 0);
        assert out + [] == out;
      } else if Parse(root, 0) == More {
        LeavesDecodes(fed, out, root);
        assert out + [] == out;
      }
    }
  }
}
