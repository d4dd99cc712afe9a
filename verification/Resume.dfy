/**
 What a half-read reply still needs. A frame is an array whose header has been read and which holds
 the elements read so far; a stack of frames plus the item being read is all the reader remembers
 between calls. `Pending` says what the recursive-descent parser would return from there, and the
 lemmas show that every move of the reader's stack leaves that unchanged.
 */
module Resume {
  import opened Bytes
  import opened Decimal
  import opened Resp

  datatype Frame = Frame(count: int, done: seq<Reply>)

  predicate WellFormed(frames: seq<Frame>) {
    forall i :: 0 <= i < |frames| ==> |frames[i].done| < frames[i].count
  }

  /** Finish every open array, innermost last in the stack, given the outcome of the current item. */
  function Close(frames: seq<Frame>, item: Outcome<Reply>): Outcome<Reply>
    requires WellFormed(frames)
    decreases |frames|
  {
    if frames == [] || !item.Done? then item
    else
      var top := frames[|frames| - 1];
      var more := ParseMany(top.count - |top.done| - 1, item.rest, |frames|);
      Close(frames[..|frames| - 1], Wrap(top.done + [item.value], more))
  }

  /** The item at the top of the stack; its type byte may have been read already. */
  function ParseItem(ty: Option<byte>, s: bytes, depth: nat): Outcome<Reply> {
    if ty.None? then Parse(s, depth) else ParseBody(ty.value, s, depth)
  }

  function Pending(frames: seq<Frame>, ty: Option<byte>, s: bytes): Outcome<Reply>
    requires WellFormed(frames)
  {
    Close(frames, ParseItem(ty, s, |frames|))
  }

  /** Whatever bytes are still to come, resuming gives what parsing the reply from its start gives. */
  ghost predicate Tracks(root: bytes, frames: seq<Frame>, ty: Option<byte>, unread: bytes) {
    WellFormed(frames) && forall t: bytes :: Pending(frames, ty, unread + t) == Parse(root + t, 0)
  }

  /** The reply is complete, whatever bytes are still to come. */
  ghost predicate Completes(root: bytes, r: Reply, unread: bytes) {
    forall t: bytes :: Parse(root + t, 0) == Done(r, unread + t)
  }

  /** The current item is complete but its place in the enclosing arrays is not yet taken. */
  ghost predicate Holds(root: bytes, frames: seq<Frame>, r: Reply, unread: bytes) {
    WellFormed(frames) && forall t: bytes :: Close(frames, Done(r, unread + t)) == Parse(root + t, 0)
  }

  lemma PendingNow(root: bytes, frames: seq<Frame>, ty: Option<byte>, unread: bytes)
    requires Tracks(root, frames, ty, unread)
    ensures Pending(frames, ty, unread) == Parse(root, 0)
  {
    assert unread + [] == unread && root + [] == root;
  }

  lemma StartsTracking(root: bytes)
    ensures Tracks(root, [], None, root)
  {
  }

  lemma FeedKeepsTracking(root: bytes, frames: seq<Frame>, ty: Option<byte>, unread: bytes, chunk: bytes)
    requires Tracks(root, frames, ty, unread)
    ensures Tracks(root + chunk, frames, ty, unread + chunk)
  {
    forall t: bytes
      ensures Pending(frames, ty, unread + chunk + t) == Parse(root + chunk + t, 0)
    {
      Assoc(unread, chunk, t);
      Assoc(root, chunk, t);
    }
  }

  lemma TypeRead(root: bytes, frames: seq<Frame>, unread: bytes)
    requires Tracks(root, frames, None, unread) && unread != []
    ensures Tracks(root, frames, Some(unread[0]), unread[1..])
  {
    forall t: bytes
      ensures Pending(frames, Some(unread[0]), unread[1..] + t) == Parse(root + t, 0)
    {
      assert (unread + t)[1..] == unread[1..] + t;
    }
  }

  /** The item's own outcome is decided, so it is decided whatever follows. */
  lemma ItemRead(root: bytes, frames: seq<Frame>, ty: byte, unread: bytes)
    requires Tracks(root, frames, Some(ty), unread)
    requires ParseBody(ty, unread, |frames|).Done?
    ensures
      var o := ParseBody(ty, unread, |frames|);
      Holds(root, frames, o.value, o.rest)
  {
    var o := ParseBody(ty, unread, |frames|);
    forall t: bytes
      ensures Close(frames, Done(o.value, o.rest + t)) == Parse(root + t, 0)
    {
      BodyStays(ty, unread, t, |frames|);
    }
  }

  lemma NothingOpen(root: bytes, r: Reply, unread: bytes)
    requires Holds(root, [], r, unread)
    ensures Completes(root, r, unread)
  {
    forall t: bytes
      ensures Parse(root + t, 0) == Done(r, unread + t)
    {
      assert Close([], Done(r, unread + t)) == Done(r, unread + t);
    }
  }

  /** The last element of the innermost array completes that array. */
  lemma LastElement(root: bytes, frames: seq<Frame>, top: Frame, r: Reply, unread: bytes)
    requires Holds(root, frames + [top], r, unread) && |top.done| == top.count - 1
    ensures Holds(root, frames, Array(top.done + [r]), unread)
  {
    var all := frames + [top];
    assert all[|all| - 1] == top && all[..|all| - 1] == frames;
    assert WellFormed(frames) by {
      forall i | 0 <= i < |frames| ensures |frames[i].done| < frames[i].count { assert all[i] == frames[i]; }
    }
    forall t: bytes
      ensures Close(frames, Done(Array(top.done + [r]), unread + t)) == Parse(root + t, 0)
    {
      assert ParseMany(0, unread + t, |all|) == Done([], unread + t);
      assert top.done + [r] + [] == top.done + [r];
      assert Close(all, Done(r, unread + t)) == Close(frames, Wrap(top.done + [r], Done([], unread + t)));
    }
  }

  /** Any other element makes room for the next one. */
  lemma NextElement(root: bytes, frames: seq<Frame>, top: Frame, r: Reply, unread: bytes)
    requires Holds(root, frames + [top], r, unread) && |top.done| < top.count - 1
    ensures Tracks(root, frames + [Frame(top.count, top.done + [r])], None, unread)
  {
    var all := frames + [top];
    var next := frames + [Frame(top.count, top.done + [r])];
    assert all[|all| - 1] == top && all[..|all| - 1] == frames;
    assert next[|next| - 1] == Frame(top.count, top.done + [r]) && next[..|next| - 1] == frames;
    assert WellFormed(next) by {
      forall i | 0 <= i < |next| ensures |next[i].done| < next[i].count {
        if i < |frames| { assert all[i] == next[i]; }
      }
    }
    WellFormedPrefix(next, |frames|);
    forall t: bytes
      ensures Pending(next, None, unread + t) == Parse(root + t, 0)
    {
      var left := top.count - |top.done| - 1;
      CloseUnfolds(frames, top.count, top.done + [r], left, unread + t, |all|);
      assert Close(all, Done(r, unread + t)) == Close(frames, Wrap(top.done + [r], ParseMany(left, unread + t, |all|)));
    }
  }

  lemma WellFormedPrefix(frames: seq<Frame>, n: nat)
    requires WellFormed(frames) && n <= |frames|
    ensures WellFormed(frames[..n])
  {
  }

  lemma WellFormedMore(frames: seq<Frame>, top: Frame)
    requires WellFormed(frames) && |top.done| < top.count
    ensures WellFormed(frames + [top])
  {
  }

  /** Reading `left` more elements in one go, or opening a frame that expects them, is the same. */
  lemma CloseUnfolds(frames: seq<Frame>, count: int, done: seq<Reply>, left: nat, s: bytes, depth: nat)
    requires WellFormed(frames) && left > 0 && count == |done| + left && depth == |frames| + 1
    requires WellFormed(frames + [Frame(count, done)])
    ensures Pending(frames + [Frame(count, done)], None, s) == Close(frames, Wrap(done, ParseMany(left, s, depth)))
  {
    var all := frames + [Frame(count, done)];
    assert all[|all| - 1] == Frame(count, done) && all[..|all| - 1] == frames;
    var item := Parse(s, depth);
    if item.Done? {
      var more := ParseMany(left - 1, item.rest, depth);
      assert Close(all, item) == Close(frames, Wrap(done + [item.value], more));
      if more.Done? {
        assert done + ([item.value] + more.value) == done + [item.value] + more.value;
      }
    }
  }

  /** An array header with elements to come opens a frame. */
  lemma HeaderRead(root: bytes, frames: seq<Frame>, unread: bytes, k: nat, n: int)
    requires Tracks(root, frames, Some(STAR), unread) && |frames| < MAX_DEPTH
    requires FindCrlf(unread) == k && LineInteger(unread[..k]) == n && n > 0
    ensures Tracks(root, frames + [Frame(n, [])], None, unread[k + 2..])
  {
    var next := frames + [Frame(n, [])];
    var rest := unread[k + 2..];
    WellFormedMore(frames, Frame(n, []));
    forall t: bytes
      ensures Pending(next, None, rest + t) == Parse(root + t, 0)
    {
      LineStays(unread, t);
      ArrayBody(unread + t, k, n, |frames|);
      CloseUnfolds(frames, n, [], n, rest + t, |frames| + 1);
    }
  }
}
