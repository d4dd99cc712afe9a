/** The asynchronous connection on top of the reply reader: bytes in, callbacks out. */
module Client {
  import opened Bytes
  import opened Resp
  import opened CallbackList
  import opened Arena
  import opened Async
  import AsyncLaws
  import R = Reader

  /** What the event loop and the application do: as for the connection, except that the socket delivers bytes. */
  datatype Signal = Doing(action: Action) | Sent(n: nat) | Lost | Read(chunk: bytes)

  /** All bytes read from the socket. */
  function Stream(signals: seq<Signal>): bytes {
    if signals == [] then []
    else Stream(signals[..|signals| - 1]) + (var s := signals[|signals| - 1]; if s.Read? then s.chunk else [])
  }

  /** The bytes of the reads, in order. */
  lemma {:induction false} StreamConcat(a: seq<Signal>, b: seq<Signal>)
    ensures Stream(a + b) == Stream(a) + Stream(b)
    decreases |b|
  {
    if b == [] {
      assert a + b == a;
    } else {
      var front, s := b[..|b| - 1], b[|b| - 1];
      assert (a + b)[..|a + b| - 1] == a + front;
      StreamConcat(a, front);
      Assoc(Stream(a), Stream(front), if s.Read? then s.chunk else []);
    }
  }

  lemma StreamOne(s: Signal)
    ensures Stream([s]) == if s.Read? then s.chunk else []
  {
    assert [s][..0] == [];
  }

  /** The replies a stream holds beyond those of its beginning. */
  function NewReplies(before: bytes, all: bytes): seq<Reply> {
    var n := |Decode(before).replies|;
    if n <= |Decode(all).replies| then Decode(all).replies[n..] else []
  }

  function AsEvent(before: bytes, s: Signal): Event {
    match s
    case Doing(action) => Do(action)
    case Sent(n) => Written(n)
    case Lost => WriteFailed
    case Read(chunk) => Readable(NewReplies(before, before + chunk), Decode(before + chunk).failed.Some?)
  }

  lemma EventForms(before: bytes, action: Action, n: nat, chunk: bytes)
    ensures AsEvent(before, Doing(action)) == Do(action) && AsEvent(before, Sent(n)) == Written(n)
    ensures AsEvent(before, Lost) == WriteFailed && AsEvent(before, Read(chunk)).Readable?
    ensures AsEvent(before, Read(chunk)).broken <==> Decode(before + chunk).failed.Some?
  {
  }

  /** The connection's view of the signals: bytes become the replies they complete. */
  function AsEvents(signals: seq<Signal>): seq<Event> {
    if signals == [] then []
    else
      var front := signals[..|signals| - 1];
      AsEvents(front) + [AsEvent(Stream(front), signals[|signals| - 1])]
  }

  /** Together the events carry the replies of the whole stream. */
  lemma {:induction false} EventsCarryStream(signals: seq<Signal>)
    ensures Received(AsEvents(signals)) == Decode(Stream(signals)).replies
  {
    if signals == [] {
    } else {
      var front, s := signals[..|signals| - 1], signals[|signals| - 1];
      EventsCarryStream(front);
      assert AsEvents(signals)[..|AsEvents(front)|] == AsEvents(front);
      if s.Read? {
        DecodePrefix(Stream(front), s.chunk);
      } else {
        assert Stream(front) + [] == Stream(front);
        assert Received(AsEvents(front)) + [] == Received(AsEvents(front));
      }
    }
  }

  /** The reader has handed out all it can. */
  ghost predicate Drained(r: R.Reader)
    reads r, r.rstack
  {
    r.Valid() && r.err.None? && Parse(r.root, 0) == More && r.out == Decode(r.fed).replies
  }

  lemma PrefixParts(all: seq<Reply>, before: seq<Reply>, got: seq<Reply>)
    requires before + got <= all
    ensures |before| <= |all| && got <= all[|before|..] && all[|before|..][..|got|] == got
    ensures before + got == all ==> all[|before|..] == got
  {
  }

  /** One turn of the loop: the next reply goes to its callback; `go` tells whether to look for another. */
  method ProcessNext(c: Connection, r: R.Reader, ghost start: Conn, ghost before: seq<Reply>, ghost got: seq<Reply>)
    returns (go: bool, ghost got': seq<Reply>)
    requires c.Open() && r.Valid() && r.err.None? && r.out == before + got && c.View() == start.AfterReplies(got)
    modifies c, c.replies, c.replies.Repr, r, r.rstack
    ensures fresh(c.replies.Repr - old(c.replies.Repr)) && r.fed == old(r.fed) && r.Valid()
    ensures r.out == before + got'
    ensures go ==> c.Open() && r.err.None? && c.View() == start.AfterReplies(got') && |r.root| < old(|r.root|)
    ensures !go ==> c.Open() || c.Closed() || c.Overrun()
    ensures !go && got' == got ==>
      Parsed(r) && c.View() == start.AfterReplies(got).Settled(r.err.Some?) && (c.Open() ==> r.err.None?)
    ensures !go && got' != got ==> !c.Open() && c.View() == start.AfterReplies(got') && !c.View().Live?
  {
    var ok, p := r.GetReply();
    if !ok || p == NULL {
      c.Settle(!ok);
      return false, got;
    }
    var reply := Value(r.heap, p, |r.heap|);
    got' := got + [reply];
    Assoc(before, got, [reply]);
    ghost var d := start.AfterReplies(got);
    assert start.AfterReplies(got') == d.AfterReply(reply) by { assert got'[..|got|] == got; }
    go := c.ProcessReply(reply);
  }

  /** The replies handed out are all of the stream. */
  ghost predicate Parsed(r: R.Reader)
    reads r, r.rstack
  {
    r.Valid() && (r.err.None? ==> Parse(r.root, 0) == More)
  }

  /** Hands every reply that the bytes read so far complete to its callback. */
  method ProcessCallbacks(c: Connection, r: R.Reader, ghost before: seq<Reply>)
    requires c.Open() && r.Valid() && r.err.None? && r.out == before
    modifies c, c.replies, c.replies.Repr, r, r.rstack
    ensures fresh(c.replies.Repr - old(c.replies.Repr)) && r.fed == old(r.fed) && |before| <= |Decode(r.fed).replies|
    ensures
      var all := Decode(r.fed);
      c.View() == old(c.View()).AfterReplies(all.replies[|before|..]).Settled(all.failed.Some?)
    ensures c.Open() || c.Closed() || c.Overrun()
    ensures c.Open() ==> Drained(r)
  {
    ghost var start, got: seq<Reply> := c.View(), [];
    var go := true;
    while go
      invariant r.Valid() && r.fed == old(r.fed) && r.out == before + got
      invariant fresh(c.replies.Repr - old(c.replies.Repr)) && (c.Open() || c.Closed() || c.Overrun())
      invariant go ==> c.Open() && r.err.None? && c.View() == start.AfterReplies(got)
      invariant !go ==>
        || (Parsed(r) && c.View() == start.AfterReplies(got).Settled(r.err.Some?) && (c.Open() ==> r.err.None?))
        || (!c.Open() && c.View() == start.AfterReplies(got) && !c.View().Live?)
      decreases go, |r.root|
    {
      go, got := ProcessNext(c, r, start, before, got);
    }
    ghost var all := Decode(r.fed);
    HandedOut(r, before, got);
    if !c.View().Live? && c.View() == start.AfterReplies(got) {
      RepliesStop(start, all.replies[|before|..], |got|);
    }
  }

  lemma HandedOut(r: R.Reader, before: seq<Reply>, got: seq<Reply>)
    requires r.Valid() && r.out == before + got
    ensures
      var all := Decode(r.fed);
      && |before| <= |all.replies| && got <= all.replies[|before|..] && all.replies[|before|..][..|got|] == got
      && (Parsed(r) ==> all.replies[|before|..] == got && all.failed == r.err && all.replies == r.out)
  {
    assert r.fed + [] == r.fed;
    r.Agrees([]);
    PrefixParts(Decode(r.fed).replies, before, got);
  }

  /** The socket is readable: the bytes go to the reader, and what it can make of them to the callbacks. */
  method ReadBytes(c: Connection, r: R.Reader, chunk: bytes)
    requires c.Open() && Drained(r)
    modifies c, c.replies, c.replies.Repr, r, r.rstack
    ensures fresh(c.replies.Repr - old(c.replies.Repr)) && r.fed == old(r.fed) + chunk
    ensures c.View() == old(c.View()).AfterEvent(AsEvent(old(r.fed), Read(chunk)))
    ensures c.Open() || c.Closed() || c.Overrun()
    ensures c.Open() ==> Drained(r)
  {
    ghost var start, fed, before := c.View(), r.fed, r.out;
    var ok := r.Feed(chunk);
    ProcessCallbacks(c, r, before);
    ReadMeans(start, fed, chunk);
  }

  lemma ReadMeans(start: Conn, fed: bytes, chunk: bytes)
    requires start.Live? && |Decode(fed).replies| <= |Decode(fed + chunk).replies|
    ensures
      var all := Decode(fed + chunk);
      start.AfterEvent(AsEvent(fed, Read(chunk))) ==
      start.AfterReplies(all.replies[|Decode(fed).replies|..]).Settled(all.failed.Some?)
  {
  }

  /** One signal. */
  method Handle(c: Connection, r: R.Reader, s: Signal)
    requires c.Open() && Drained(r)
    modifies c, c.replies, c.replies.Repr, r, r.rstack
    ensures fresh(c.replies.Repr - old(c.replies.Repr))
    ensures r.fed == old(r.fed) + (if s.Read? then s.chunk else [])
    ensures c.View() == old(c.View()).AfterEvent(AsEvent(old(r.fed), s))
    ensures c.Open() || c.Closed() || c.Overrun()
    ensures c.Open() ==> Drained(r)
  {
    match s
    case Doing(action) =>
      Async.Handle(c, Do(action));
    case Sent(n) =>
      Async.Handle(c, Written(n));
    case Lost =>
      Async.Handle(c, WriteFailed);
    case Read(chunk) =>
      ReadBytes(c, r, chunk);
  }

  /**
   Any run, from bytes to callbacks: the i-th reply that the recursive-descent parser finds in all bytes
   read answers the i-th accepted command, however the bytes were cut up.
   */
  method Run(signals: seq<Signal>) returns (ran: seq<Call>, open: bool, aborted: bool)
    ensures
      var end := After(AsEvents(signals));
      && Fair(end, Decode(Stream(signals)).replies) && ran == Calls(end.book.accepted, end.book.given)
      && open == end.Live? && aborted == end.Aborted?
  {
    var c := new Connection();
    var r := new R.Reader();
    assert Drained(r);
    ghost var n := Serve(c, r, signals);
    ran, open, aborted := c.ran, !c.freed && !c.aborted, c.aborted;
    if open {
      assert signals[..n] == signals;
    } else {
      SignalsStop(signals, n);
    }
    EveryRunIsFair(AsEvents(signals));
    EventsCarryStream(signals);
  }

  /** Handles signals for as long as the connection lives. */
  method Serve(c: Connection, r: R.Reader, signals: seq<Signal>) returns (ghost n: nat)
    requires c.Open() && c.View() == FRESH && Drained(r) && r.fed == []
    modifies c, c.replies, c.replies.Repr, r, r.rstack
    ensures n <= |signals| && c.View() == After(AsEvents(signals[..n]))
    ensures if n < |signals| then c.Closed() || c.Overrun() else c.Open() || c.Closed() || c.Overrun()
  {
    var i := 0;
    while i < |signals| && !c.freed && !c.aborted
      invariant 0 <= i <= |signals| && fresh(c.replies.Repr - old(c.replies.Repr))
      invariant c.Open() || c.Closed() || c.Overrun()
      invariant c.Open() ==> Drained(r) && r.fed == Stream(signals[..i])
      invariant c.View() == After(AsEvents(signals[..i]))
      decreases |signals| - i
    {
      OneMoreSignal(signals, i);
      Handle(c, r, signals[i]);
      i := i + 1;
    }
    n := i;
  }

  lemma OneMoreSignal(signals: seq<Signal>, i: nat)
    requires i < |signals|
    ensures
      var e := AsEvent(Stream(signals[..i]), signals[i]);
      && After(AsEvents(signals[..i + 1])) == After(AsEvents(signals[..i])).AfterEvent(e)
      && Stream(signals[..i + 1]) == Stream(signals[..i]) + (if signals[i].Read? then signals[i].chunk else [])
  {
    var events := AsEvents(signals[..i]);
    assert signals[..i + 1][..i] == signals[..i];
    assert AsEvents(signals[..i + 1])[..|events|] == events;
  }

  lemma {:induction false} SignalsStop(signals: seq<Signal>, i: nat)
    requires i <= |signals| && !After(AsEvents(signals[..i])).Live?
    ensures After(AsEvents(signals)) == After(AsEvents(signals[..i]))
    decreases |signals| - i
  {
    if i == |signals| {
      assert signals[..i] == signals;
    } else {
      OneMoreSignal(signals, i);
      SignalsStop(signals, i + 1);
    }
  }

  lemma {:induction false} BrokenStreamShows(signals: seq<Signal>)
    requires Decode(Stream(signals)).failed.Some?
    ensures AsyncLaws.BrokenIn(AsEvents(signals))
  {
    var front, s := signals[..|signals| - 1], signals[|signals| - 1];
    var events, e := AsEvents(front), AsEvent(Stream(front), s);
    AsyncLaws.BrokenInMore(events, e);
    if Decode(Stream(front)).failed.Some? {
      BrokenStreamShows(front);
    } else {
      assert Stream(front) + [] == Stream(front);
    }
  }

  /** A stream that the parser refuses ends the connection. */
  lemma BrokenStreamEnds(signals: seq<Signal>)
    requires Decode(Stream(signals)).failed.Some?
    ensures !After(AsEvents(signals)).Live?
  {
    BrokenStreamShows(signals);
    if After(AsEvents(signals)).Live? {
      AsyncLaws.EveryOpenRun(AsEvents(signals));
    }
  }
}
