/**
 What holds of every run of a connection, in terms of its events and of its book: which commands are accepted, and
 when the connection closes.
 */
module AsyncLaws {
  import opened Resp
  import opened CallbackList
  import opened Async

  /** The commands a callback issues before it asks to disconnect or to free the connection, if it does. */
  function IssuedBy(script: seq<Action>): seq<Callback> {
    if script == [] || !script[0].Issue? then [] else [script[0].cb] + IssuedBy(script[1..])
  }

  predicate Asks(cb: Callback, a: Action) {
    cb.Fn? && a in cb.script
  }

  /** Some of these callbacks asks to close the connection. */
  predicate AskClosing(cbs: seq<Callback>) {
    exists i :: 0 <= i < |cbs| && (Asks(cbs[i], Disconnect) || Asks(cbs[i], Free))
  }

  /** What a series of callbacks gets accepted: each what it issues, until one of them asks to close. */
  function IssuedByAll(cbs: seq<Callback>): seq<Callback> {
    if cbs == [] then []
    else
      var front, cb := cbs[..|cbs| - 1], cbs[|cbs| - 1];
      IssuedByAll(front) + (if AskClosing(front) || cb.Null? then [] else IssuedBy(cb.script))
  }

  // ---- one callback ----

  lemma {:induction false} IssuedByMore(script: seq<Action>, a: Action)
    ensures IssuedBy(script + [a]) ==
            IssuedBy(script) + (if Disconnect in script || Free in script || !a.Issue? then [] else [a.cb])
  {
    if script == [] {
      assert script + [a] == [a] && [a][1..] == [];
    } else {
      assert (script + [a])[1..] == script[1..] + [a];
      IssuedByMore(script[1..], a);
      assert script == [script[0]] + script[1..];
    }
  }

  /** A callback adds what it issues, unless the connection is closing, and leaves its marks. */
  lemma {:induction false} ScriptLaw(c: Conn, script: seq<Action>)
    requires c.Live?
    ensures
      var d := c.AfterScript(script);
      var more := if c.disconnecting || c.freeing then [] else IssuedBy(script);
      && d.Live? && d.book == c.book.(accepted := c.book.accepted + more) && d.obuf == c.obuf + |more|
      && d.disconnecting == (c.disconnecting || Disconnect in script) && d.freeing == (c.freeing || Free in script)
  {
    if script == [] {
      assert c.book.accepted + [] == c.book.accepted;
    } else {
      var front, a := script[..|script| - 1], script[|script| - 1];
      assert script == front + [a];
      ScriptLaw(c, front);
      IssuedByMore(front, a);
    }
  }

  // ---- one reply ----

  /** What the callback of the oldest waiting command adds. */
  function Adds(c: Conn, cb: Callback): seq<Callback>
    requires c.Live?
  {
    if c.disconnecting || cb.Null? then [] else IssuedBy(cb.script)
  }

  /** A reply to a waiting command: its callback acts, and the connection goes on unless it is asked to free itself. */
  lemma ReplyLaw(c: Conn, r: Reply)
    requires c.Live? && !c.freeing && c.book.Sound() && |c.book.given| == |c.book.arrived| < |c.book.accepted|
    ensures
      var d, cb := c.AfterReply(r), c.book.accepted[|c.book.arrived|];
      && d.book.accepted == c.book.accepted + Adds(c, cb) && d.book.arrived == c.book.arrived + [r]
      && d.Live? == !Asks(cb, Free) && (!d.Live? ==> d.Freed?)
      && (d.Live? ==> !d.freeing && d.disconnecting == (c.disconnecting || Asks(cb, Disconnect)))
      && (d.Live? ==> d.obuf == c.obuf + |Adds(c, cb)| && |d.book.given| == |d.book.arrived|)
  {
    var cb := c.book.accepted[|c.book.arrived|];
    assert c.book.Waiting()[0] == cb;
    if cb.Fn? {
      ScriptLaw(c.(book := c.book.Answer(Some(r))), cb.script);
    } else {
      assert c.book.accepted + [] == c.book.accepted;
    }
  }

  // ---- a series of replies ----

  /** The commands that replies answered between two states. */
  ghost function Answered(c: Conn, d: Conn): seq<Callback>
    requires |c.book.arrived| <= |d.book.arrived| <= |d.book.accepted|
  {
    d.book.accepted[|c.book.arrived|..|d.book.arrived|]
  }

  /** The replies went to the waiting commands in turn; what their callbacks issued was accepted behind the rest. */
  ghost predicate Served(c: Conn, rs: seq<Reply>, d: Conn)
    requires c.Live?
  {
    && |c.book.arrived| <= |d.book.arrived| <= |d.book.accepted|
    && |Answered(c, d)| <= |rs| && d.book.arrived == c.book.arrived + rs[..|Answered(c, d)|]
    && d.book.accepted == c.book.accepted + (if c.disconnecting then [] else IssuedByAll(Answered(c, d)))
    && (if d.Live? then StillOpen(c, rs, d) else ClosedBy(c, rs, d))
  }

  ghost predicate SomeAsks(cbs: seq<Callback>, a: Action) {
    exists i :: 0 <= i < |cbs| && Asks(cbs[i], a)
  }

  /** All replies were used, none of the callbacks freed the connection, and the marks are those they left. */
  ghost predicate StillOpen(c: Conn, rs: seq<Reply>, d: Conn)
    requires c.Live? && d.Live? && |c.book.arrived| <= |d.book.arrived| <= |d.book.accepted|
  {
    && |Answered(c, d)| == |rs| && !SomeAsks(Answered(c, d), Free) && !d.freeing
    && d.disconnecting == (c.disconnecting || SomeAsks(Answered(c, d), Disconnect))
    && d.obuf == c.obuf + |d.book.accepted| - |c.book.accepted|
  }

  /** The last callback freed the connection, or a reply came that no command was waiting for. */
  ghost predicate ClosedBy(c: Conn, rs: seq<Reply>, d: Conn)
    requires c.Live? && |c.book.arrived| <= |d.book.arrived| <= |d.book.accepted|
  {
    var n := |Answered(c, d)|;
    || (n > 0 && Asks(Answered(c, d)[n - 1], Free) && d.Freed?)
    || (n < |rs| && |d.book.arrived| == |d.book.accepted| && d.Aborted? == !rs[n].Failure?)
  }

  /** Ready for the next reply. */
  ghost predicate Ready(c: Conn) {
    c.Live? && !c.freeing && c.book.Sound() && |c.book.given| == |c.book.arrived|
  }

  lemma ServedNone(c: Conn)
    requires Ready(c)
    ensures Served(c, [], c)
  {
    assert Answered(c, c) == [] && c.book.accepted + [] == c.book.accepted && c.book.arrived + [] == c.book.arrived;
  }

  /** A closed connection takes no notice of further replies. */
  lemma ServedIgnores(c: Conn, rs: seq<Reply>, r: Reply, d: Conn)
    requires c.Live? && Served(c, rs, d) && !d.Live?
    ensures Served(c, rs + [r], d)
  {
    var n := |Answered(c, d)|;
    assert (rs + [r])[..n] == rs[..n];
  }

  lemma AnsweredMore(c: Conn, d: Conn, e: Conn, cb: Callback)
    requires |c.book.arrived| <= |d.book.arrived| < |d.book.accepted| && cb == d.book.accepted[|d.book.arrived|]
    requires d.book.accepted <= e.book.accepted && |e.book.arrived| == |d.book.arrived| + 1
    ensures |e.book.arrived| <= |e.book.accepted| && Answered(c, e) == Answered(c, d) + [cb]
  {
  }

  lemma IssuedByAllMore(cbs: seq<Callback>, cb: Callback)
    ensures IssuedByAll(cbs + [cb]) ==
            IssuedByAll(cbs) + (if AskClosing(cbs) || cb.Null? then [] else IssuedBy(cb.script))
  {
    assert (cbs + [cb])[..|cbs|] == cbs;
  }

  lemma SomeAsksMore(cbs: seq<Callback>, cb: Callback, a: Action)
    ensures SomeAsks(cbs + [cb], a) <==> SomeAsks(cbs, a) || Asks(cb, a)
  {
    var more := cbs + [cb];
    if i :| 0 <= i < |more| && Asks(more[i], a) && i < |cbs| {
      assert Asks(cbs[i], a);
    }
    if i :| 0 <= i < |cbs| && Asks(cbs[i], a) {
      assert Asks(more[i], a);
    }
    assert more[|cbs|] == cb;
  }

  lemma AskClosingMeans(cbs: seq<Callback>)
    ensures AskClosing(cbs) <==> SomeAsks(cbs, Disconnect) || SomeAsks(cbs, Free)
  {
  }

  /** One more reply to a live connection. */
  lemma ServedMore(c: Conn, rs: seq<Reply>, r: Reply, d: Conn)
    requires c.Live? && Served(c, rs, d) && Ready(d)
    ensures Served(c, rs + [r], d.AfterReply(r))
  {
    var e := d.AfterReply(r);
    if |d.book.arrived| == |d.book.accepted| {
      assert d.book.Waiting() == [];
      assert (rs + [r])[..|rs|] == rs[..|rs|] && (rs + [r])[|rs|] == r;
    } else {
      var cb := d.book.accepted[|d.book.arrived|];
      ReplyLaw(d, r);
      AnsweredMore(c, d, e, cb);
      ServedAccepts(c, d, cb);
      SomeAsksMore(Answered(c, d), cb, Free);
      SomeAsksMore(Answered(c, d), cb, Disconnect);
      assert rs[..|rs|] == rs && (rs + [r])[..|rs| + 1] == rs + [r];
      assert c.book.arrived + rs + [r] == c.book.arrived + (rs + [r]);
    }
  }

  lemma ServedAccepts(c: Conn, d: Conn, cb: Callback)
    requires c.Live? && d.Live? && |c.book.arrived| <= |d.book.arrived| <= |d.book.accepted|
    requires d.book.accepted == c.book.accepted + (if c.disconnecting then [] else IssuedByAll(Answered(c, d)))
    requires d.disconnecting == (c.disconnecting || SomeAsks(Answered(c, d), Disconnect))
    requires !SomeAsks(Answered(c, d), Free)
    ensures d.book.accepted + Adds(d, cb) ==
            c.book.accepted + (if c.disconnecting then [] else IssuedByAll(Answered(c, d) + [cb]))
  {
    AskClosingMeans(Answered(c, d));
    IssuedByAllMore(Answered(c, d), cb);
  }

  lemma {:induction false} RepliesLaw(c: Conn, rs: seq<Reply>)
    requires Ready(c)
    ensures Served(c, rs, c.AfterReplies(rs))
    ensures c.AfterReplies(rs).Live? ==> Ready(c.AfterReplies(rs))
  {
    if rs == [] {
      ServedNone(c);
    } else {
      var front, r := rs[..|rs| - 1], rs[|rs| - 1];
      var d := c.AfterReplies(front);
      assert rs == front + [r];
      RepliesLaw(c, front);
      if d.Live? {
        ServedMore(c, front, r, d);
        StaysReady(d, r);
      } else {
        ServedIgnores(c, front, r, d);
      }
    }
  }

  lemma StaysReady(d: Conn, r: Reply)
    requires Ready(d)
    ensures d.AfterReply(r).Live? ==> Ready(d.AfterReply(r))
  {
    ReplyKeeps(d, r, d.book.arrived);
  }

  // ---- one event ----

  /** The commands that have been answered by replies. */
  ghost function Done(c: Conn): seq<Callback>
    requires |c.book.arrived| <= |c.book.accepted|
  {
    c.book.accepted[..|c.book.arrived|]
  }

  lemma DoneGrows(c: Conn, d: Conn)
    requires |c.book.arrived| <= |d.book.arrived| <= |d.book.accepted| && c.book.accepted <= d.book.accepted
    requires |c.book.arrived| <= |c.book.accepted|
    ensures Done(d) == Done(c) + Answered(c, d)
  {
  }

  /**
   What a read does: the replies are served; then the connection closes on a broken stream, or when it is to
   disconnect and has neither output nor commands pending.
   */
  lemma ReadLaw(c: Conn, rs: seq<Reply>, broken: bool)
    requires Ready(c)
    ensures
      var mid, d := c.AfterReplies(rs), c.AfterEvent(Readable(rs, broken));
      && Served(c, rs, mid) && d.book.accepted == mid.book.accepted && d.book.arrived == mid.book.arrived
      && (!mid.Live? ==> d == mid)
      && (mid.Live? ==>
            d.Live? == !(broken || (mid.disconnecting && mid.obuf == 0 && |mid.book.arrived| == |mid.book.accepted|)))
      && (d.Live? ==> d == mid && Ready(d))
      && (mid.Live? && !d.Live? ==> d.Freed?)
  {
    RepliesLaw(c, rs);
  }

  /** Which commands an event gets accepted. */
  ghost function Accepts(c: Conn, e: Event, d: Conn): seq<Callback>
    requires c.Live? && |c.book.arrived| <= |d.book.arrived| <= |d.book.accepted|
  {
    if c.disconnecting then []
    else match e
         case Do(Issue(cb)) => [cb]
         case Readable(_, _) => IssuedByAll(Answered(c, d))
         case _ => []
  }

  /** Commands are accepted in the order they are issued, by the application or by the callbacks of replies. */
  lemma AcceptLaw(c: Conn, e: Event)
    requires Ready(c)
    ensures
      var d := c.AfterEvent(e);
      && |c.book.arrived| <= |d.book.arrived| <= |d.book.accepted|
      && d.book.accepted == c.book.accepted + Accepts(c, e, d)
      && (!e.Readable? ==> d.book.arrived == c.book.arrived)
      && (d.Live? ==> Ready(d))
  {
    if e.Readable? {
      ReadLaw(c, e.replies, e.broken);
    } else {
      assert c.book.accepted + [] == c.book.accepted;
    }
  }

  /** Every accepted command adds to the output, and a write takes away what it can. */
  lemma OutputLaw(c: Conn, e: Event)
    requires Ready(c) && c.AfterEvent(e).Live?
    ensures
      var d := c.AfterEvent(e);
      && (e.Written? ==> d.obuf == (if e.n <= c.obuf then c.obuf - e.n else 0))
      && (!e.Written? ==> d.obuf == c.obuf + |d.book.accepted| - |c.book.accepted|)
  {
    if e.Readable? {
      ReadLaw(c, e.replies, e.broken);
    }
  }

  // ---- whole runs ----

  /** The application or the callback of a reply has asked to disconnect. */
  ghost predicate Told(events: seq<Event>, done: seq<Callback>) {
    Do(Disconnect) in events || SomeAsks(done, Disconnect)
  }

  ghost predicate BrokenIn(events: seq<Event>) {
    exists i :: 0 <= i < |events| && events[i].Readable? && events[i].broken
  }

  /** Something has happened that ends a connection at once. */
  ghost predicate Ended(events: seq<Event>, done: seq<Callback>) {
    Do(Free) in events || WriteFailed in events || BrokenIn(events) || SomeAsks(done, Free)
  }

  lemma SomeAsksConcat(a: seq<Callback>, b: seq<Callback>, x: Action)
    ensures SomeAsks(a + b, x) <==> SomeAsks(a, x) || SomeAsks(b, x)
  {
    var ab := a + b;
    if i :| 0 <= i < |ab| && Asks(ab[i], x) {
      assert if i < |a| then Asks(a[i], x) else Asks(b[i - |a|], x);
    }
    if i :| 0 <= i < |a| && Asks(a[i], x) {
      assert Asks(ab[i], x);
    }
    if i :| 0 <= i < |b| && Asks(b[i], x) {
      assert Asks(ab[|a| + i], x);
    }
  }

  lemma BrokenInMore(events: seq<Event>, e: Event)
    ensures BrokenIn(events + [e]) <==> BrokenIn(events) || (e.Readable? && e.broken)
  {
    var more := events + [e];
    if i :| 0 <= i < |more| && more[i].Readable? && more[i].broken && i < |events| {
      assert events[i].broken;
    }
    if i :| 0 <= i < |events| && events[i].Readable? && events[i].broken {
      assert more[i].broken;
    }
    assert more[|events|] == e;
  }

  /** A connection is open, marked as its events and callbacks say, and nothing has ended it. */
  ghost predicate OpenAs(events: seq<Event>, c: Conn) {
    Ready(c) && c.disconnecting == Told(events, Done(c)) && !Ended(events, Done(c))
  }

  lemma OpenMore(events: seq<Event>, c: Conn, e: Event)
    requires OpenAs(events, c) && c.AfterEvent(e).Live?
    ensures OpenAs(events + [e], c.AfterEvent(e))
  {
    var d := c.AfterEvent(e);
    BrokenInMore(events, e);
    AcceptLaw(c, e);
    DoneGrows(c, d);
    SomeAsksConcat(Done(c), Answered(c, d), Disconnect);
    SomeAsksConcat(Done(c), Answered(c, d), Free);
    if e.Readable? {
      ReadLaw(c, e.replies, e.broken);
    } else {
      assert Answered(c, d) == [];
    }
  }

  /**
   In every run: a connection that is open has not been freed, has seen no failed write and no broken stream, and is
   marked for disconnecting exactly if it was told to.
   */
  lemma {:induction false} EveryOpenRun(events: seq<Event>)
    requires After(events).Live?
    ensures OpenAs(events, After(events))
  {
    if events == [] {
      assert Done(FRESH) == [];
    } else {
      var front, e := events[..|events| - 1], events[|events| - 1];
      assert events == front + [e];
      EveryOpenRun(front);
      OpenMore(front, After(front), e);
    }
  }

  /**
   Right after a read, an open connection that was told to disconnect still has output queued or commands waiting;
   and telling one to disconnect that has no command waiting closes it.
   */
  lemma ClosesInTime(events: seq<Event>, e: Event)
    requires After(events + [e]).Live?
    ensures
      var c := After(events + [e]);
      && |c.book.arrived| <= |c.book.accepted|
      && (e.Readable? && Told(events + [e], Done(c)) ==> c.obuf > 0 || |c.book.arrived| < |c.book.accepted|)
      && (e == Do(Disconnect) ==> |c.book.arrived| < |c.book.accepted|)
  {
    assert (events + [e])[..|events|] == events;
    EveryOpenRun(events + [e]);
    EveryOpenRun(events);
    if e.Readable? {
      ReadLaw(After(events), e.replies, e.broken);
    }
  }

  /** Nobody has asked or will ask to close the connection, and nothing has failed. */
  ghost predicate Undisturbed(events: seq<Event>, accepted: seq<Callback>) {
    !Ended(events, accepted) && !Told(events, accepted)
  }

  lemma UndisturbedBefore(events: seq<Event>, e: Event, accepted: seq<Callback>, more: seq<Callback>)
    requires Undisturbed(events + [e], accepted + more)
    ensures Undisturbed(events, accepted)
    ensures e != Do(Free) && e != WriteFailed && e != Do(Disconnect) && !(e.Readable? && e.broken)
  {
    BrokenInMore(events, e);
    SomeAsksConcat(accepted, more, Disconnect);
    SomeAsksConcat(accepted, more, Free);
    assert e in events + [e];
  }

  /** No more replies than commands have come, or else the first one too many has closed the connection. */
  ghost predicate OnlyOverrun(c: Conn, received: seq<Reply>) {
    if c.Live? then Ready(c) && c.book.arrived == received && |received| <= |c.book.accepted|
    else |c.book.accepted| < |received| && c.Aborted? == !received[|c.book.accepted|].Failure?
  }

  lemma NoneAskIn(all: seq<Callback>, a: nat, b: nat, x: Action)
    requires !SomeAsks(all, x) && a <= b <= |all|
    ensures !SomeAsks(all[a..b], x)
  {
    assert forall i :: 0 <= i < b - a ==> all[a..b][i] == all[a + i];
  }

  lemma OverrunMore(c: Conn, e: Event, received: seq<Reply>)
    requires c.Live? && OnlyOverrun(c, received) && !c.disconnecting
    requires e != Do(Free) && e != WriteFailed && e != Do(Disconnect) && !(e.Readable? && e.broken)
    requires !SomeAsks(c.AfterEvent(e).book.accepted, Free) && !SomeAsks(c.AfterEvent(e).book.accepted, Disconnect)
    ensures OnlyOverrun(c.AfterEvent(e), received + (if e.Readable? then e.replies else []))
  {
    var d := c.AfterEvent(e);
    AcceptLaw(c, e);
    if e.Readable? {
      ReadLaw(c, e.replies, e.broken);
      var mid := c.AfterReplies(e.replies);
      NoneAskIn(d.book.accepted, |c.book.arrived|, |d.book.arrived|, Free);
      NoneAskIn(d.book.accepted, |c.book.arrived|, |d.book.arrived|, Disconnect);
      assert Answered(c, mid) == Answered(c, d);
      if mid.Live? {
        assert e.replies[..|e.replies|] == e.replies;
      } else {
        assert (received + e.replies)[|d.book.accepted|] == e.replies[|Answered(c, mid)|];
      }
    } else {
      assert received + [] == received;
    }
  }

  /**
   A connection that nobody tells to close, with no failure, is open exactly as long as replies do not outnumber
   commands; the first reply too many closes it if it is an error and fails the library's assertion if not.
   */
  lemma {:induction false} OpenUnlessOverrun(events: seq<Event>)
    requires Undisturbed(events, After(events).book.accepted)
    ensures OnlyOverrun(After(events), Received(events))
    ensures After(events).Live? <==> |Received(events)| <= |After(events).book.accepted|
  {
    if events == [] {
    } else {
      var front, e := events[..|events| - 1], events[|events| - 1];
      assert events == front + [e];
      var c, d := After(front), After(events);
      EveryRunIsFair(front);
      if c.Live? {
        AcceptLaw(c, e);
        UndisturbedBefore(front, e, c.book.accepted, Accepts(c, e, d));
        OpenUnlessOverrun(front);
        EveryOpenRun(front);
        NoneAskIn(c.book.accepted, 0, |c.book.arrived|, Disconnect);
        OverrunMore(c, e, Received(front));
      } else {
        assert c.book.accepted + [] == c.book.accepted;
        UndisturbedBefore(front, e, c.book.accepted, []);
        OpenUnlessOverrun(front);
      }
    }
  }
}
