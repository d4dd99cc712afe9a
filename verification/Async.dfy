/**
 The asynchronous connection: commands queue callbacks, replies run them, and disconnecting or freeing
 drains what is left. Callbacks may themselves issue commands, disconnect or free the connection.
 */
module Async {
  import opened Bytes
  import opened Resp
  import opened CallbackList

  /** One invocation of a callback: for the id-th accepted command, with its reply or with NULL. */
  datatype Call = Call(id: nat, reply: Option<Reply>)

  /** The invocations owed to the first |given| accepted commands. */
  function Calls(accepted: seq<Callback>, given: seq<Option<Reply>>): seq<Call>
    requires |given| <= |accepted|
  {
    if given == [] then []
    else
      var n := |given| - 1;
      Calls(accepted, given[..n]) + (if accepted[n].Fn? then [Call(n, given[n])] else [])
  }

  /** They are exactly one per command with a callback, with that command's answer... */
  lemma {:induction false} CallsExact(accepted: seq<Callback>, given: seq<Option<Reply>>, c: Call)
    requires |given| <= |accepted|
    ensures c in Calls(accepted, given) <==> c.id < |given| && accepted[c.id].Fn? && c.reply == given[c.id]
  {
    if given == [] {
    } else {
      CallsExact(accepted, given[..|given| - 1], c);
    }
  }

  /** ...in the order in which the commands were issued. */
  lemma {:induction false} CallsInOrder(accepted: seq<Callback>, given: seq<Option<Reply>>, a: nat, b: nat)
    requires |given| <= |accepted| && a < b < |Calls(accepted, given)|
    ensures Calls(accepted, given)[a].id < Calls(accepted, given)[b].id
  {
    var front := given[..|given| - 1];
    if b < |Calls(accepted, front)| {
      CallsInOrder(accepted, front, a, b);
    } else {
      CallsExact(accepted, front, Calls(accepted, front)[a]);
    }
  }

  lemma {:induction false} CallsStable(accepted: seq<Callback>, more: seq<Callback>, given: seq<Option<Reply>>)
    requires |given| <= |accepted|
    ensures Calls(accepted + more, given) == Calls(accepted, given)
  {
    if given == [] {
    } else {
      CallsStable(accepted, more, given[..|given| - 1]);
    }
  }

  /** The i-th reply answers the i-th command; commands beyond that were answered with NULL. */
  ghost predicate Answers(given: seq<Option<Reply>>, arrived: seq<Reply>) {
    && |arrived| <= |given|
    && (forall i :: 0 <= i < |arrived| ==> given[i] == Some(arrived[i]))
    && (forall i :: |arrived| <= i < |given| ==> given[i] == None)
  }

  /** The accepted commands, what the handled ones were answered with, and the replies received. */
  datatype Book = Book(accepted: seq<Callback>, given: seq<Option<Reply>>, arrived: seq<Reply>) {
    ghost predicate Sound() {
      |given| <= |accepted| && Answers(given, arrived)
    }

    /** The callbacks still waiting, oldest first. */
    function Waiting(): seq<Callback> {
      if |given| <= |accepted| then accepted[|given|..] else []
    }

    /** The invocations that must have happened. */
    function Due(): seq<Call>
      requires |given| <= |accepted|
    {
      Calls(accepted, given)
    }

    function Accept(cb: Callback): Book {
      this.(accepted := accepted + [cb])
    }

    lemma AcceptKeeps(cb: Callback)
      requires Sound()
      ensures Accept(cb).Sound() && Accept(cb).Waiting() == Waiting() + [cb] && Accept(cb).Due() == Due()
    {
      CallsStable(accepted, [cb], given);
    }

    function Answer(r: Option<Reply>): Book {
      this.(given := given + [r], arrived := if r.Some? then arrived + [r.value] else arrived)
    }

    lemma AnswerKeeps(r: Option<Reply>, cb: Callback, rest: seq<Callback>)
      requires Sound() && [cb] + rest == Waiting() && (r.Some? ==> |given| == |arrived|)
      ensures Answer(r).Sound() && Answer(r).Waiting() == rest
      ensures Answer(r).Due() == Due() + (if cb.Fn? then [Call(|given|, r)] else [])
    {
    }

    /** Every waiting command is answered with NULL. */
    function Drained(): Book {
      this.(given := given + seq(|Waiting()|, _ => None))
    }

    /** Nothing but accepted commands has been added. */
    ghost predicate Grew(old_: Book) {
      old_.accepted <= accepted && given == old_.given && arrived == old_.arrived
    }
  }

  /** What the event loop and the application do to a connection, in any order. */
  datatype Event = Do(action: Action) | Written(n: nat) | WriteFailed | Readable(replies: seq<Reply>, broken: bool)

  /**
   What a connection must do, on values. A callback acts in one go, and tearing down answers all waiting
   commands at once; the class below gets there step by step.
   */
  datatype Conn =
    | Live(book: Book, disconnecting: bool, freeing: bool, obuf: nat)
    | Freed(book: Book)
    | Aborted(book: Book)
  {
    function AfterAction(action: Action): Conn {
      if !Live? then this
      else
        match action
        case Issue(cb) =>
          if disconnecting || freeing then this else this.(book := book.Accept(cb), obuf := obuf + 1)
        case Disconnect => this.(disconnecting := true)
        case Free => this.(freeing := true)
    }

    function AfterScript(script: seq<Action>): Conn {
      if script == [] then this else AfterScript(script[..|script| - 1]).AfterAction(script[|script| - 1])
    }

    /** The oldest waiting command gets its answer, and its callback, if it has one, acts. */
    function AfterAnswer(r: Reply): Conn {
      var waiting := book.Waiting();
      if !Live? || waiting == [] then this
      else
        var c := this.(book := book.Answer(Some(r)));
        if waiting[0].Fn? then c.AfterScript(waiting[0].script) else c
    }

    /** An answer nobody waits for is an error reply that closes the connection, or a broken promise. */
    function AfterReply(r: Reply): Conn {
      if !Live? then this
      else if book.Waiting() == [] then (if r.Failure? then Freed(book) else Aborted(book))
      else
        var c := AfterAnswer(r);
        if c.Live? && c.freeing then Freed(c.book.Drained()) else c
    }

    function AfterReplies(rs: seq<Reply>): Conn {
      if rs == [] then this else AfterReplies(rs[..|rs| - 1]).AfterReply(rs[|rs| - 1])
    }

    /** No reply is left: a broken stream ends the connection, and so does a disconnect that has nothing to wait for. */
    function Settled(broken: bool): Conn {
      if Live? && (broken || (disconnecting && obuf == 0 && book.Waiting() == [])) then Freed(book.Drained()) else this
    }

    function AfterEvent(e: Event): Conn {
      if !Live? then this
      else
        match e
        case Do(Issue(cb)) => AfterAction(Issue(cb))
        case Do(Disconnect) => if book.Waiting() == [] then Freed(book) else this.(disconnecting := true)
        case Do(Free) => Freed(book.Drained())
        case Written(n) => this.(obuf := if n < obuf then obuf - n else 0)
        case WriteFailed => Freed(book.Drained())
        case Readable(rs, broken) => AfterReplies(rs).Settled(broken)
    }
  }

  const FRESH := Live(Book([], [], []), false, false, 0)

  function After(events: seq<Event>): Conn {
    if events == [] then FRESH else After(events[..|events| - 1]).AfterEvent(events[|events| - 1])
  }

  lemma {:induction false} StaysClosed(events: seq<Event>, i: nat)
    requires i <= |events| && !After(events[..i]).Live?
    ensures After(events) == After(events[..i])
    decreases |events| - i
  {
    if i == |events| {
      assert events[..i] == events;
    } else {
      assert events[..i + 1][..i] == events[..i];
      StaysClosed(events, i + 1);
    }
  }

  lemma OneMoreReply(c: Conn, rs: seq<Reply>, n: nat)
    requires n < |rs|
    ensures c.AfterReplies(rs[..n + 1]) == c.AfterReplies(rs[..n]).AfterReply(rs[n])
  {
    assert rs[..n + 1][..n] == rs[..n];
  }

  lemma {:induction false} RepliesStop(c: Conn, rs: seq<Reply>, n: nat)
    requires n <= |rs| && !c.AfterReplies(rs[..n]).Live?
    ensures c.AfterReplies(rs) == c.AfterReplies(rs[..n])
    decreases |rs| - n
  {
    if n == |rs| {
      assert rs[..n] == rs;
    } else {
      assert rs[..n + 1][..n] == rs[..n];
      RepliesStop(c, rs, n + 1);
    }
  }

  /** The replies the server has sent. */
  function Received(events: seq<Event>): seq<Reply> {
    if events == [] then []
    else Received(events[..|events| - 1]) + (var e := events[|events| - 1]; if e.Readable? then e.replies else [])
  }

  /** They are the replies of the reads, in order. */
  lemma {:induction false} ReceivedConcat(a: seq<Event>, b: seq<Event>)
    ensures Received(a + b) == Received(a) + Received(b)
    decreases |b|
  {
    if b == [] {
      assert a + b == a;
    } else {
      assert (a + b)[..|a + b| - 1] == a + b[..|b| - 1];
      ReceivedConcat(a, b[..|b| - 1]);
    }
  }

  lemma ReceivedOne(e: Event)
    ensures Received([e]) == if e.Readable? then e.replies else []
  {
    assert [e][..0] == [];
  }

  /** What must hold of a connection that has been sent certain replies. */
  ghost predicate Fair(c: Conn, received: seq<Reply>) {
    && c.book.Sound() && c.book.arrived <= received
    && (c.Live? ==> !c.freeing && |c.book.given| == |c.book.arrived| && c.book.arrived == received)
    && (!c.Live? ==> |c.book.given| == |c.book.accepted|)
    && (c.Aborted? ==> |received| > |c.book.accepted|)
  }

  lemma {:induction false} ScriptKeeps(c: Conn, script: seq<Action>)
    requires c.Live? && c.book.Sound()
    ensures c.AfterScript(script).Live? && c.AfterScript(script).book.Sound() && c.AfterScript(script).book.Grew(c.book)
  {
    if script == [] {
    } else {
      ScriptKeeps(c, script[..|script| - 1]);
    }
  }

  lemma ReplyKeeps(c: Conn, r: Reply, received: seq<Reply>)
    requires Fair(c, received)
    ensures Fair(c.AfterReply(r), received + [r])
  {
    var waiting := c.book.Waiting();
    if c.Live? && waiting != [] {
      var b := c.book.Answer(Some(r));
      if waiting[0].Fn? {
        ScriptKeeps(c.(book := b), waiting[0].script);
      }
    }
  }

  lemma {:induction false} RepliesKeep(c: Conn, rs: seq<Reply>, received: seq<Reply>)
    requires Fair(c, received)
    ensures Fair(c.AfterReplies(rs), received + rs)
  {
    if rs == [] {
      assert received + rs == received;
    } else {
      var front, r := rs[..|rs| - 1], rs[|rs| - 1];
      RepliesKeep(c, front, received);
      ReplyKeeps(c.AfterReplies(front), r, received + front);
      assert received + front + [r] == received + rs;
    }
  }

  /** In every run the books are right. */
  lemma {:induction false} EveryRunIsFair(events: seq<Event>)
    ensures Fair(After(events), Received(events))
  {
    if events != [] {
      var front, e := events[..|events| - 1], events[|events| - 1];
      EveryRunIsFair(front);
      if e.Readable? {
        RepliesKeep(After(front), e.replies, Received(front));
      } else {
        assert Received(front) + [] == Received(front);
      }
    }
  }

  class Connection {
    const replies: List
    var disconnecting: bool
    var freeing: bool
    var inCallback: bool
    var freed: bool          // the context has been destroyed
    var aborted: bool        // an assertion of the library has failed
    var err: bool
    var obuf: nat            // commands not yet written out
    var handled: nat
    var ran: seq<Call>       // every callback invocation so far
    ghost var book: Book

    ghost predicate Valid()
      reads this`handled, this`ran, this`book, replies, replies.Repr
    {
      && replies.Valid() && book.Sound()
      && replies.contents == book.Waiting() && handled == |book.given| && ran == book.Due()
    }

    ghost function View(): Conn
      reads this
    {
      if aborted then Aborted(book) else if freed then Freed(book) else Live(book, disconnecting, freeing, obuf)
    }

    /** Between events on a live connection. */
    ghost predicate Open()
      reads this, replies, replies.Repr
    {
      Valid() && !freed && !aborted && !inCallback && !freeing && |book.given| == |book.arrived|
    }

    /** After teardown every accepted command has been answered. */
    ghost predicate Closed()
      reads this, replies, replies.Repr
    {
      Valid() && freed && !aborted && |book.given| == |book.accepted|
    }

    /** A reply came that no command was waiting for. */
    ghost predicate Overrun()
      reads this, replies, replies.Repr
    {
      Valid() && aborted && !freed && |book.given| == |book.accepted|
    }

    constructor ()
      ensures Open() && View() == FRESH
      ensures fresh(replies) && fresh(replies.Repr)
    {
      replies := new List();
      disconnecting, freeing, inCallback, freed, aborted, err := false, false, false, false, false, false;
      obuf, handled, ran, book := 0, 0, [], Book([], [], []);
    }

    /** Queues a command's callback, unless the connection is about to close. */
    method AsyncCommand(cb: Callback) returns (ok: bool)
      requires Valid() && !freed
      modifies this`book, this`obuf, replies, replies.Repr
      ensures Valid() && fresh(replies.Repr - old(replies.Repr))
      ensures ok == !(disconnecting || freeing) && book == if ok then old(book).Accept(cb) else old(book)
      ensures obuf == if ok then old(obuf) + 1 else old(obuf)
    {
      if disconnecting || freeing {
        return false;
      }
      replies.Push(cb);
      book.AcceptKeeps(cb);
      book := book.Accept(cb);
      obuf := obuf + 1;
      return true;
    }

    /** Inside a callback, disconnecting and freeing only leave a mark for the code that runs callbacks. */
    method Act(action: Action)
      requires Valid() && inCallback && !freed && !aborted
      modifies this`book, this`obuf, this`disconnecting, this`freeing, replies, replies.Repr
      ensures Valid() && fresh(replies.Repr - old(replies.Repr)) && book.Grew(old(book))
      ensures View() == old(View()).AfterAction(action)
      ensures old(disconnecting || freeing) ==> book == old(book) && (disconnecting || freeing)
    {
      match action
      case Issue(cb) =>
        var _ := AsyncCommand(cb);
      case Disconnect =>
        disconnecting := true;
      case Free =>
        freeing := true;
    }

    /** Runs a callback; the connection is not touched otherwise until it returns. */
    method RunCallback(script: seq<Action>)
      requires Valid() && !inCallback && !freed && !aborted
      modifies this`book, this`obuf, this`disconnecting, this`freeing, this`inCallback, replies, replies.Repr
      ensures Valid() && fresh(replies.Repr - old(replies.Repr)) && !inCallback && book.Grew(old(book))
      ensures View() == old(View()).AfterScript(script)
      ensures old(disconnecting || freeing) ==> book == old(book) && (disconnecting || freeing)
    {
      inCallback := true;
      for i := 0 to |script|
        invariant Valid() && fresh(replies.Repr - old(replies.Repr)) && inCallback && book.Grew(old(book))
        invariant View() == old(View()).AfterScript(script[..i])
        invariant old(disconnecting || freeing) ==> book == old(book) && (disconnecting || freeing)
      {
        assert script[..i + 1][..i] == script[..i];
        Act(script[i]);
      }
      assert script[..|script|] == script;
      inCallback := false;
    }

    /** Takes the oldest waiting callback off the queue and books its invocation. */
    method TakeNext(answer: Option<Reply>) returns (found: bool, cb: Callback)
      requires Valid() && (answer.Some? ==> |book.given| == |book.arrived|)
      modifies this`book, this`handled, this`ran, replies
      ensures Valid() && replies.Repr == old(replies.Repr)
      ensures found == (old(replies.contents) != [])
      ensures book == if found then old(book).Answer(answer) else old(book)
      ensures found ==> cb == old(replies.contents)[0]
    {
      found, cb := replies.Shift();
      if found {
        book.AnswerKeeps(answer, cb, replies.contents);
        if cb.Fn? {
          ran := ran + [Call(handled, answer)];
        }
        book := book.Answer(answer);
        handled := handled + 1;
      }
    }

    /** Takes the oldest waiting callback and runs it, if it is not null, with the given answer. */
    method HandleNext(answer: Option<Reply>) returns (found: bool, called: bool)
      requires Valid() && !inCallback && !freed && !aborted && (answer.Some? ==> |book.given| == |book.arrived|)
      modifies this`book, this`handled, this`ran, this`obuf, this`disconnecting, this`freeing, this`inCallback
      modifies replies, replies.Repr
      ensures Valid() && fresh(replies.Repr - old(replies.Repr)) && !inCallback
      ensures found == (old(replies.contents) != []) && (called ==> found)
      ensures if found then book.Grew(old(book).Answer(answer)) else book == old(book)
      ensures old(disconnecting || freeing) ==>
                (disconnecting || freeing) && book == if found then old(book).Answer(answer) else old(book)
      ensures !called ==> freeing == old(freeing) && disconnecting == old(disconnecting)
      ensures answer.Some? ==> View() == old(View()).AfterAnswer(answer.value)
    {
      var cb;
      found, cb := TakeNext(answer);
      called := found && cb.Fn?;
      if called {
        RunCallback(cb.script);
      }
    }

    /** Destroys the context after running every pending callback with NULL; new commands are refused, so this ends. */
    method TearDown()
      requires Valid() && !inCallback && !freed && !aborted && (disconnecting || freeing)
      modifies this, replies, replies.Repr
      ensures Closed() && fresh(replies.Repr - old(replies.Repr))
      ensures book == old(book).Drained()
    {
      var more := true;
      ghost var nulls: seq<Option<Reply>> := [];
      while more
        invariant Valid() && !inCallback && !freed && !aborted && (disconnecting || freeing)
        invariant fresh(replies.Repr - old(replies.Repr))
        invariant book == old(book).(given := old(book).given + nulls) && nulls == seq(|nulls|, _ => None)
        invariant !more ==> |book.given| == |book.accepted|
        decreases more, |book.accepted| - |book.given|
      {
        ghost var given := old(book).given;
        Assoc(given, nulls, [None]);
        var called;
        more, called := HandleNext(None);
        if more {
          nulls := nulls + [None];
        }
      }
      freed := true;
    }

    method AsyncFree()
      requires Open()
      modifies this, replies, replies.Repr
      ensures Closed() && fresh(replies.Repr - old(replies.Repr))
      ensures book == old(book).Drained()
    {
      freeing := true;
      TearDown();
    }

    /** A clean disconnect finds nothing pending; any other makes pending callbacks unable to issue commands. */
    method DisconnectNow()
      requires Valid() && !inCallback && !freed && !aborted
      requires !err ==> replies.contents == [] && disconnecting
      modifies this, replies, replies.Repr
      ensures Closed() && fresh(replies.Repr - old(replies.Repr))
      ensures book == old(book).Drained()
    {
      if err {
        disconnecting := true;
      }
      TearDown();
    }

    method AsyncDisconnect()
      requires Open()
      modifies this, replies, replies.Repr
      ensures (Open() || Closed()) && fresh(replies.Repr - old(replies.Repr))
      ensures View() == old(View()).AfterEvent(Do(Disconnect))
    {
      disconnecting := true;
      if replies.head == null {
        DisconnectNow();
      }
    }

    /** What one reply does; `go` tells whether to look for the next one. */
    method ProcessReply(reply: Reply) returns (go: bool)
      requires Open()
      modifies this, replies, replies.Repr
      ensures fresh(replies.Repr - old(replies.Repr)) && View() == old(View()).AfterReply(reply)
      ensures go ==> Open()
      ensures !go ==> Closed() || Overrun()
    {
      var found, called := HandleNext(Some(reply));
      go := false;
      if !found {
        // an answer nobody waits for: an error reply closes the connection, anything else is a broken promise
        if reply.Failure? {
          err := true;
          DisconnectNow();
        } else {
          aborted := true;
        }
      } else if called && freeing {
        TearDown();
      } else {
        go := true;
      }
    }

    /** Hands the available replies to their callbacks; then waits, disconnects, or stops on a broken stream. */
    method ProcessCallbacks(available: seq<Reply>, broken: bool)
      requires Open()
      modifies this, replies, replies.Repr
      ensures fresh(replies.Repr - old(replies.Repr)) && View() == old(View()).AfterReplies(available).Settled(broken)
      ensures Open() || Closed() || Overrun()
    {
      ghost var start := View();
      var n, go := 0, true;
      while go && n < |available|
        invariant 0 <= n <= |available| && fresh(replies.Repr - old(replies.Repr))
        invariant View() == start.AfterReplies(available[..n])
        invariant if go then Open() else Closed() || Overrun()
        decreases |available| - n
      {
        OneMoreReply(start, available, n);
        go := ProcessReply(available[n]);
        n := n + 1;
      }
      if go {
        assert available[..n] == available;
        Settle(broken);
      } else {
        RepliesStop(start, available, n);
      }
    }

    /** No reply is left: a broken stream ends the connection, and so does a disconnect that has nothing to wait for. */
    method Settle(broken: bool)
      requires Open()
      modifies this, replies, replies.Repr
      ensures fresh(replies.Repr - old(replies.Repr)) && View() == old(View()).Settled(broken)
      ensures Open() || Closed()
    {
      if broken {
        err := true;
        DisconnectNow();
      } else if disconnecting && obuf == 0 && replies.head == null {
        DisconnectNow();
      }
    }
  }

  method Handle(c: Connection, e: Event)
    requires c.Open()
    modifies c, c.replies, c.replies.Repr
    ensures fresh(c.replies.Repr - old(c.replies.Repr)) && c.View() == old(c.View()).AfterEvent(e)
    ensures c.Open() || c.Closed() || c.Overrun()
  {
    match e {
      case Do(Issue(cb)) =>
        var _ := c.AsyncCommand(cb);
      case Do(Disconnect) =>
        c.AsyncDisconnect();
      case Do(Free) =>
        c.AsyncFree();
      case Written(n) =>
        c.obuf := if n < c.obuf then c.obuf - n else 0;
      case WriteFailed =>
        c.err := true;
        c.DisconnectNow();
      case Readable(replies, broken) =>
        c.ProcessCallbacks(replies, broken);
    }
  }

  /**
   Any run: the callbacks that ran are exactly those of the answered commands, in issue order, the
   i-th reply going to the i-th command and NULL to the commands a teardown found unanswered; after a
   teardown no command is left without its answer. The library's own assertion can only fail when
   the server sends more replies than there were commands.
   */
  method Run(events: seq<Event>) returns (ran: seq<Call>, open: bool, aborted: bool)
    ensures
      var end := After(events);
      && Fair(end, Received(events)) && ran == Calls(end.book.accepted, end.book.given)
      && open == end.Live? && aborted == end.Aborted?
  {
    var c := new Connection();
    var i := 0;
    while i < |events| && !c.freed && !c.aborted
      invariant 0 <= i <= |events| && fresh(c) && fresh(c.replies) && fresh(c.replies.Repr)
      invariant c.Open() || c.Closed() || c.Overrun()
      invariant c.View() == After(events[..i])
      decreases |events| - i
    {
      assert events[..i + 1][..i] == events[..i];
      Handle(c, events[i]);
      i := i + 1;
    }
    ran, open, aborted := c.ran, !c.freed && !c.aborted, c.aborted;
    if open {
      assert events[..i] == events;
    } else {
      StaysClosed(events, i);
    }
    EveryRunIsFair(events);
  }
}
