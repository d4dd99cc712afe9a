/** Commands queued in the output buffer, written in arbitrary pieces, and read at the other end. */
module Pipeline {
  import opened Bytes
  import opened Decimal
  import opened Resp
  import opened Command
  import opened ReaderRuns
  import Sds
  import SdsBuffer
  import Reader

  /** What one write to the socket may report. */
  datatype Write = Again | Broken | Wrote(n: nat)

  datatype Op = Issue(argv: Argv) | Flush(w: Write)

  function Commands(ops: seq<Op>): seq<Argv> {
    if ops == [] then []
    else Commands(ops[..|ops| - 1]) + (var o := ops[|ops| - 1]; if o.Issue? then [o.argv] else [])
  }

  function AsReplies(argvs: seq<Argv>): seq<Reply> {
    if argvs == [] then [] else [AsReply(argvs[0])] + AsReplies(argvs[1..])
  }

  function WireAll(argvs: seq<Argv>): bytes {
    EncodeAll(AsReplies(argvs))
  }

  lemma {:induction false} OneMoreCommand(argvs: seq<Argv>, argv: Argv)
    ensures AsReplies(argvs + [argv]) == AsReplies(argvs) + [AsReply(argv)]
    ensures WireAll(argvs + [argv]) == WireAll(argvs) + Wire(argv)
  {
    if argvs == [] {
      assert argvs + [argv] == [argv];
      assert [argv][1..] == [] && AsReplies([argv])[1..] == [];
      assert EncodeAll(AsReplies([argv])) == Wire(argv) + [];
    } else {
      assert (argvs + [argv])[1..] == argvs[1..] + [argv];
      OneMoreCommand(argvs[1..], argv);
      var first := AsReply(argvs[0]);
      Assoc([first], AsReplies(argvs[1..]), [AsReply(argv)]);
      Assoc(Encode(first), WireAll(argvs[1..]), Wire(argv));
      assert AsReplies(argvs + [argv])[1..] == AsReplies(argvs[1..] + [argv]);
      assert AsReplies(argvs)[1..] == AsReplies(argvs[1..]);
    }
  }

  class Context {
    var err: bool
    var obuf: bytes
    var sent: bytes  // what the socket has accepted so far

    constructor ()
      ensures !err && obuf == [] && sent == []
    {
      err, obuf, sent := false, [], [];
    }

    method AppendCommand(argv: Argv)
      modifies this`obuf
      ensures obuf == old(obuf) + Wire(argv)
    {
      var cmd, len := FormatCommandArgv(argv);
      obuf := obuf + cmd[..len];
    }

    /** Writes (part of) the output buffer; no byte is lost, repeated or reordered. */
    method BufferWrite(w: Write) returns (ok: bool, done: bool)
      requires w.Wrote? ==> w.n <= |obuf|
      modifies this
      ensures sent + obuf == old(sent + obuf) && old(sent) <= sent
      ensures ok ==> done == (obuf == [])
      ensures err == !ok && (ok <==> !old(err) && !(w.Broken? && old(obuf) != []))
      ensures |sent| == |old(sent)| + (if ok && w.Wrote? then w.n else 0)
    {
      if err {
        return false, false;
      }
      if |obuf| > 0 {
        match w {
          case Again =>
          case Broken =>
            err := true;
            return false, false;
          case Wrote(n) =>
            if n > 0 {
              sent := sent + obuf[..n];
              if n == |obuf| {
                obuf := [];
              } else {
                Sds.RangeToEnd(obuf, n);
                obuf := Sds.Range(obuf, n, -1);
              }
            }
        }
      }
      return true, |obuf| == 0;
    }
  }

  /** How many bytes a run has written and how many it has left queued. */
  datatype Progress = Progress(err: bool, sent: nat, queued: nat)

  function Track(ops: seq<Op>): Progress {
    if ops == [] then Progress(false, 0, 0)
    else
      var p := Track(ops[..|ops| - 1]);
      match ops[|ops| - 1]
      case Issue(argv) => p.(queued := p.queued + |Wire(argv)|)
      case Flush(Again) => p
      case Flush(Broken) => p.(err := p.err || p.queued > 0)
      case Flush(Wrote(n)) =>
        var k := if p.err then 0 else if n < p.queued then n else p.queued;
        p.(sent := p.sent + k, queued := p.queued - k)
  }

  lemma CommandsStep(ops: seq<Op>, i: nat)
    requires i < |ops|
    ensures Commands(ops[..i + 1]) == Commands(ops[..i]) + (if ops[i].Issue? then [ops[i].argv] else [])
    ensures ops[i].Flush? ==> Commands(ops[..i + 1]) == Commands(ops[..i])
  {
    assert ops[..i + 1][..i] == ops[..i];
  }

  // ---- how much gets written ----

  /** Bytes of all commands issued. */
  function Issued(ops: seq<Op>): nat {
    |WireAll(Commands(ops))|
  }

  /** What the writes of a run offered to take. */
  function Offered(ops: seq<Op>): nat {
    if ops == [] then 0
    else Offered(ops[1..]) + (if ops[0].Flush? && ops[0].w.Wrote? then ops[0].w.n else 0)
  }

  predicate Intact(ops: seq<Op>) {
    forall i :: 0 <= i < |ops| ==> ops[i] != Flush(Broken)
  }

  lemma {:induction false} OfferedMore(ops: seq<Op>, op: Op)
    ensures Offered(ops + [op]) == Offered(ops) + (if op.Flush? && op.w.Wrote? then op.w.n else 0)
  {
    if ops == [] {
      assert [op][1..] == [] && ops + [op] == [op];
    } else {
      assert (ops + [op])[1..] == ops[1..] + [op];
      OfferedMore(ops[1..], op);
    }
  }

  lemma IssuedMore(ops: seq<Op>, op: Op)
    ensures Commands(ops + [op]) == Commands(ops) + (if op.Issue? then [op.argv] else [])
    ensures Issued(ops + [op]) == Issued(ops) + (if op.Issue? then |Wire(op.argv)| else 0)
  {
    assert (ops + [op])[..|ops|] == ops;
    if op.Issue? {
      OneMoreCommand(Commands(ops), op.argv);
    } else {
      assert Commands(ops) + [] == Commands(ops);
    }
  }

  /** One more operation: a write takes what it offers, or all there is. */
  lemma TrackMore(ops: seq<Op>, op: Op)
    ensures
      var p, p' := Track(ops), Track(ops + [op]);
      && p.sent + p.queued == Issued(ops)
      && p'.sent == p.sent + (if op.Flush? && op.w.Wrote? && !p.err then Least(op.w.n, Issued(ops) - p.sent) else 0)
      && p'.err == (p.err || (op == Flush(Broken) && p.sent < Issued(ops)))
  {
    assert (ops + [op])[..|ops|] == ops;
    TrackTotals(ops);
  }

  function Least(a: int, b: int): int {
    if a < b then a else b
  }

  lemma {:induction false} TrackTotals(ops: seq<Op>)
    ensures Track(ops).sent + Track(ops).queued == Issued(ops)
    ensures Intact(ops) ==> !Track(ops).err
  {
    if ops == [] {
    } else {
      var front, op := ops[..|ops| - 1], ops[|ops| - 1];
      assert ops == front + [op];
      TrackTotals(front);
      IssuedMore(front, op);
      assert Intact(ops) ==> op != Flush(Broken);
    }
  }

  /** What operation i leaves of a bound: the commands before it, and the writes from it on. */
  function Bound(ops: seq<Op>, i: nat): nat
    requires i <= |ops|
  {
    Issued(ops[..i]) + Offered(ops[i..])
  }

  lemma BoundMore(ops: seq<Op>, op: Op, i: nat)
    requires i <= |ops|
    ensures Bound(ops + [op], i) == Bound(ops, i) + (if op.Flush? && op.w.Wrote? then op.w.n else 0)
    ensures Bound(ops + [op], |ops| + 1) == Issued(ops + [op])
  {
    assert (ops + [op])[..i] == ops[..i] && (ops + [op])[i..] == ops[i..] + [op];
    OfferedMore(ops[i..], op);
    assert (ops + [op])[|ops| + 1..] == [] && (ops + [op])[..|ops| + 1] == ops + [op];
  }

  /**
   Without a broken socket, what has been written is the least of these bounds: at no moment can more be written
   than was issued before it and offered after it, and that is the only limit.
   */
  lemma {:induction false} WrittenExactly(ops: seq<Op>) returns (least: nat)
    requires Intact(ops)
    ensures least <= |ops| && Track(ops).sent == Bound(ops, least)
    ensures forall i :: 0 <= i <= |ops| ==> Track(ops).sent <= Bound(ops, i)
  {
    if ops == [] {
      least := 0;
    } else {
      var front, op := ops[..|ops| - 1], ops[|ops| - 1];
      assert ops == front + [op];
      least := WrittenExactly(front);
      TrackMore(front, op);
      TrackTotals(front);
      IssuedMore(front, op);
      if Track(ops).sent == Issued(ops) && op.Flush? {
        least := |ops|;
      }
      forall i | 0 <= i <= |ops| ensures Track(ops).sent <= Bound(ops, i) {
        BoundMore(front, op, if i <= |front| then i else 0);
      }
      BoundMore(front, op, if least <= |front| then least else 0);
    }
  }

  predicate OnlyFlushes(ops: seq<Op>) {
    forall i :: 0 <= i < |ops| ==> ops[i].Flush?
  }

  /** Writes behind the last command take all that is queued, or else exactly what they add up to. */
  lemma {:induction false} CatchUp(pre: seq<Op>, post: seq<Op>)
    requires !Track(pre).err && Intact(post) && OnlyFlushes(post)
    ensures Commands(pre + post) == Commands(pre) && !Track(pre + post).err
    ensures Track(pre + post).sent == Least(Track(pre).sent + Offered(post), Issued(pre))
    decreases |post|
  {
    if post == [] {
      TrackTotals(pre);
      assert pre + post == pre;
    } else {
      var op, later := post[0], post[1..];
      FirstFlush(post);
      CatchUpMore(pre, op);
      CatchUp(pre + [op], later);
      assert pre + post == pre + [op] + later;
      LeastTwice(Track(pre).sent, if op.w.Wrote? then op.w.n else 0, Offered(later), Issued(pre));
    }
  }

  lemma FirstFlush(post: seq<Op>)
    requires post != [] && Intact(post) && OnlyFlushes(post)
    ensures post[0].Flush? && !post[0].w.Broken? && Intact(post[1..]) && OnlyFlushes(post[1..])
  {
    assert post[0] != Flush(Broken);
  }

  lemma CatchUpMore(ops: seq<Op>, op: Op)
    requires !Track(ops).err && op.Flush? && !op.w.Broken?
    ensures Commands(ops + [op]) == Commands(ops) && !Track(ops + [op]).err
    ensures Track(ops + [op]).sent ==
            Least(Track(ops).sent + (if op.w.Wrote? then op.w.n else 0), Issued(ops))
  {
    TrackMore(ops, op);
    IssuedMore(ops, op);
    TrackTotals(ops);
  }

  lemma LeastTwice(a: nat, n: nat, m: nat, most: nat)
    ensures Least(Least(a + n, most) + m, most) == Least(a + (m + n), most)
  {
  }

  /** A write that fails while something is queued is the last that had a chance. */
  lemma {:induction false} BrokenForGood(pre: seq<Op>, post: seq<Op>)
    requires Track(pre).err
    ensures Track(pre + post).err && Track(pre + post).sent == Track(pre).sent
    decreases |post|
  {
    if post == [] {
      assert pre + post == pre;
    } else {
      var front, op := post[..|post| - 1], post[|post| - 1];
      assert pre + post == pre + front + [op];
      BrokenForGood(pre, front);
      TrackMore(pre + front, op);
    }
  }

  lemma {:induction false} CommandsConcat(a: seq<Op>, b: seq<Op>)
    ensures Commands(a + b) == Commands(a) + Commands(b)
    decreases |b|
  {
    if b == [] {
      assert a + b == a && Commands(a) + [] == Commands(a);
    } else {
      var front, op := b[..|b| - 1], b[|b| - 1];
      assert a + b == a + front + [op] && b == front + [op];
      CommandsConcat(a, front);
      IssuedMore(a + front, op);
      IssuedMore(front, op);
    }
  }

  /** Runs a connection: what was written and what is still queued are the commands, in order. */
  method Send(ops: seq<Op>) returns (sent: bytes, queued: bytes)
    ensures sent + queued == WireAll(Commands(ops))
    ensures |sent| == Track(ops).sent && |queued| == Track(ops).queued
  {
    var c := new Context();
    for i := 0 to |ops|
      invariant fresh(c) && c.sent + c.obuf == WireAll(Commands(ops[..i]))
      invariant Progress(c.err, |c.sent|, |c.obuf|) == Track(ops[..i])
    {
      assert ops[..i + 1][..i] == ops[..i];
      CommandsStep(ops, i);
      match ops[i] {
        case Issue(argv) =>
          OneMoreCommand(Commands(ops[..i]), argv);
          Assoc(c.sent, c.obuf, Wire(argv));
          c.AppendCommand(argv);
        case Flush(w) =>
          ghost var was := |c.sent| + |c.obuf|;
          var _, _ := c.BufferWrite(if w.Wrote? && w.n > |c.obuf| then Wrote(|c.obuf|) else w);
          assert |c.sent| + |c.obuf| == |c.sent + c.obuf| == was;
      }
    }
    assert ops[..|ops|] == ops;
    sent, queued := c.sent, c.obuf;
  }

  // ---- the receiving side ----

  lemma {:induction false} BulksAreFlat(argv: Argv, depth: nat)
    ensures AllPrintable(Bulks(argv)) && !AnyTooNested(Bulks(argv), depth)
  {
    if argv == [] {
    } else {
      BulksAreFlat(argv[1..], depth);
      assert Bulks(argv)[1..] == Bulks(argv[1..]);
    }
  }

  lemma {:induction false} CommandsAreFlat(argvs: seq<Argv>)
    ensures AllPrintable(AsReplies(argvs)) && Shallow(AsReplies(argvs)) == |AsReplies(argvs)|
  {
    if argvs == [] {
    } else {
      BulksAreFlat(argvs[0], 1);
      CommandsAreFlat(argvs[1..]);
      assert AsReplies(argvs)[1..] == AsReplies(argvs[1..]);
      assert !TooNested(AsReply(argvs[0]), 0);
    }
  }

  /** How many whole commands the first n bytes on the wire hold. */
  function Arrived(argvs: seq<Argv>, n: nat): (k: nat)
    ensures k <= |argvs|
  {
    if argvs == [] || |Wire(argvs[0])| > n then 0 else 1 + Arrived(argvs[1..], n - |Wire(argvs[0])|)
  }

  lemma WireFirst(argvs: seq<Argv>)
    requires argvs != []
    ensures WireAll(argvs) == Wire(argvs[0]) + WireAll(argvs[1..])
  {
    assert AsReplies(argvs)[1..] == AsReplies(argvs[1..]);
  }

  lemma CommandParses(argv: Argv, t: bytes)
    ensures Parse(Wire(argv) + t, 0) == Done(AsReply(argv), t)
  {
    BulksAreFlat(argv, 1);
    RoundTrip(AsReply(argv), t, 0);
  }

  /** Part of a command is not a reply. */
  lemma PartIsUndecided(argv: Argv, more: bytes, s: bytes, t: bytes)
    requires s + t == Wire(argv) + more && |s| < |Wire(argv)|
    ensures Parse(s, 0) == More
  {
    CommandParses(argv, more);
    if !Parse(s, 0).More? {
      ParseStays(s, t, 0);
    }
  }

  lemma AfterWhole(w: bytes, more: bytes, s: bytes, t: bytes)
    requires s + t == w + more && |s| >= |w|
    ensures s == w + s[|w|..] && s[|w|..] + t == more
  {
    assert s == (w + more)[..|s|] && t == (w + more)[|s|..];
  }

  lemma {:induction false} PartDecodes(argvs: seq<Argv>, s: bytes, t: bytes)
    requires s + t == WireAll(argvs)
    ensures Arrived(argvs, |s|) <= |AsReplies(argvs)|
    ensures Decode(s) == Stream(AsReplies(argvs)[..Arrived(argvs, |s|)], None)
    decreases |argvs|
  {
    if argvs != [] {
      var w, more := Wire(argvs[0]), WireAll(argvs[1..]);
      WireFirst(argvs);
      if |s| < |w| {
        PartIsUndecided(argvs[0], more, s, t);
      } else {
        var s' := s[|w|..];
        AfterWhole(w, more, s, t);
        CommandParses(argvs[0], s');
        PartDecodes(argvs[1..], s', t);
        var k := Arrived(argvs[1..], |s'|);
        assert AsReplies(argvs)[..k + 1] == [AsReply(argvs[0])] + AsReplies(argvs[1..])[..k];
      }
    }
  }

  /** Cuts a stream into chunks of the given lengths, each followed by so many requests for a reply. */
  method Chunked(s: bytes, cuts: seq<(nat, nat)>) returns (events: seq<Event>)
    ensures Input(events) == s
  {
    events := [];
    var p := 0;
    for i := 0 to |cuts|
      invariant 0 <= p <= |s| && Input(events) == s[..p]
    {
      var n := if cuts[i].0 > |s| - p then |s| - p else cuts[i].0;
      AddFeed(events, s[p..p + n]);
      events := events + [Feed(s[p..p + n])];
      p := p + n;
      for j := 0 to cuts[i].1
        invariant Input(events) == s[..p]
      {
        assert (events + [Poll])[..|events|] == events;
        events := events + [Poll];
      }
    }
    AddFeed(events, s[p..]);
    events := events + [Feed(s[p..])];
  }

  lemma AddFeed(events: seq<Event>, chunk: bytes)
    ensures Input(events + [Feed(chunk)]) == Input(events) + chunk
  {
    assert (events + [Feed(chunk)])[..|events|] == events;
  }

  /**
   End to end: whatever was issued, however it was written out and however it arrives, the reader at
   the other end sees the argument lists in order and byte for byte: exactly those whose last byte
   was written, and all of them once nothing is queued.
   */
  method Deliver(ops: seq<Op>, cuts: seq<(nat, nat)>) returns (received: Stream, queued: nat)
    ensures
      var all := AsReplies(Commands(ops));
      var k := Arrived(Commands(ops), Track(ops).sent);
      && k <= |all| && received == Stream(all[..k], None)
      && queued == Track(ops).queued && (queued == 0 ==> received.replies == all)
  {
    var sent, rest := Send(ops);
    var events := Chunked(sent, cuts);
    received := Drive(events);
    queued := |rest|;
    PartDecodes(Commands(ops), sent, rest);
    if rest == [] {
      CommandsAreFlat(Commands(ops));
      DecodeEncoded(AsReplies(Commands(ops)));
      assert sent + rest == sent;
    }
  }

  /** Once the writes behind the last command cover what is queued, every command arrives. */
  method DeliverAll(pre: seq<Op>, post: seq<Op>, cuts: seq<(nat, nat)>) returns (received: Stream)
    requires !Track(pre).err && Intact(post) && OnlyFlushes(post)
    requires Offered(post) >= Issued(pre) - Track(pre).sent
    ensures received == Stream(AsReplies(Commands(pre)), None)
  {
    CatchUp(pre, post);
    TrackTotals(pre);
    TrackTotals(pre + post);
    var queued;
    received, queued := Deliver(pre + post, cuts);
  }

  // ---- walking over the arguments of a formatted command ----

  function StrChr(s: bytes, from: nat, b: byte): (r: Option<nat>)
    ensures r.Some? ==> from <= r.value < |s| && s[r.value] == b
    decreases |s| - from
  {
    if At(s, from) == NUL then None
    else if s[from] == b then Some(from)
    else StrChr(s, from + 1, b)
  }

  /** The digits at the front of s. */
  function DigitRun(s: bytes): (r: bytes)
    ensures AllDigits(r)
  {
    if s == [] || !(ZERO <= s[0] <= ZERO + 9) then [] else [s[0]] + DigitRun(s[1..])
  }

  datatype Argument = Argument(text: bytes, next: nat)

  /** The argument whose dollar sign starts s, and where it ends; None when s is cut short. */
  function ArgumentHere(s: bytes): Option<Argument>
    requires s != []
  {
    var len := Natural(DigitRun(s[1..]));
    var cr := StrChr(s, 0, CR);
    if cr.None? || cr.value + 2 + len > |s| then None
    else Some(Argument(s[cr.value + 2..][..len], cr.value + 2 + len + 2))
  }

  /** The argument at or after offset p and the offset behind it; None when there is no further one. */
  function NextArgument(cmd: bytes, p: nat): (r: Option<Argument>)
    ensures r.Some? ==> p < r.value.next <= |cmd| + 2
  {
    var start := if At(cmd, p) == DOLLAR then Some(p) else StrChr(cmd, p, DOLLAR);
    if start.None? then None
    else
      var a := ArgumentHere(cmd[start.value..]);
      if a.None? then None else Some(Argument(a.value.text, start.value + a.value.next))
  }

  lemma {:induction false} StrChrSkips(s: bytes, from: nat, stop: nat, b: byte)
    requires from <= stop <= |s| && (stop == |s| || s[stop] == b) && b != NUL
    requires forall i :: from <= i < stop ==> s[i] != NUL && s[i] != b
    ensures StrChr(s, from, b) == if stop == |s| then None else Some(stop)
    decreases stop - from
  {
    if from == stop {
    } else {
      StrChrSkips(s, from + 1, stop, b);
    }
  }

  lemma {:induction false} DigitRunStops(digits: bytes, t: bytes)
    requires AllDigits(digits) && t != [] && t[0] == CR
    ensures DigitRun(digits + t) == digits
  {
    if digits == [] {
      assert digits + t == t;
    } else {
      assert (digits + t)[1..] == digits[1..] + t;
      DigitRunStops(digits[1..], t);
    }
  }

  lemma LineScanned(line: bytes, rest: bytes)
    requires AllDigits(line)
    ensures
      var s := [DOLLAR] + line + CRLF + rest;
      DigitRun(s[1..]) == line && StrChr(s, 0, CR) == Some(1 + |line|) && s[1 + |line| + 2..] == rest
  {
    var s := [DOLLAR] + line + CRLF + rest;
    LineParts(DOLLAR, line, rest);
    DigitRunStops(line, CRLF + rest);
    StrChrSkips(s, 0, 1 + |line|, CR);
  }

  lemma ArgumentAt(arg: bytes, after: bytes)
    ensures ArgumentHere(Encode(Bulk(arg)) + after) == Some(Argument(arg, |Encode(Bulk(arg))|))
  {
    var body := arg + CRLF + after;
    BulkPrints(arg, after);
    NaturalOfDigits(|arg|);
    LineScanned(Digits(|arg|), body);
    assert body[..|arg|] == arg;
  }

  lemma {:induction false} WireSplits(argv: Argv, j: nat)
    requires j <= |argv|
    ensures |Sofar(argv, j)| <= |Wire(argv)| && Wire(argv)[..|Sofar(argv, j)|] == Sofar(argv, j)
    decreases |argv| - j
  {
    SofarGrows(argv, j);
    if j == |argv| {
    } else {
      WireSplits(argv, j + 1);
      assert Wire(argv)[..|Sofar(argv, j)|] == Wire(argv)[..|Sofar(argv, j + 1)|][..|Sofar(argv, j)|];
    }
  }

  function Upcoming(argv: Argv, j: nat): Option<Argument>
    requires j <= |argv|
  {
    if j == |argv| then None else Some(Argument(argv[j], |Sofar(argv, j + 1)|))
  }

  /** From the start of an argument the walk takes it; behind the last there is none. */
  lemma NextIs(argv: Argv, j: nat)
    requires j <= |argv|
    ensures NextArgument(Wire(argv), |Sofar(argv, j)|) == Upcoming(argv, j)
  {
    SofarGrows(argv, j);
    if j < |argv| {
      var cmd, p := Wire(argv), |Sofar(argv, j)|;
      WireSplits(argv, j + 1);
      var after := cmd[|Sofar(argv, j + 1)|..];
      AfterPrefix(cmd, Sofar(argv, j), Encode(Bulk(argv[j])));
      assert cmd[p] == cmd[p..][0] == DOLLAR;
      ArgumentAt(argv[j], after);
    }
  }

  /** The count in front of the first argument holds no dollar sign, so the walk starts at the first argument. */
  lemma CountIsSkipped(argv: Argv)
    ensures
      var n := |Sofar(argv, 0)|;
      && n <= |Wire(argv)| && Wire(argv)[0] != DOLLAR
      && forall i :: 0 <= i < n ==> Wire(argv)[i] != NUL && Wire(argv)[i] != DOLLAR
  {
    NaturalOfDigits(|argv|);
    WireSplits(argv, 0);
    var head := Header(STAR, |argv|);
    assert Sofar(argv, 0) == head;
    forall i | 0 <= i < |head|
      ensures Wire(argv)[i] != NUL && Wire(argv)[i] != DOLLAR
    {
      assert Wire(argv)[i] == Wire(argv)[..|head|][i] == head[i];
    }
  }

  /** The walk finds the same argument from anywhere in front of its dollar sign. */
  lemma SkipsAhead(cmd: bytes, n: nat)
    requires n <= |cmd| && (n == |cmd| || cmd[n] == DOLLAR)
    requires forall i :: 0 <= i < n ==> cmd[i] != NUL && cmd[i] != DOLLAR
    ensures NextArgument(cmd, 0) == NextArgument(cmd, n)
  {
    StrChrSkips(cmd, 0, n, DOLLAR);
  }

  lemma WalkStart(argv: Argv)
    ensures NextArgument(Wire(argv), 0) == NextArgument(Wire(argv), |Sofar(argv, 0)|)
  {
    var n, cmd := |Sofar(argv, 0)|, Wire(argv);
    CountIsSkipped(argv);
    SofarGrows(argv, 0);
    if argv != [] {
      WireSplits(argv, 1);
      AfterPrefix(cmd, Sofar(argv, 0), Encode(Bulk(argv[0])));
      assert cmd[n] == cmd[n..][0] == DOLLAR;
    }
    SkipsAhead(cmd, n);
  }

  /** All arguments from offset p on. */
  function Arguments(cmd: bytes, p: nat): Argv
    decreases |cmd| + 2 - p
  {
    var next := NextArgument(cmd, p);
    if next.None? then [] else [next.value.text] + Arguments(cmd, next.value.next)
  }

  /** A chain of offsets, each leading to the next, spells out the arguments. */
  lemma {:induction false} Chain(cmd: bytes, offsets: seq<nat>, argv: Argv)
    requires |offsets| == |argv| + 1 && NextArgument(cmd, offsets[|argv|]) == None
    requires forall j :: 0 <= j < |argv| ==> NextArgument(cmd, offsets[j]) == Some(Argument(argv[j], offsets[j + 1]))
    ensures Arguments(cmd, offsets[0]) == argv
    decreases |argv|
  {
    if argv == [] {
    } else {
      Chain(cmd, offsets[1..], argv[1..]);
      assert argv == [argv[0]] + argv[1..];
    }
  }

  /** Walking over a formatted command yields its arguments, whatever bytes they hold, and then stops. */
  lemma ArgumentsOfWire(argv: Argv)
    ensures Arguments(Wire(argv), 0) == argv
  {
    var offsets: seq<nat> := seq(|argv| + 1, j requires 0 <= j <= |argv| => |Sofar(argv, j)|);
    var cmd := Wire(argv);
    forall j | 0 <= j < |argv|
      ensures NextArgument(cmd, offsets[j]) == Some(Argument(argv[j], offsets[j + 1]))
    {
      NextIs(argv, j);
    }
    NextIs(argv, |argv|);
    Chain(cmd, offsets, argv);
    WalkStart(argv);
    assert offsets[0] == |Sofar(argv, 0)|;
  }

  /** The loop over a command's arguments, as the subscription code runs it. */
  method ListArguments(cmd: bytes) returns (args: Argv)
    ensures args == Arguments(cmd, 0)
  {
    args := [];
    var p := 0;
    var next := NextArgument(cmd, p);
    while next.Some?
      invariant next == NextArgument(cmd, p)
      invariant Arguments(cmd, 0) == args + Arguments(cmd, p)
      decreases |cmd| + 2 - p
    {
      Assoc(args, [next.value.text], Arguments(cmd, next.value.next));
      args := args + [next.value.text];
      p := next.value.next;
      next := NextArgument(cmd, p);
    }
  }

  /** Every integer the string library prints is read back by the reader; the smallest one is out of its domain. */
  method IntegerRoundTrip(v: int) returns (r: int)
    requires -SdsBuffer.LLONG_MAX <= v <= SdsBuffer.LLONG_MAX
    ensures r == v
  {
    var text := new byte[SdsBuffer.LLSTR_SIZE];
    var n := SdsBuffer.Ll2Str(text, v);
    var line := text[..n] + CRLF;
    assert line[..n] == Print(v);
    IntegerOfPrint(v);
    r := Reader.ReadLongLong(line, n);
  }
}
