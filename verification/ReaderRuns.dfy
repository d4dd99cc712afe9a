/** Whole runs of the reader: any chunks, with requests for replies anywhere between them. */
module ReaderRuns {
  import opened Bytes
  import opened Resp
  import opened Arena
  import R = Reader

  datatype Event = Feed(chunk: bytes) | Poll

  function Input(events: seq<Event>): bytes {
    if events == [] then []
    else Input(events[..|events| - 1]) + (var e := events[|events| - 1]; if e.Feed? then e.chunk else [])
  }

  /** The input is what is fed, in order, whatever is asked in between. */
  lemma {:induction false} InputConcat(a: seq<Event>, b: seq<Event>)
    ensures Input(a + b) == Input(a) + Input(b)
    decreases |b|
  {
    if b == [] {
      assert a + b == a;
    } else {
      var front, e := b[..|b| - 1], b[|b| - 1];
      assert (a + b)[..|a + b| - 1] == a + front;
      InputConcat(a, front);
      Assoc(Input(a), Input(front), if e.Feed? then e.chunk else []);
    }
  }

  lemma InputOne(e: Event)
    ensures Input([e]) == if e.Feed? then e.chunk else []
  {
    assert [e][..0] == [];
  }

  /** Asks for replies until there is none. */
  method Drain(r: R.Reader, sofar: seq<Reply>) returns (replies: seq<Reply>)
    requires r.Valid() && r.out == sofar
    modifies r, r.rstack
    ensures r.Valid() && r.fed == old(r.fed) && replies == r.out
    ensures old(r.err.Some?) ==> r.err == old(r.err)
    ensures r.err.None? ==> Parse(r.root, 0) == More
  {
    replies := sofar;
    while true
      invariant r.Valid() && r.fed == old(r.fed) && replies == r.out
      invariant old(r.err.Some?) ==> r.err == old(r.err)
      decreases |r.root|
    {
      var ok, p := r.GetReply();
      if !ok || p == NULL {
        return;
      }
      replies := replies + [Value(r.heap, p, |r.heap|)];
    }
  }

  /**
   However a stream is cut into chunks, and however often replies are asked for in between, the
   reader hands out what the recursive-descent parser finds in the whole stream, and ends in the
   same error or wait.
   */
  method Drive(events: seq<Event>) returns (s: Stream)
    ensures s == Decode(Input(events))
  {
    var r := new R.Reader();
    var replies: seq<Reply> := [];
    ghost var refused: bytes := [];
    for i := 0 to |events|
      invariant r.Valid() && fresh(r) && fresh(r.rstack) && replies == r.out
      invariant Input(events[..i]) == r.fed + refused
      invariant r.err.None? ==> refused == []
    {
      assert events[..i + 1][..i] == events[..i];
      match events[i] {
        case Feed(chunk) =>
          var ok := r.Feed(chunk);
          if !ok {
            refused := refused + chunk;
          }
        case Poll =>
          var ok, p := r.GetReply();
          if p != NULL {
            replies := replies + [Value(r.heap, p, |r.heap|)];
          }
      }
    }
    assert events[..|events|] == events;
    var all := Drain(r, replies);
    r.Agrees(refused);
    s := Stream(all, r.err);
    assert r.err.None? ==> r.fed + refused == r.fed;
  }

  /** Replies printed by a server arrive intact, up to the first that nests too deeply for the reader. */
  method ReadBack(sent: seq<Reply>, events: seq<Event>) returns (s: Stream)
    requires AllPrintable(sent)
    requires Input(events) == EncodeAll(sent)
    ensures s == if Shallow(sent) == |sent| then Stream(sent, None) else Stream(sent[..Shallow(sent)], Some(TooDeep))
  {
    s := Drive(events);
    DecodeEncoded(sent);
  }
}
