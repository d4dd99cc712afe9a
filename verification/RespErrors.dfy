/**
 Which streams are refused, and where. A route names an item inside an item, by its index in each array on the way;
 the parser fails exactly where a route leads to a byte that is no type code, or to an array inside eight others.
 */
module RespErrors {
  import opened Bytes
  import opened Decimal
  import opened Resp

  datatype Head = Head(count: nat, body: bytes)

  /** The count and the rest of a stream that starts with the header of an array with elements. */
  function Opening(s: bytes): Option<Head> {
    if s == [] || s[0] != 42 then None
    else
      var k := FindCrlf(s[1..]);
      if k < 0 || LineInteger(s[1..][..k]) <= 0 then None
      else Some(Head(LineInteger(s[1..][..k]), s[1..][k + 2..]))
  }

  type Route = seq<nat>

  /** The stream from the item at the end of a route on, when everything before that item is complete. */
  function Along(s: bytes, d: nat, route: Route): Option<bytes>
    decreases |route|
  {
    if route == [] then Some(s)
    else if d >= 8 || Opening(s).None? || route[0] >= Opening(s).value.count then None
    else
      var rest := Skip(route[0], Opening(s).value.body, d + 1);
      if rest.None? then None else Along(rest.value, d + 1, route[1..])
  }

  /** The stream behind its first i items, when these are complete. */
  function Skip(i: nat, s: bytes, d: nat): Option<bytes> {
    if i == 0 then Some(s) else if !Parse(s, d).Done? then None else Skip(i - 1, Parse(s, d).rest, d)
  }

  /** What is wrong with a type byte at depth e, if anything. */
  function Fault(b: byte, e: nat): Option<ParseError> {
    if b !in {36, 42, 43, 45, 58} then Some(BadType(b))
    else if b == 42 && e == 8 then Some(TooDeep)
    else None
  }

  /** The route leads to an item whose type byte is at fault. */
  ghost predicate FaultAt(s: bytes, d: nat, route: Route, error: ParseError) {
    match Along(s, d, route)
    case None => false
    case Some(item) => item != [] && Fault(item[0], d + |route|) == Some(error)
  }

  lemma OnlyOpeningFails(s: bytes, d: nat)
    requires Parse(s, d).Bad? && s[0] == 42 && d < 8
    ensures Opening(s).Some?
  {
    var k := FindCrlf(s[1..]);
    assert Wrap([], ParseMany(0, s[1..][k + 2..], d + 1)).Done?;
  }

  /** How many of n items in a row are complete. */
  function Complete(n: nat, s: bytes, d: nat): (i: nat)
    ensures i <= n
  {
    if n == 0 || !Parse(s, d).Done? then 0 else 1 + Complete(n - 1, Parse(s, d).rest, d)
  }

  /** Items in a row fail at the first one that is not complete. */
  lemma {:induction false} FailsAtFirst(n: nat, s: bytes, d: nat)
    requires ParseMany(n, s, d).Bad?
    ensures
      var i := Complete(n, s, d);
      && i < n && Skip(i, s, d).Some?
      && Parse(Skip(i, s, d).value, d) == Bad(ParseMany(n, s, d).error)
    decreases n
  {
    if Parse(s, d).Bad? {
    } else {
      FailsAtFirst(n - 1, Parse(s, d).rest, d);
    }
  }

  lemma {:induction false} FailsWithItem(n: nat, i: nat, s: bytes, d: nat, rest: bytes, error: ParseError)
    requires i < n && Skip(i, s, d) == Some(rest) && Parse(rest, d) == Bad(error)
    ensures ParseMany(n, s, d) == Bad(error)
    decreases i
  {
    if i == 0 {
    } else {
      FailsWithItem(n - 1, i - 1, Parse(s, d).rest, d, rest, error);
    }
  }

  lemma {:induction false} SkipsMany(i: nat, s: bytes, d: nat)
    requires ParseMany(i, s, d).Done?
    ensures Skip(i, s, d) == Some(ParseMany(i, s, d).rest)
    decreases i
  {
    if i == 0 {
    } else {
      SkipsMany(i - 1, Parse(s, d).rest, d);
    }
  }

  /** A refused item has a fault. */
  lemma {:induction false} BadHasFault(s: bytes, d: nat) returns (route: Route)
    requires Parse(s, d).Bad? && d <= 8
    ensures FaultAt(s, d, route, Parse(s, d).error)
    decreases 8 - d
  {
    if s[0] == 42 && d < 8 {
      var i, rest := BadInside(s, d);
      var later := BadHasFault(rest, d + 1);
      FaultFromInside(s, d, i, rest, later, Parse(s, d).error);
      route := [i] + later;
    } else {
      route := [];
    }
  }

  /** Element i of the array that starts s is what rest starts with. */
  ghost predicate Leads(s: bytes, d: nat, i: nat, rest: bytes) {
    d < 8 && Opening(s).Some? && i < Opening(s).value.count && Skip(i, Opening(s).value.body, d + 1) == Some(rest)
  }

  lemma BadInside(s: bytes, d: nat) returns (i: nat, rest: bytes)
    requires Parse(s, d).Bad? && s[0] == 42 && d < 8
    ensures Leads(s, d, i, rest) && Parse(rest, d + 1) == Bad(Parse(s, d).error)
  {
    OnlyOpeningFails(s, d);
    var h := Opening(s).value;
    FailsAtFirst(h.count, h.body, d + 1);
    i := Complete(h.count, h.body, d + 1);
    rest := Skip(i, h.body, d + 1).value;
  }

  lemma AlongInside(s: bytes, d: nat, i: nat, rest: bytes, later: Route)
    requires Leads(s, d, i, rest)
    ensures Along(s, d, [i] + later) == Along(rest, d + 1, later)
  {
    assert ([i] + later)[1..] == later;
  }

  lemma FaultFromInside(s: bytes, d: nat, i: nat, rest: bytes, later: Route, error: ParseError)
    requires Leads(s, d, i, rest) && FaultAt(rest, d + 1, later, error)
    ensures FaultAt(s, d, [i] + later, error)
  {
    AlongInside(s, d, i, rest, later);
  }

  /** A fault is refused. */
  lemma {:induction false} FaultIsBad(s: bytes, d: nat, route: Route, error: ParseError)
    requires FaultAt(s, d, route, error) && d <= 8
    ensures Parse(s, d) == Bad(error)
    decreases |route|
  {
    if route == [] {
      FaultHere(s, d, error);
    } else {
      var rest := FaultFurther(s, d, route, error);
      FaultIsBad(rest, d + 1, route[1..], error);
      FailsInside(s, d, route[0], rest);
    }
  }

  lemma FaultHere(s: bytes, d: nat, error: ParseError)
    requires s != [] && Fault(s[0], d) == Some(error) && d <= 8
    ensures Parse(s, d) == Bad(error)
  {
  }

  lemma FaultFurther(s: bytes, d: nat, route: Route, error: ParseError) returns (rest: bytes)
    requires FaultAt(s, d, route, error) && route != []
    ensures Leads(s, d, route[0], rest) && FaultAt(rest, d + 1, route[1..], error)
  {
    rest := Skip(route[0], Opening(s).value.body, d + 1).value;
  }

  lemma FailsInside(s: bytes, d: nat, i: nat, rest: bytes)
    requires Leads(s, d, i, rest) && Parse(rest, d + 1).Bad?
    ensures Parse(s, d) == Bad(Parse(rest, d + 1).error)
  {
    var h := Opening(s).value;
    FailsWithItem(h.count, i, h.body, d + 1, rest, Parse(rest, d + 1).error);
  }

  /**
   An item is refused exactly when a route leads to a type byte other than 36, 42, 43, 45 and 58, and then for that
   byte, or to an array type byte with eight arrays open around it, and then for the nesting.
   */
  lemma BadExactly(s: bytes, d: nat, error: ParseError)
    requires d <= 8
    ensures Parse(s, d) == Bad(error) <==> exists route: Route :: FaultAt(s, d, route, error)
  {
    if Parse(s, d) == Bad(error) {
      var route := BadHasFault(s, d);
    }
    if route: Route :| FaultAt(s, d, route, error) {
      FaultIsBad(s, d, route, error);
    }
  }

  // ---- whole streams ----

  /** What is left of a stream behind its replies. */
  lemma {:induction false} DecodeStops(s: bytes) returns (rest: bytes)
    ensures Leaves(s, Decode(s).replies, rest) && !Parse(rest, 0).Done?
    ensures Decode(s).failed == if Parse(rest, 0).Bad? then Some(Parse(rest, 0).error) else None
    decreases |s|
  {
    if Parse(s, 0).Done? {
      rest := DecodeStops(Parse(s, 0).rest);
      assert Decode(s).replies[1..] == Decode(Parse(s, 0).rest).replies;
    } else {
      rest := s;
    }
  }

  /** Behind these replies, the stream has a fault. */
  ghost predicate FailsAfter(s: bytes, out: seq<Reply>, error: ParseError) {
    exists rest: bytes, route: Route :: Leaves(s, out, rest) && FaultAt(rest, 0, route, error)
  }

  /** A stream fails exactly where its next item has a fault, with that fault, behind the replies before it. */
  lemma StreamFailsExactly(s: bytes, out: seq<Reply>, error: ParseError)
    ensures Decode(s) == Stream(out, Some(error)) <==> FailsAfter(s, out, error)
  {
    if Decode(s) == Stream(out, Some(error)) {
      var rest := DecodeStops(s);
      BadExactly(rest, 0, error);
    }
    if FailsAfter(s, out, error) {
      var rest: bytes, route: Route :| Leaves(s, out, rest) && FaultAt(rest, 0, route, error);
      FaultIsBad(rest, 0, route, error);
      LeavesDecodes(s, out, rest);
      assert out + [] == out;
    }
  }

  lemma {:induction false} PrintedLeaves(rs: seq<Reply>, t: bytes)
    requires AllPrintable(rs) && Shallow(rs) == |rs|
    ensures Leaves(EncodeAll(rs) + t, rs, t)
  {
    if rs == [] {
      assert [] + t == t;
    } else {
      var u := EncodeAll(rs[1..]) + t;
      assert EncodeAll(rs) + t == Encode(rs[0]) + u;
      RoundTrip(rs[0], u, 0);
      PrintedLeaves(rs[1..], t);
    }
  }

  /** Arrays opened one inside the other, each with its first elements complete: what precedes the next element. */
  datatype Open = Open(count: nat, done: seq<Reply>)

  function OpenText(open: seq<Open>): bytes {
    if open == [] then [] else [42] + Print(open[0].count) + [13, 10] + EncodeAll(open[0].done) + OpenText(open[1..])
  }

  predicate Unfinished(open: seq<Open>, d: nat) {
    open == []
    || (|open[0].done| < open[0].count && AllPrintable(open[0].done) && !AnyTooNested(open[0].done, d + 1)
        && Unfinished(open[1..], d + 1))
  }

  function RouteInto(open: seq<Open>): Route {
    if open == [] then [] else [|open[0].done|] + RouteInto(open[1..])
  }

  /** Behind such a prefix comes an element of the innermost array. */
  lemma {:induction false} OpenLeads(open: seq<Open>, t: bytes, d: nat)
    requires Unfinished(open, d) && d + |open| <= 8
    ensures Along(OpenText(open) + t, d, RouteInto(open)) == Some(t) && |RouteInto(open)| == |open|
    decreases |open|
  {
    if open == [] {
      assert [] + t == t;
    } else {
      var o, more := open[0], OpenText(open[1..]) + t;
      OpenSplits(open, t);
      OpeningOf(o.count, EncodeAll(o.done) + more);
      RoundTripAll(o.done, more, d + 1);
      SkipsMany(|o.done|, EncodeAll(o.done) + more, d + 1);
      OpenLeads(open[1..], t, d + 1);
      AlongInside(OpenText(open) + t, d, |o.done|, more, RouteInto(open[1..]));
    }
  }

  lemma OpenSplits(open: seq<Open>, t: bytes)
    requires open != []
    ensures OpenText(open) + t ==
            [42] + Print(open[0].count) + CRLF + (EncodeAll(open[0].done) + (OpenText(open[1..]) + t))
  {
  }

  lemma OpeningOf(n: nat, body: bytes)
    requires n > 0
    ensures Opening([42] + Print(n) + CRLF + body) == Some(Head(n, body))
  {
    var s := [42] + Print(n) + CRLF + body;
    assert s[1..] == Print(n) + CRLF + body;
    HeaderReads(n, body);
  }

  /**
   After any replies and inside any open arrays, a byte that is no type code ends the stream with its error, whatever
   follows; and so does, at once, an array type byte with eight arrays open.
   */
  lemma NestedFault(rs: seq<Reply>, open: seq<Open>, b: byte, t: bytes)
    requires AllPrintable(rs) && Shallow(rs) == |rs| && Unfinished(open, 0) && |open| <= 8
    ensures b !in {36, 42, 43, 45, 58} ==>
              Decode(EncodeAll(rs) + (OpenText(open) + ([b] + t))) == Stream(rs, Some(BadType(b)))
    ensures |open| == 8 && b == 42 ==>
              Decode(EncodeAll(rs) + (OpenText(open) + ([b] + t))) == Stream(rs, Some(TooDeep))
  {
    var fault, rest := Fault(b, |open|), OpenText(open) + ([b] + t);
    if fault.Some? {
      OpenLeads(open, [b] + t, 0);
      PrintedLeaves(rs, rest);
      assert FaultAt(rest, 0, RouteInto(open), fault.value);
      StreamFailsExactly(EncodeAll(rs) + rest, rs, fault.value);
    }
  }

  // ---- what the five codes mean ----

  /** Status, error and integer lines. */
  lemma LineCodes(text: bytes, t: bytes, d: nat)
    requires OneLine(text)
    ensures Parse([43] + text + [13, 10] + t, d) == Done(Status(text), t)
    ensures Parse([45] + text + [13, 10] + t, d) == Done(Failure(text), t)
    ensures Parse([58] + text + [13, 10] + t, d) == Done(Number(LineInteger(text)), t)
  {
    LineCode(43, text, t, d);
    LineCode(45, text, t, d);
    LineCode(58, text, t, d);
  }

  lemma LineCode(ty: byte, text: bytes, t: bytes, d: nat)
    requires OneLine(text) && ty in {43, 45, 58}
    ensures Parse([ty] + text + [13, 10] + t, d) == Done(LineReply(ty, text), t)
  {
    var s := [ty] + text + [13, 10] + t;
    assert s[1..] == text + CRLF + t;
    CrlfAfterLine(text, t);
    assert s[1..][..|text|] == text && s[1..][|text| + 2..] == t;
  }

  /** A string of the announced length and any two bytes behind it; a negative length is a nil. */
  lemma BulkCode(text: bytes, data: bytes, x: byte, y: byte, t: bytes, d: nat)
    requires OneLine(text)
    ensures LineInteger(text) == |data| ==>
              Parse([36] + text + [13, 10] + (data + [x, y] + t), d) == Done(Bulk(data), t)
    ensures LineInteger(text) < 0 ==> Parse([36] + text + [13, 10] + t, d) == Done(Nil, t)
  {
    var u := data + [x, y] + t;
    BulkHeader(text, u, d);
    BulkHeader(text, t, d);
    assert u[..|data|] == data && u[|data| + 2..] == t;
  }

  lemma BulkHeader(text: bytes, u: bytes, d: nat)
    requires OneLine(text)
    ensures
      var n := LineInteger(text);
      Parse([36] + text + [13, 10] + u, d) ==
      if n < 0 then Done(Nil, u) else if |u| < n + 2 then More else Done(Bulk(u[..n]), u[n + 2..])
  {
    var s := [36] + text + [13, 10] + u;
    assert s[1..] == text + CRLF + u;
    CrlfAfterLine(text, u);
    assert s[1..][..|text|] == text && s[1..][|text| + 2..] == u;
  }

  /** An array of the announced count; -1 is a nil, and anything smaller an array without storage. */
  lemma ArrayCode(text: bytes, t: bytes, d: nat)
    requires OneLine(text) && d < 8
    ensures LineInteger(text) == -1 ==> Parse([42] + text + [13, 10] + t, d) == Done(Nil, t)
    ensures LineInteger(text) < -1 ==> Parse([42] + text + [13, 10] + t, d) == Done(Hollow(LineInteger(text)), t)
    ensures LineInteger(text) >= 0 ==>
              Parse([42] + text + [13, 10] + t, d) == Wrap([], ParseMany(LineInteger(text), t, d + 1))
  {
    var s := [42] + text + [13, 10] + t;
    assert s[1..] == text + CRLF + t;
    CrlfAfterLine(text, t);
    assert s[1..][..|text|] == text && s[1..][|text| + 2..] == t;
  }

  /** How replies and commands are printed. */
  lemma PrintedForms(text: bytes, v: int, rs: seq<Reply>)
    ensures Encode(Status(text)) == [43] + text + [13, 10]
    ensures Encode(Failure(text)) == [45] + text + [13, 10]
    ensures Encode(Number(v)) == [58] + Print(v) + [13, 10]
    ensures Encode(Bulk(text)) == [36] + Print(|text|) + [13, 10] + text + [13, 10]
    ensures Encode(Array(rs)) == [42] + Print(|rs|) + [13, 10] + EncodeAll(rs)
    ensures v < 0 ==> Print(v) == [45] + Digits(-v)
    ensures v >= 0 ==> Print(v) == Digits(v)
  {
  }
}
