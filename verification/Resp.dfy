/**
 The reply protocol as a recursive-descent parser and as a printer. The parser fixes what a byte
 stream means; the incremental reader is proved against it elsewhere.
 */
module Resp {
  import opened Bytes
  import opened Decimal

  const MAX_DEPTH: nat := 8

  datatype Reply =
    | Status(text: bytes)
    | Failure(text: bytes)
    | Number(value: int)
    | Bulk(data: bytes)
    | Nil
    | Array(elements: seq<Reply>)
    | Hollow(count: int)  // an array header with a count below -1: an array object without storage

  datatype ParseError = BadType(b: byte) | TooDeep

  datatype Outcome<T> = Done(value: T, rest: bytes) | More | Bad(error: ParseError)

  /** Offset of the first CR LF pair, or -1. */
  function FindCrlf(s: bytes): (k: int)
    ensures -1 <= k
    ensures 0 <= k ==> k + 2 <= |s| && s[k] == CR && s[k + 1] == LF
  {
    if |s| < 2 then -1
    else if s[0] == CR && s[1] == LF then 0
    else var k := FindCrlf(s[1..]); if k < 0 then -1 else k + 1
  }

  function LineReply(ty: byte, line: bytes): Reply {
    if ty == PLUS then Status(line) else if ty == MINUS then Failure(line) else Number(LineInteger(line))
  }

  function Wrap(done: seq<Reply>, more: Outcome<seq<Reply>>): Outcome<Reply> {
    match more
    case Done(rs, rest) => Done(Array(done + rs), rest)
    case More => More
    case Bad(e) => Bad(e)
  }

  function Parse(s: bytes, depth: nat): (o: Outcome<Reply>)
    ensures o.Done? ==> |o.rest| < |s|
    decreases |s|, 0
  {
    if s == [] then More else ParseBody(s[0], s[1..], depth)
  }

  /** The item whose type byte has been read already; s is what follows it. */
  function ParseBody(ty: byte, s: bytes, depth: nat): (o: Outcome<Reply>)
    ensures o.Done? ==> |o.rest| < |s|
    decreases |s|, 0
  {
    var k := FindCrlf(s);
    if ty == PLUS || ty == MINUS || ty == COLON then
      if k < 0 then More else Done(LineReply(ty, s[..k]), s[k + 2..])
    else if ty == DOLLAR then
      if k < 0 then More
      else
        var n := LineInteger(s[..k]);
        var body := s[k + 2..];
        if n < 0 then Done(Nil, body)
        else if |body| < n + 2 then More
        else Done(Bulk(body[..n]), body[n + 2..])
    else if ty == STAR then
      if depth >= MAX_DEPTH then Bad(TooDeep)
      else if k < 0 then More
      else
        var n := LineInteger(s[..k]);
        if n == -1 then Done(Nil, s[k + 2..])
        else if n < 0 then Done(Hollow(n), s[k + 2..])
        else Wrap([], ParseMany(n, s[k + 2..], depth + 1))
    else Bad(BadType(ty))
  }

  function ParseMany(n: nat, s: bytes, depth: nat): (o: Outcome<seq<Reply>>)
    ensures o.Done? ==> |o.rest| <= |s| && |o.value| == n
    decreases |s|, 1
  {
    if n == 0 then Done([], s)
    else
      match Parse(s, depth)
      case Done(r, rest) => (
        match ParseMany(n - 1, rest, depth)
        case Done(rs, rest') => Done([r] + rs, rest')
        case More => More
        case Bad(e) => Bad(e))
      case More => More
      case Bad(e) => Bad(e)
  }

  // ---- more input never changes what is already decided ----

  function Later<T>(o: Outcome<T>, t: bytes): Outcome<T> {
    if o.Done? then Done(o.value, o.rest + t) else o
  }

  lemma {:induction false} CrlfStays(s: bytes, t: bytes)
    requires FindCrlf(s) >= 0
    ensures FindCrlf(s + t) == FindCrlf(s)
  {
    if s[0] == CR && s[1] == LF {
    } else {
      assert (s + t)[1..] == s[1..] + t;
      CrlfStays(s[1..], t);
    }
  }

  lemma {:induction false} ParseStays(s: bytes, t: bytes, depth: nat)
    requires !Parse(s, depth).More?
    ensures Parse(s + t, depth) == Later(Parse(s, depth), t)
    decreases |s|, 0
  {
    assert (s + t)[1..] == s[1..] + t;
    BodyStays(s[0], s[1..], t, depth);
  }

  lemma LineStays(s: bytes, t: bytes)
    requires FindCrlf(s) >= 0
    ensures
      var k := FindCrlf(s);
      FindCrlf(s + t) == k && (s + t)[..k] == s[..k] && (s + t)[k + 2..] == s[k + 2..] + t
  {
    CrlfStays(s, t);
    LongerSlices(s, t, FindCrlf(s));
    LongerSlices(s, t, FindCrlf(s) + 2);
  }

  lemma BulkStays(s: bytes, t: bytes, depth: nat)
    requires ParseBody(DOLLAR, s, depth).Done?
    ensures ParseBody(DOLLAR, s + t, depth) == Later(ParseBody(DOLLAR, s, depth), t)
  {
    LineStays(s, t);
    var k := FindCrlf(s);
    var n, body := LineInteger(s[..k]), s[k + 2..];
    if n >= 0 {
      LongerSlices(body, t, n);
      LongerSlices(body, t, n + 2);
    }
  }

  lemma {:induction false} MultiStays(s: bytes, t: bytes, depth: nat)
    requires !ParseBody(STAR, s, depth).More?
    ensures ParseBody(STAR, s + t, depth) == Later(ParseBody(STAR, s, depth), t)
    decreases |s|, 0
  {
    var k := FindCrlf(s);
    if depth < MAX_DEPTH && k >= 0 {
      LineStays(s, t);
      var n := LineInteger(s[..k]);
      if n >= 0 {
        ManyStays(n, s[k + 2..], t, depth + 1);
      }
    }
  }

  lemma {:induction false} BodyStays(ty: byte, s: bytes, t: bytes, depth: nat)
    requires !ParseBody(ty, s, depth).More?
    ensures ParseBody(ty, s + t, depth) == Later(ParseBody(ty, s, depth), t)
    decreases |s|, 1
  {
    if ty == DOLLAR {
      BulkStays(s, t, depth);
    } else if ty == STAR {
      MultiStays(s, t, depth);
    } else if FindCrlf(s) >= 0 {
      LineStays(s, t);
    }
  }

  lemma {:induction false} ManyStays(n: nat, s: bytes, t: bytes, depth: nat)
    requires !ParseMany(n, s, depth).More?
    ensures ParseMany(n, s + t, depth) == Later(ParseMany(n, s, depth), t)
    decreases |s|, 1
  {
    if n == 0 {
    } else {
      ParseStays(s, t, depth);
      if Parse(s, depth).Done? {
        ManyStays(n - 1, Parse(s, depth).rest, t, depth);
      }
    }
  }

  // ---- a whole stream ----

  datatype Option<T> = None | Some(value: T)

  datatype Stream = Stream(replies: seq<Reply>, failed: Option<ParseError>)

  /** All replies of a stream, and the error it runs into, if any. */
  function Decode(s: bytes): Stream
    decreases |s|
  {
    match Parse(s, 0)
    case Done(r, rest) => var more := Decode(rest); Stream([r] + more.replies, more.failed)
    case More => Stream([], None)
    case Bad(e) => Stream([], Some(e))
  }

  /** Reading `out` off the front of `s` leaves `rest`. */
  ghost predicate Leaves(s: bytes, out: seq<Reply>, rest: bytes)
    decreases |out|
  {
    if out == [] then s == rest
    else Parse(s, 0).Done? && Parse(s, 0).value == out[0] && Leaves(Parse(s, 0).rest, out[1..], rest)
  }

  lemma {:induction false} LeavesLater(s: bytes, out: seq<Reply>, rest: bytes, t: bytes)
    requires Leaves(s, out, rest)
    ensures Leaves(s + t, out, rest + t)
    decreases |out|
  {
    if out == [] {
    } else {
      ParseStays(s, t, 0);
      LeavesLater(Parse(s, 0).rest, out[1..], rest, t);
    }
  }

  lemma {:induction false} LeavesOneMore(s: bytes, out: seq<Reply>, mid: bytes)
    requires Leaves(s, out, mid) && Parse(mid, 0).Done?
    ensures Leaves(s, out + [Parse(mid, 0).value], Parse(mid, 0).rest)
    decreases |out|
  {
    var out' := out + [Parse(mid, 0).value];
    if out == [] {
      assert out'[1..] == [];
    } else {
      assert out'[1..] == out[1..] + [Parse(mid, 0).value];
      LeavesOneMore(Parse(s, 0).rest, out[1..], mid);
    }
  }

  lemma {:induction false} LeavesDecodes(s: bytes, out: seq<Reply>, rest: bytes)
    requires Leaves(s, out, rest)
    ensures Decode(s) == Stream(out + Decode(rest).replies, Decode(rest).failed)
    decreases |out|
  {
    if out == [] {
      assert out + Decode(rest).replies == Decode(rest).replies;
    } else {
      LeavesDecodes(Parse(s, 0).rest, out[1..], rest);
      assert out + Decode(rest).replies == [out[0]] + (out[1..] + Decode(rest).replies);
    }
  }

  /** More input only adds replies, and none behind an error. */
  lemma {:induction false} DecodePrefix(s: bytes, t: bytes)
    ensures Decode(s).replies <= Decode(s + t).replies
    ensures Decode(s).failed.Some? ==> Decode(s + t) == Decode(s)
    decreases |s|
  {
    if Parse(s, 0).More? {
    } else {
      ParseStays(s, t, 0);
      if Parse(s, 0).Done? {
        DecodePrefix(Parse(s, 0).rest, t);
      }
    }
  }

  // ---- printing ----

  function Header(ty: byte, n: int): bytes {
    [ty] + Print(n) + CRLF
  }

  function Encode(r: Reply): bytes {
    match r
    case Status(text) => [PLUS] + text + CRLF
    case Failure(text) => [MINUS] + text + CRLF
    case Number(v) => Header(COLON, v)
    case Bulk(data) => Header(DOLLAR, |data|) + data + CRLF
    case Nil => Header(DOLLAR, -1)
    case Array(rs) => Header(STAR, |rs|) + EncodeAll(rs)
    case Hollow(n) => Header(STAR, n)
  }

  function EncodeAll(rs: seq<Reply>): bytes {
    if rs == [] then [] else Encode(rs[0]) + EncodeAll(rs[1..])
  }

  predicate OneLine(text: bytes) {
    forall i :: 0 <= i < |text| - 1 ==> !(text[i] == CR && text[i + 1] == LF)
  }

  /** Trees the wire format can carry at all, whatever their depth. */
  predicate Printable(r: Reply) {
    match r
    case Status(text) => OneLine(text)
    case Failure(text) => OneLine(text)
    case Array(rs) => AllPrintable(rs)
    case Hollow(n) => n < -1
    case _ => true
  }

  predicate AllPrintable(rs: seq<Reply>) {
    rs == [] || (Printable(rs[0]) && AllPrintable(rs[1..]))
  }

  /** Some array of the tree sits at depth 8 or deeper, the root being at `depth`. */
  predicate TooNested(r: Reply, depth: nat) {
    match r
    case Array(rs) => depth >= MAX_DEPTH || AnyTooNested(rs, depth + 1)
    case Hollow(_) => depth >= MAX_DEPTH
    case _ => false
  }

  predicate AnyTooNested(rs: seq<Reply>, depth: nat) {
    rs != [] && (TooNested(rs[0], depth) || AnyTooNested(rs[1..], depth))
  }

  lemma {:induction false} CrlfAfterLine(text: bytes, t: bytes)
    requires OneLine(text)
    ensures FindCrlf(text + CRLF + t) == |text|
  {
    var s := text + CRLF + t;
    if text != [] {
      assert s[1..] == text[1..] + CRLF + t;
      assert OneLine(text[1..]) by {
        forall i | 0 <= i < |text[1..]| - 1
          ensures !(text[1..][i] == CR && text[1..][i + 1] == LF)
        {
          assert text[1..][i] == text[i + 1] && text[1..][i + 1] == text[i + 2];
        }
      }
      CrlfAfterLine(text[1..], t);
      assert !(s[0] == CR && s[1] == LF) by {
        if |text| == 1 { assert s[1] == CR; } else { assert s[1] == text[1]; }
      }
    }
  }

  lemma HeaderReads(n: int, t: bytes)
    ensures
      var s := Print(n) + CRLF + t;
      FindCrlf(s) == |Print(n)| && LineInteger(s[..|Print(n)|]) == n && s[|Print(n)| + 2..] == t
  {
    PrintHasNoCr(n);
    assert OneLine(Print(n)) by {
      forall i | 0 <= i < |Print(n)| - 1
        ensures !(Print(n)[i] == CR && Print(n)[i + 1] == LF)
      {
        assert Print(n)[i] in Print(n);
      }
    }
    CrlfAfterLine(Print(n), t);
    assert (Print(n) + CRLF + t)[..|Print(n)|] == Print(n);
    IntegerOfPrint(n);
  }

  lemma ParseHeader(ty: byte, n: int, t: bytes, depth: nat)
    ensures
      var s := Header(ty, n) + t;
      s != [] && s[0] == ty && s[1..] == Print(n) + CRLF + t && Parse(s, depth) == ParseBody(ty, s[1..], depth)
  {
    assert (Header(ty, n) + t)[1..] == Print(n) + CRLF + t;
  }

  lemma ParseLine(ty: byte, text: bytes, t: bytes, depth: nat)
    requires OneLine(text) && (ty == PLUS || ty == MINUS)
    ensures Parse([ty] + text + CRLF + t, depth) == Done(LineReply(ty, text), t)
  {
    var s := [ty] + text + CRLF + t;
    assert s[1..] == text + CRLF + t;
    CrlfAfterLine(text, t);
    assert s[1..][..|text|] == text && s[1..][|text| + 2..] == t;
  }

  lemma BulkBody(data: bytes, t: bytes, depth: nat)
    ensures ParseBody(DOLLAR, Print(|data|) + CRLF + (data + CRLF + t), depth) == Done(Bulk(data), t)
  {
    var u := data + CRLF + t;
    HeaderReads(|data|, u);
    assert u[..|data|] == data && u[|data| + 2..] == t;
  }

  lemma BulkPrints(data: bytes, t: bytes)
    ensures Encode(Bulk(data)) + t == Header(DOLLAR, |data|) + (data + CRLF + t)
  {
  }

  lemma ParseBulk(data: bytes, t: bytes, depth: nat)
    ensures Parse(Encode(Bulk(data)) + t, depth) == Done(Bulk(data), t)
  {
    BulkPrints(data, t);
    ParseHeader(DOLLAR, |data|, data + CRLF + t, depth);
    BulkBody(data, t, depth);
  }

  /** A header that carries its whole item: an integer, a nil, or an array without storage. */
  lemma ParseHeaderOnly(ty: byte, n: int, t: bytes, depth: nat)
    requires ty == COLON || (ty == DOLLAR && n < 0) || (ty == STAR && n < -1)
    ensures Parse(Header(ty, n) + t, depth) ==
            if ty == COLON then Done(Number(n), t)
            else if ty == DOLLAR then Done(Nil, t)
            else if depth >= MAX_DEPTH then Bad(TooDeep) else Done(Hollow(n), t)
  {
    ParseHeader(ty, n, t, depth);
    HeaderReads(n, t);
  }

  lemma ParseArrayHeader(n: nat, u: bytes, depth: nat)
    ensures Parse(Header(STAR, n) + u, depth) ==
            if depth >= MAX_DEPTH then Bad(TooDeep) else Wrap([], ParseMany(n, u, depth + 1))
  {
    ParseHeader(STAR, n, u, depth);
    HeaderReads(n, u);
  }

  lemma RoundTripLeaf(r: Reply, t: bytes, depth: nat)
    requires Printable(r) && !r.Array?
    ensures Parse(Encode(r) + t, depth) == if TooNested(r, depth) then Bad(TooDeep) else Done(r, t)
  {
    match r
    case Status(text) => ParseLine(PLUS, text, t, depth);
    case Failure(text) => ParseLine(MINUS, text, t, depth);
    case Number(v) => ParseHeaderOnly(COLON, v, t, depth);
    case Bulk(data) => ParseBulk(data, t, depth);
    case Nil => ParseHeaderOnly(DOLLAR, -1, t, depth);
    case Hollow(n) => ParseHeaderOnly(STAR, n, t, depth);
  }

  lemma WrapAll(rs: seq<Reply>, t: bytes)
    ensures Wrap([], Done(rs, t)) == Done(Array(rs), t)
  {
    assert [] + rs == rs;
  }

  /** The elements of an array follow its header. */
  lemma ArrayBody(s: bytes, k: nat, n: nat, depth: nat)
    requires FindCrlf(s) == k && LineInteger(s[..k]) == n && depth < MAX_DEPTH
    ensures ParseBody(STAR, s, depth) == Wrap([], ParseMany(n, s[k + 2..], depth + 1))
  {
  }

  lemma ParseArray(rs: seq<Reply>, t: bytes, depth: nat)
    ensures Parse(Encode(Array(rs)) + t, depth) ==
            if depth >= MAX_DEPTH then Bad(TooDeep) else Wrap([], ParseMany(|rs|, EncodeAll(rs) + t, depth + 1))
  {
    assert Encode(Array(rs)) + t == Header(STAR, |rs|) + (EncodeAll(rs) + t);
    ParseArrayHeader(|rs|, EncodeAll(rs) + t, depth);
  }

  /**
   Printing then parsing returns the tree and leaves the bytes behind it alone; this fails exactly
   for trees with an array at depth 8 or deeper, and then with the nesting error.
   */
  lemma {:induction false} RoundTrip(r: Reply, t: bytes, depth: nat)
    requires Printable(r)
    ensures Parse(Encode(r) + t, depth) == if TooNested(r, depth) then Bad(TooDeep) else Done(r, t)
    decreases r
  {
    if !r.Array? {
      RoundTripLeaf(r, t, depth);
    } else {
      RoundTripArray(r.elements, t, depth);
    }
  }

  lemma {:induction false} RoundTripArray(rs: seq<Reply>, t: bytes, depth: nat)
    requires AllPrintable(rs)
    ensures Parse(Encode(Array(rs)) + t, depth) ==
            if depth >= MAX_DEPTH || AnyTooNested(rs, depth + 1) then Bad(TooDeep) else Done(Array(rs), t)
    decreases rs, 1
  {
    ParseArray(rs, t, depth);
    if depth < MAX_DEPTH {
      RoundTripAll(rs, t, depth + 1);
      WrapAll(rs, t);
    }
  }

  lemma {:induction false} RoundTripAll(rs: seq<Reply>, t: bytes, depth: nat)
    requires AllPrintable(rs)
    ensures ParseMany(|rs|, EncodeAll(rs) + t, depth) == if AnyTooNested(rs, depth) then Bad(TooDeep) else Done(rs, t)
    decreases rs, 0
  {
    if rs == [] {
      assert [] + t == t;
    } else {
      var u := EncodeAll(rs[1..]) + t;
      assert EncodeAll(rs) + t == Encode(rs[0]) + u;
      RoundTrip(rs[0], u, depth);
      RoundTripAll(rs[1..], t, depth);
      assert rs == [rs[0]] + rs[1..];
    }
  }

  /** How many replies of a stream come before the first that nests too deeply. */
  function Shallow(rs: seq<Reply>): (k: nat)
    ensures k <= |rs|
  {
    if rs == [] || TooNested(rs[0], 0) then 0 else 1 + Shallow(rs[1..])
  }

  /** A stream of printed replies decodes to exactly them, up to the first that nests too deeply. */
  lemma {:induction false} DecodeEncoded(rs: seq<Reply>)
    requires AllPrintable(rs)
    ensures Decode(EncodeAll(rs)) ==
            if Shallow(rs) == |rs| then Stream(rs, None) else Stream(rs[..Shallow(rs)], Some(TooDeep))
  {
    if rs == [] {
    } else {
      RoundTrip(rs[0], EncodeAll(rs[1..]), 0);
      if !TooNested(rs[0], 0) {
        DecodeEncoded(rs[1..]);
        assert rs == [rs[0]] + rs[1..];
        assert rs[..Shallow(rs)] == [rs[0]] + rs[1..][..Shallow(rs[1..])];
      }
    }
  }
}
