/** Quoted representations of byte strings and the tokenizer that reads them back. */
module Quote {
  import opened Bytes
  import opened Resp
  import opened Split

  const QUOTE: byte := 34
  const APOSTROPHE: byte := 39
  const BACKSLASH: byte := 92
  const LETTER_X: byte := 120

  predicate IsPrint(b: byte) {
    32 <= b <= 126
  }

  predicate IsSpace(b: byte) {
    b == SPACE || 9 <= b <= 13
  }

  predicate IsHexDigit(b: byte) {
    48 <= b <= 57 || 97 <= b <= 102 || 65 <= b <= 70
  }

  function HexValue(b: byte): byte {
    if 48 <= b <= 57 then b - 48 else if 97 <= b <= 102 then b - 87 else if 65 <= b <= 70 then b - 55 else 0
  }

  function HexDigit(n: nat): byte
    requires n < 16
  {
    if n < 10 then 48 + n else 87 + n
  }

  // ---- printing ----

  /** The letter that stands for a control character after a backslash: n r t a b. */
  function EscapeLetter(b: byte): Option<byte> {
    if b == 10 then Some(110) else if b == 13 then Some(114) else if b == 9 then Some(116)
    else if b == 7 then Some(97) else if b == 8 then Some(98) else None
  }

  function Escape(b: byte): bytes {
    if b == BACKSLASH || b == QUOTE then [BACKSLASH, b]
    else if EscapeLetter(b).Some? then [BACKSLASH, EscapeLetter(b).value]
    else if IsPrint(b) then [b]
    else [BACKSLASH, LETTER_X, HexDigit(b / 16), HexDigit(b % 16)]
  }

  function Escapes(s: bytes): bytes {
    if s == [] then [] else Escape(s[0]) + Escapes(s[1..])
  }

  function Repr(s: bytes): bytes {
    [QUOTE] + Escapes(s) + [QUOTE]
  }

  lemma {:induction false} EscapesMore(s: bytes, b: byte)
    ensures Escapes(s + [b]) == Escapes(s) + Escape(b)
  {
    if s == [] {
      assert s + [b] == [b] && [b][1..] == [];
      assert Escape(b) + [] == [] + Escape(b);
    } else {
      assert (s + [b])[1..] == s[1..] + [b];
      EscapesMore(s[1..], b);
    }
  }

  /** Appends the quoted form of p. */
  method CatRepr(s: bytes, p: bytes) returns (r: bytes)
    ensures r == s + Repr(p)
  {
    r := s + [QUOTE];
    for i := 0 to |p|
      invariant r == s + [QUOTE] + Escapes(p[..i])
    {
      assert p[..i + 1] == p[..i] + [p[i]];
      EscapesMore(p[..i], p[i]);
      Assoc(s + [QUOTE], Escapes(p[..i]), Escape(p[i]));
      r := r + Escape(p[i]);
    }
    assert p[..|p|] == p;
    assert s + [QUOTE] + Escapes(p) + [QUOTE] == s + Repr(p);
    r := r + [QUOTE];
  }

  // ---- reading ----

  datatype Mode = Bare | Quoted | Single

  function Unescape(b: byte): byte {
    if b == 110 then 10 else if b == 114 then 13 else if b == 116 then 9
    else if b == 98 then 8 else if b == 97 then 7 else b
  }

  predicate EndsBare(b: byte) {
    b == SPACE || b == 10 || b == 13 || b == 9 || b == NUL
  }

  datatype Scanned = Scanned(token: bytes, rest: bytes)

  predicate HexEscape(s: bytes) {
    At(s, 0) == BACKSLASH && At(s, 1) == LETTER_X && IsHexDigit(At(s, 2)) && IsHexDigit(At(s, 3))
  }

  /** One token from s on, with `cur` collected so far; None for unbalanced or misplaced quotes. */
  function Token(s: bytes, mode: Mode, cur: bytes): (r: Option<Scanned>)
    ensures r.Some? ==> |r.value.rest| <= |s|
    ensures r.Some? && (mode != Bare || !EndsBare(At(s, 0))) ==> |r.value.rest| < |s|
    decreases |s|
  {
    var c, next := At(s, 0), At(s, 1);
    match mode
    case Quoted =>
      if HexEscape(s) then Token(s[4..], Quoted, cur + [16 * HexValue(s[2]) + HexValue(s[3])])
      else if c == BACKSLASH && next != NUL then Token(s[2..], Quoted, cur + [Unescape(next)])
      else if c == QUOTE then (if next != NUL && !IsSpace(next) then None else Some(Scanned(cur, s[1..])))
      else if c == NUL then None
      else Token(s[1..], Quoted, cur + [c])
    case Single =>
      if c == BACKSLASH && next == APOSTROPHE then Token(s[2..], Single, cur + [APOSTROPHE])
      else if c == APOSTROPHE then (if next != NUL && !IsSpace(next) then None else Some(Scanned(cur, s[1..])))
      else if c == NUL then None
      else Token(s[1..], Single, cur + [c])
    case Bare =>
      if EndsBare(c) then Some(Scanned(cur, if c == NUL then s else s[1..]))
      else if c == QUOTE then Token(s[1..], Quoted, cur)
      else if c == APOSTROPHE then Token(s[1..], Single, cur)
      else Token(s[1..], Bare, cur + [c])
  }

  function SkipBlanks(s: bytes): (r: bytes)
    ensures |r| <= |s| && !IsSpace(At(r, 0))
  {
    if s != [] && IsSpace(s[0]) then SkipBlanks(s[1..]) else s
  }

  function Tokens(line: bytes): Option<seq<bytes>>
    decreases |line|
  {
    var s := SkipBlanks(line);
    if At(s, 0) == NUL then Some([])
    else
      var t := Token(s, Bare, []);
      if t.None? then None
      else
        var more := Tokens(t.value.rest);
        if more.None? then None else Some([t.value.token] + more.value)
  }

  /** One step of the tokenizer inside a token: the byte to add, the width, and the mode behind it. */
  method TokenStep(line: bytes, p: nat, mode: Mode, current: bytes)
    returns (p': nat, mode': Mode, current': bytes, done: bool, bad: bool)
    requires p <= |line|
    ensures p <= p' <= |line|
    ensures bad ==> Token(line[p..], mode, current) == None
    ensures !bad && done ==> Token(line[p..], mode, current) == Some(Scanned(current', line[p'..]))
    ensures !bad && !done ==> p' > p && Token(line[p..], mode, current) == Token(line[p'..], mode', current')
  {
    p', mode', current', done, bad := p, mode, current, false, false;
    var s := line[p..];
    assert forall i: nat :: i <= |s| ==> s[i..] == line[p + i..];
    var c, next := At(line, p), At(line, p + 1);
    assert c == At(s, 0) && next == At(s, 1);
    assert At(line, p + 2) == At(s, 2) && At(line, p + 3) == At(s, 3);
    if mode == Quoted {
      if c == BACKSLASH && next == LETTER_X && IsHexDigit(At(line, p + 2)) && IsHexDigit(At(line, p + 3)) {
        current' := current + [16 * HexValue(At(line, p + 2)) + HexValue(At(line, p + 3))];
        p' := p + 3;
      } else if c == BACKSLASH && next != NUL {
        p' := p + 1;
        current' := current + [Unescape(next)];
      } else if c == QUOTE {
        bad := next != NUL && !IsSpace(next);
        done := true;
      } else if c == NUL {
        bad := true;
      } else {
        current' := current + [c];
      }
    } else if mode == Single {
      if c == BACKSLASH && next == APOSTROPHE {
        p' := p + 1;
        current' := current + [APOSTROPHE];
      } else if c == APOSTROPHE {
        bad := next != NUL && !IsSpace(next);
        done := true;
      } else if c == NUL {
        bad := true;
      } else {
        current' := current + [c];
      }
    } else {
      if EndsBare(c) {
        done := true;
      } else if c == QUOTE {
        mode' := Quoted;
      } else if c == APOSTROPHE {
        mode' := Single;
      } else {
        current' := current + [c];
      }
    }
    if At(line, p') != NUL {
      p' := p' + 1;
    }
  }

  /** Splits a line into arguments. */
  method SplitArgs(line: bytes) returns (vector: Option<seq<bytes>>)
    ensures vector == Tokens(line)
  {
    var p := 0;
    var tokens: seq<bytes> := [];
    assert line[0..] == line;
    PrependNone(Tokens(line));
    while true
      invariant 0 <= p <= |line|
      invariant Tokens(line) == Prepend(tokens, Tokens(line[p..]))
      decreases |line| - p
    {
      ghost var from := p;
      while At(line, p) != NUL && IsSpace(At(line, p))
        invariant from <= p <= |line|
        invariant SkipBlanks(line[from..]) == SkipBlanks(line[p..])
        decreases |line| - p
      {
        assert line[p..][1..] == line[p + 1..];
        p := p + 1;
      }
      assert SkipBlanks(line[from..]) == line[p..];
      if At(line, p) == NUL {
        assert tokens + [] == tokens;
        return Some(tokens);
      }
      ghost var start := p;
      var mode, current: bytes, done := Bare, [], false;
      while !done
        invariant start <= p <= |line| && (done ==> p > start)
        invariant if done then Token(line[start..], Bare, []) == Some(Scanned(current, line[p..]))
                  else Token(line[start..], Bare, []) == Token(line[p..], mode, current)
        decreases !done, |line| - p
      {
        var bad;
        p, mode, current, done, bad := TokenStep(line, p, mode, current);
        if bad {
          return None;
        }
      }
      PrependOne(tokens, current, Tokens(line[p..]));
      tokens := tokens + [current];
    }
  }

  // ---- reading back what was printed ----

  lemma EscapeReads(b: byte, rest: bytes, cur: bytes)
    ensures Token(Escape(b) + rest, Quoted, cur) == Token(rest, Quoted, cur + [b])
  {
    var s := Escape(b) + rest;
    assert s[|Escape(b)|..] == rest;
    if |Escape(b)| == 4 {
      assert 16 * (b / 16) + b % 16 == b;
    }
  }

  lemma {:induction false} EscapesRead(x: bytes, rest: bytes, cur: bytes)
    ensures Token(Escapes(x) + rest, Quoted, cur) == Token(rest, Quoted, cur + x)
    decreases |x|
  {
    if x == [] {
      assert [] + rest == rest && cur + [] == cur;
    } else {
      assert Escapes(x) + rest == Escape(x[0]) + (Escapes(x[1..]) + rest);
      EscapeReads(x[0], Escapes(x[1..]) + rest, cur);
      EscapesRead(x[1..], rest, cur + [x[0]]);
      assert cur + [x[0]] + x[1..] == cur + x;
    }
  }

  lemma ReprReads(x: bytes, rest: bytes)
    requires rest == [] || rest[0] == SPACE
    ensures Token(Repr(x) + rest, Bare, []) == Some(Scanned(x, rest))
  {
    var s := Repr(x) + rest;
    assert s[1..] == Escapes(x) + ([QUOTE] + rest);
    EscapesRead(x, [QUOTE] + rest, []);
    assert [] + x == x && ([QUOTE] + rest)[1..] == rest;
  }

  function Reprs(xs: seq<bytes>): seq<bytes> {
    if xs == [] then [] else [Repr(xs[0])] + Reprs(xs[1..])
  }

  /** For every list of byte strings, the quoted forms joined by spaces split back into that list. */
  lemma {:induction false} QuotingRoundTrip(xs: seq<bytes>)
    ensures Tokens(Joined(Reprs(xs), [SPACE])) == Some(xs)
    decreases |xs|
  {
    if xs == [] {
    } else {
      var later := xs[1..];
      JoinedReprs(xs);
      QuotingRoundTrip(later);
      if later == [] {
        FirstToken(xs[0], [], later);
      } else {
        var line := Joined(Reprs(later), [SPACE]);
        FirstToken(xs[0], [SPACE] + line, later);
      }
      assert [xs[0]] + later == xs;
    }
  }

  /** A quoted string in front of a line is its first token. */
  lemma FirstToken(x: bytes, rest: bytes, later: seq<bytes>)
    requires rest == [] || rest[0] == SPACE
    requires Tokens(rest) == Some(later)
    ensures Tokens(Repr(x) + rest) == Some([x] + later)
  {
    var line := Repr(x) + rest;
    assert line[0] == QUOTE && SkipBlanks(line) == line;
    ReprReads(x, rest);
  }

  lemma JoinedReprs(xs: seq<bytes>)
    requires xs != []
    ensures Joined(Reprs(xs), [SPACE]) ==
            Repr(xs[0]) + (if xs[1..] == [] then [] else [SPACE] + Joined(Reprs(xs[1..]), [SPACE]))
  {
    assert Reprs(xs)[1..] == Reprs(xs[1..]);
    if xs[1..] == [] {
      assert Repr(xs[0]) + [] == Repr(xs[0]);
    } else {
      Assoc(Repr(xs[0]), [SPACE], Joined(Reprs(xs[1..]), [SPACE]));
    }
  }

  /** Quoting every string, joining the results and splitting the line returns the strings. */
  method QuoteAndSplit(xs: seq<bytes>) returns (ys: Option<seq<bytes>>)
    ensures ys == Some(xs)
  {
    var quoted: seq<bytes> := [];
    for i := 0 to |xs|
      invariant quoted == Reprs(xs[..i])
    {
      assert xs[..i + 1] == xs[..i] + [xs[i]];
      ReprsMore(xs[..i], xs[i]);
      var r := CatRepr([], xs[i]);
      assert [] + Repr(xs[i]) == Repr(xs[i]);
      quoted := quoted + [r];
    }
    assert xs[..|xs|] == xs;
    var line := JoinSds(quoted, [SPACE]);
    QuotingRoundTrip(xs);
    ys := SplitArgs(line);
  }

  lemma {:induction false} ReprsMore(xs: seq<bytes>, x: bytes)
    ensures Reprs(xs + [x]) == Reprs(xs) + [Repr(x)]
  {
    if xs == [] {
      assert xs + [x] == [x] && [x][1..] == [];
    } else {
      assert (xs + [x])[1..] == xs[1..] + [x];
      ReprsMore(xs[1..], x);
    }
  }
}
