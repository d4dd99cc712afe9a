/** What the tokenizer makes of a line, in terms of the line: words, quotes, escapes, and which lines it refuses. */
module TokenLaws {
  import opened Bytes
  import opened Resp
  import opened Quote

  // ---- words ----

  /** A byte that neither ends a bare word nor starts a quoted part. */
  predicate PlainByte(b: byte) {
    b !in {0, 9, 10, 13, 32, 34, 39}
  }

  predicate Blank(b: byte) {
    b == 32 || 9 <= b <= 13
  }

  predicate PlainText(w: bytes) {
    forall i :: 0 <= i < |w| ==> PlainByte(w[i])
  }

  predicate Blanks(s: bytes) {
    forall i :: 0 <= i < |s| ==> Blank(s[i])
  }

  lemma {:induction false} BareReads(w: bytes, rest: bytes, cur: bytes)
    requires PlainText(w)
    ensures Token(w + rest, Bare, cur) == Token(rest, Bare, cur + w)
    decreases |w|
  {
    if w == [] {
      assert [] + rest == rest && cur + [] == cur;
    } else {
      assert (w + rest)[1..] == w[1..] + rest;
      assert PlainByte(w[0]);
      BareReads(w[1..], rest, cur + [w[0]]);
      assert cur + [w[0]] + w[1..] == cur + w;
    }
  }

  lemma {:induction false} BlanksSkipped(blanks: bytes, s: bytes)
    requires Blanks(blanks)
    ensures SkipBlanks(blanks + s) == SkipBlanks(s) && Tokens(blanks + s) == Tokens(s)
  {
    if blanks == [] {
      assert [] + s == s;
    } else {
      assert (blanks + s)[1..] == blanks[1..] + s;
      assert Blank(blanks[0]);
      BlanksSkipped(blanks[1..], s);
    }
  }

  // ---- single quotes ----

  /** A text with every apostrophe behind a backslash. */
  function Apos(x: bytes): bytes {
    if x == [] then [] else (if x[0] == 39 then [92, 39] else [x[0]]) + Apos(x[1..])
  }

  lemma {:induction false} AposReads(x: bytes, rest: bytes, cur: bytes)
    requires 0 !in x && (x != [] && x[|x| - 1] == 92 ==> At(rest, 0) != 39)
    ensures Token(Apos(x) + rest, Single, cur) == Token(rest, Single, cur + x)
    decreases |x|
  {
    if x == [] {
      assert [] + rest == rest && cur + [] == cur;
    } else {
      Assoc(if x[0] == 39 then [92, 39] else [x[0]], Apos(x[1..]), rest);
      AposReads(x[1..], rest, cur + [x[0]]);
      assert cur + [x[0]] + x[1..] == cur + x;
    }
  }

  lemma {:induction false} AposFails(x: bytes, cur: bytes)
    requires 0 in x || (x != [] && x[|x| - 1] == 92)
    ensures Token(Apos(x) + [39], Single, cur) == None
    decreases |x|
  {
    var tail, s := Apos(x[1..]) + [39], Apos(x) + [39];
    if x[0] == 0 {
      assert s[0] == 0;
    } else if x == [92] {
      assert s == [92, 39] && s[2..] == [];
    } else {
      assert x == [x[0]] + x[1..];
      AposFails(x[1..], cur + [x[0]]);
      if x[0] == 39 {
        assert s == [92, 39] + tail && s[2..] == tail;
      } else {
        assert s == [x[0]] + tail && s[1..] == tail;
      }
    }
  }

  /** A byte at which a token may end behind its closing quote. */
  predicate MayFollow(rest: bytes) {
    rest == [] || rest[0] == 0 || Blank(rest[0])
  }

  /** A text in single quotes, with something behind it. */
  function SingleQuoted(x: bytes, rest: bytes): bytes {
    [39] + (Apos(x) + ([39] + rest))
  }

  lemma SingleReads(x: bytes, rest: bytes, cur: bytes)
    requires MayFollow(rest) && 0 !in x && (x != [] ==> x[|x| - 1] != 92)
    ensures Token(SingleQuoted(x, rest), Bare, cur) == Some(Scanned(cur + x, rest))
  {
    AposReads(x, [39] + rest, cur);
  }

  /**
   Single quotes carry a text with its apostrophes escaped exactly when it holds no NUL and does not end in a
   backslash, which would escape the closing quote; otherwise the line is refused.
   */
  lemma SingleQuotedLine(x: bytes)
    ensures Tokens(SingleQuoted(x, [])) == if 0 in x || (x != [] && x[|x| - 1] == 92) then None else Some([x])
  {
    var s := SingleQuoted(x, []);
    assert s[0] == 39 && SkipBlanks(s) == s;
    if 0 in x || (x != [] && x[|x| - 1] == 92) {
      assert [39] + [] == [39];
      AposFails(x, []);
    } else {
      SingleReads(x, [], []);
      assert [] + x == x;
      var none: seq<bytes> := [];
      assert Tokens([]) == Some(none) && [x] + none == [x];
    }
  }

  // ---- double quotes ----

  /** What may stand inside double quotes: a byte as it is, one behind a backslash, or one in hexadecimal. */
  datatype Unit = Raw(b: byte) | Backslash(b: byte) | Hex(n: byte, upper: bool)

  predicate IsUnit(u: Unit) {
    match u
    case Raw(b) => b !in {0, 34, 92}
    case Backslash(b) => b !in {0, 120}
    case Hex(_, _) => true
  }

  function HexLetter(d: nat, upper: bool): byte
    requires d < 16
  {
    if d < 10 then 48 + d else if upper then 55 + d else 87 + d
  }

  function UnitText(u: Unit): bytes {
    match u
    case Raw(b) => [b]
    case Backslash(b) => [92, b]
    case Hex(n, upper) => [92, 120, HexLetter(n / 16, upper), HexLetter(n % 16, upper)]
  }

  /** Behind a backslash, n r t b a stand for control characters and any other byte for itself. */
  function UnitValue(u: Unit): byte {
    match u
    case Raw(b) => b
    case Backslash(b) =>
      if b == 110 then 10 else if b == 114 then 13 else if b == 116 then 9 else if b == 98 then 8
      else if b == 97 then 7 else b
    case Hex(n, _) => n
  }

  function UnitsText(us: seq<Unit>): bytes {
    if us == [] then [] else UnitText(us[0]) + UnitsText(us[1..])
  }

  function UnitsValue(us: seq<Unit>): bytes {
    if us == [] then [] else [UnitValue(us[0])] + UnitsValue(us[1..])
  }

  lemma UnitReads(u: Unit, rest: bytes, cur: bytes)
    requires IsUnit(u)
    ensures Token(UnitText(u) + rest, Quoted, cur) == Token(rest, Quoted, cur + [UnitValue(u)])
  {
    var s := UnitText(u) + rest;
    assert s[|UnitText(u)|..] == rest;
    if u.Hex? {
      assert 16 * (u.n / 16) + u.n % 16 == u.n;
    }
  }

  lemma {:induction false} UnitsRead(us: seq<Unit>, rest: bytes, cur: bytes)
    requires forall i :: 0 <= i < |us| ==> IsUnit(us[i])
    ensures Token(UnitsText(us) + rest, Quoted, cur) == Token(rest, Quoted, cur + UnitsValue(us))
    decreases |us|
  {
    if us == [] {
      assert [] + rest == rest && cur + [] == cur;
    } else {
      Assoc(UnitText(us[0]), UnitsText(us[1..]), rest);
      UnitReads(us[0], UnitsText(us[1..]) + rest, cur);
      UnitsRead(us[1..], rest, cur + [UnitValue(us[0])]);
      Assoc(cur, [UnitValue(us[0])], UnitsValue(us[1..]));
    }
  }

  function DoubleQuoted(us: seq<Unit>, rest: bytes): bytes {
    [34] + (UnitsText(us) + ([34] + rest))
  }

  lemma DoubleReads(us: seq<Unit>, rest: bytes, cur: bytes)
    requires MayFollow(rest) && forall i :: 0 <= i < |us| ==> IsUnit(us[i])
    ensures Token(DoubleQuoted(us, rest), Bare, cur) == Some(Scanned(cur + UnitsValue(us), rest))
  {
    UnitsRead(us, [34] + rest, cur);
  }

  // ---- whole lines ----

  /** A bare word, or a bare prefix, possibly empty, with a quoted part. */
  datatype Lexeme = Bareword(word: bytes) | InSingle(word: bytes, x: bytes) | InDouble(word: bytes, us: seq<Unit>)

  /** It does not start with a blank; a bare word may hold a vertical tab or a form feed further on. */
  predicate IsLexeme(l: Lexeme) {
    && PlainText(l.word) && (l.word != [] ==> !Blank(l.word[0]))
    && match l
       case Bareword(w) => w != []
       case InSingle(_, x) => 0 !in x && (x != [] ==> x[|x| - 1] != 92)
       case InDouble(_, us) => forall i :: 0 <= i < |us| ==> IsUnit(us[i])
  }

  function LexemeText(l: Lexeme, rest: bytes): bytes {
    match l
    case Bareword(w) => w + rest
    case InSingle(w, x) => w + SingleQuoted(x, rest)
    case InDouble(w, us) => w + DoubleQuoted(us, rest)
  }

  function LexemeValue(l: Lexeme): bytes {
    match l
    case Bareword(w) => w
    case InSingle(w, x) => w + x
    case InDouble(w, us) => w + UnitsValue(us)
  }

  /**
   A gap is blanks; behind a bare word the first of them is a space, tab, line feed or carriage return, and only the
   last gap of a line may be empty.
   */
  predicate IsGap(l: Lexeme, gap: bytes, last: bool) {
    Blanks(gap) && if gap == [] then last else l.Bareword? ==> gap[0] in {9, 10, 13, 32}
  }

  function LineText(ls: seq<Lexeme>, gaps: seq<bytes>): bytes
    requires |gaps| == |ls|
  {
    if ls == [] then [] else LexemeText(ls[0], gaps[0] + LineText(ls[1..], gaps[1..]))
  }

  function LineValue(ls: seq<Lexeme>): seq<bytes> {
    if ls == [] then [] else [LexemeValue(ls[0])] + LineValue(ls[1..])
  }

  predicate IsLine(ls: seq<Lexeme>, gaps: seq<bytes>)
    requires |gaps| == |ls|
  {
    ls == [] || (IsLexeme(ls[0]) && IsGap(ls[0], gaps[0], |ls| == 1) && IsLine(ls[1..], gaps[1..]))
  }

  /** A line of words and quoted parts separated by blanks gives exactly their texts, in order. */
  lemma LineReads(lead: bytes, ls: seq<Lexeme>, gaps: seq<bytes>)
    requires |gaps| == |ls| && Blanks(lead) && IsLine(ls, gaps)
    ensures Tokens(lead + LineText(ls, gaps)) == Some(LineValue(ls))
  {
    BlanksSkipped(lead, LineText(ls, gaps));
    LexemesRead(ls, gaps);
  }

  lemma {:induction false} LexemesRead(ls: seq<Lexeme>, gaps: seq<bytes>)
    requires |gaps| == |ls| && IsLine(ls, gaps)
    ensures Tokens(LineText(ls, gaps)) == Some(LineValue(ls))
    decreases |ls|
  {
    if ls == [] {
    } else {
      var later := LineText(ls[1..], gaps[1..]);
      LexemesRead(ls[1..], gaps[1..]);
      LexemeRead(ls[0], gaps[0], later, LineValue(ls[1..]));
    }
  }

  lemma LexemeRead(l: Lexeme, gap: bytes, later: bytes, more: seq<bytes>)
    requires IsLexeme(l) && IsGap(l, gap, later == []) && Tokens(later) == Some(more)
    ensures Tokens(LexemeText(l, gap + later)) == Some([LexemeValue(l)] + more)
  {
    var rest := gap + later;
    var line := LexemeText(l, rest);
    BlanksSkipped(gap, later);
    if l.Bareword? {
      WordEnds(l.word, gap, later);
    } else {
      assert MayFollow(rest) by { if gap == [] { assert rest == []; } }
      QuotedEnds(l, rest);
    }
  }

  lemma WordEnds(w: bytes, gap: bytes, later: bytes)
    requires PlainText(w) && Blanks(gap) && if gap == [] then later == [] else gap[0] in {9, 10, 13, 32}
    ensures
      var t := Token(w + (gap + later), Bare, []);
      t.Some? && t.value.token == w && Tokens(t.value.rest) == Tokens(later)
  {
    BareReads(w, gap + later, []);
    assert [] + w == w;
    if gap == [] {
      assert gap + later == [];
    } else {
      assert (gap + later)[1..] == gap[1..] + later;
      BlanksSkipped(gap[1..], later);
    }
  }

  lemma QuotedEnds(l: Lexeme, rest: bytes)
    requires IsLexeme(l) && !l.Bareword? && MayFollow(rest)
    ensures Token(LexemeText(l, rest), Bare, []) == Some(Scanned(LexemeValue(l), rest))
  {
    assert [] + l.word == l.word;
    if l.InSingle? {
      BareReads(l.word, SingleQuoted(l.x, rest), []);
      SingleReads(l.x, rest, l.word);
    } else {
      BareReads(l.word, DoubleQuoted(l.us, rest), []);
      DoubleReads(l.us, rest, l.word);
    }
  }

  // ---- where a token ends, and which lines are refused ----

  function OneFurther(k: Option<nat>): Option<nat> {
    if k.None? then None else Some(k.value + 1)
  }

  /** Offset of the first double quote that no backslash escapes, if it comes before any NUL. */
  function DoubleEnd(s: bytes, escaped: bool): (k: Option<nat>)
    ensures k.Some? ==> k.value < |s|
  {
    if s == [] || s[0] == 0 then None
    else if escaped then OneFurther(DoubleEnd(s[1..], false))
    else if s[0] == 34 then Some(0)
    else OneFurther(DoubleEnd(s[1..], s[0] == 92))
  }

  /** Offset of the first apostrophe without a backslash before it, if it comes before any NUL. */
  function SingleEnd(s: bytes, behindBackslash: bool): (k: Option<nat>)
    ensures k.Some? ==> k.value < |s|
  {
    if s == [] || s[0] == 0 then None
    else if s[0] == 39 && !behindBackslash then Some(0)
    else OneFurther(SingleEnd(s[1..], s[0] == 92))
  }

  /** What is left behind a closing quote at offset k; nothing if there is none, or one that something else follows. */
  function BehindQuote(s: bytes, k: Option<nat>): Option<bytes>
    requires k.Some? ==> k.value < |s|
  {
    if k.None? || !MayFollow(s[k.value + 1..]) then None else Some(s[k.value + 1..])
  }

  /** The tokenizer's result with its text left out. */
  function Rest(t: Option<Scanned>): Option<bytes> {
    if t.None? then None else Some(t.value.rest)
  }

  lemma BehindFurther(s: bytes, w: nat, k: Option<nat>)
    requires w <= |s| && (k.Some? ==> k.value < |s| - w)
    ensures
      var k' := if k.None? then None else Some(k.value + w);
      BehindQuote(s, k') == BehindQuote(s[w..], k)
  {
    if k.Some? { assert s[w..][k.value + 1..] == s[k.value + w + 1..]; }
  }

  lemma {:induction false} DoubleEnds(s: bytes, cur: bytes)
    ensures Rest(Token(s, Quoted, cur)) == BehindQuote(s, DoubleEnd(s, false))
    decreases |s|
  {
    var c, next := At(s, 0), At(s, 1);
    if c == 34 || c == 0 {
    } else {
      var w, cur' := if HexEscape(s) then 4 else if c == 92 && next != 0 then 2 else 1,
                     if HexEscape(s) then cur + [16 * HexValue(s[2]) + HexValue(s[3])]
                     else if c == 92 && next != 0 then cur + [Unescape(next)] else cur + [c];
      UnitPassed(s, w);
      assert Token(s, Quoted, cur) == Token(s[w..], Quoted, cur');
      DoubleEnds(s[w..], cur');
      BehindFurther(s, w, DoubleEnd(s[w..], false));
    }
  }

  lemma UnitPassed(s: bytes, w: nat)
    requires At(s, 0) !in {0, 34}
    requires w == if HexEscape(s) then 4 else if At(s, 0) == 92 && At(s, 1) != 0 then 2 else 1
    ensures w <= |s| && DoubleEnd(s, false) == Further(DoubleEnd(s[w..], false), w)
  {
    if HexEscape(s) {
      HexPassed(s);
    } else if At(s, 0) == 92 && At(s, 1) != 0 {
    } else {
      PlainPassed(s);
    }
  }

  function Further(k: Option<nat>, w: nat): Option<nat> {
    if k.None? then None else Some(k.value + w)
  }

  lemma HexPassed(s: bytes)
    requires HexEscape(s)
    ensures |s| >= 4 && DoubleEnd(s, false) == Further(DoubleEnd(s[4..], false), 4)
  {
    var t := s[2..];
    var u := t[1..];
    assert t[0] == s[2] && u[0] == s[3] && u[1..] == s[4..];
    PlainPassed(t);
    PlainPassed(u);
  }

  lemma PlainPassed(s: bytes)
    requires At(s, 0) !in {0, 34} && !(At(s, 0) == 92 && At(s, 1) != 0)
    ensures s != [] && DoubleEnd(s, false) == Further(DoubleEnd(s[1..], false), 1)
  {
    if s[0] == 92 && |s| > 1 { assert s[1..][0] == s[1]; }
  }

  lemma {:induction false} SingleEnds(s: bytes, cur: bytes)
    ensures Rest(Token(s, Single, cur)) == BehindQuote(s, SingleEnd(s, false))
    decreases |s|
  {
    var c, next := At(s, 0), At(s, 1);
    if c == 92 && next == 39 {
      SingleEnds(s[2..], cur + [39]);
      assert s[1..][1..] == s[2..] && s[1..][0] == 39;
      assert SingleEnd(s, false) == Further(SingleEnd(s[2..], false), 2);
      BehindFurther(s, 2, SingleEnd(s[2..], false));
    } else if c == 39 || c == 0 {
    } else {
      SingleEnds(s[1..], cur + [c]);
      assert At(s[1..], 0) == next;
      BehindFurther(s, 1, SingleEnd(s[1..], false));
    }
  }

  /** What is left behind the token that starts s; nothing if a quote stays open or is followed by a wrong byte. */
  function AfterToken(s: bytes): (r: Option<bytes>)
    ensures r.Some? ==> |r.value| <= |s|
    ensures r.Some? && s != [] && s[0] !in {0, 9, 10, 13, 32} ==> |r.value| < |s|
  {
    if s == [] || s[0] == 0 then Some(s)
    else if s[0] in {9, 10, 13, 32} then Some(s[1..])
    else if s[0] == 34 then BehindQuote(s[1..], DoubleEnd(s[1..], false))
    else if s[0] == 39 then BehindQuote(s[1..], SingleEnd(s[1..], false))
    else AfterToken(s[1..])
  }

  lemma {:induction false} TokenEnds(s: bytes, cur: bytes)
    ensures Rest(Token(s, Bare, cur)) == AfterToken(s)
    decreases |s|
  {
    if s == [] || s[0] in {0, 9, 10, 13, 32} {
    } else if s[0] == 34 {
      DoubleEnds(s[1..], cur);
    } else if s[0] == 39 {
      SingleEnds(s[1..], cur);
    } else {
      TokenEnds(s[1..], cur + [s[0]]);
    }
  }

  /** Some token of the line has a quote that stays open, or a closing quote followed by neither a blank nor a NUL. */
  predicate Refused(line: bytes)
    decreases |line|
  {
    if line == [] || line[0] == 0 then false
    else if Blank(line[0]) then Refused(line[1..])
    else AfterToken(line).None? || Refused(AfterToken(line).value)
  }

  /** The tokenizer refuses exactly those lines. */
  lemma {:induction false} RefusedExactly(line: bytes)
    ensures Tokens(line) == None <==> Refused(line)
    decreases |line|
  {
    if line == [] || line[0] == 0 {
    } else if Blank(line[0]) {
      RefusedExactly(line[1..]);
      BlanksSkipped([line[0]], line[1..]);
      assert [line[0]] + line[1..] == line;
    } else {
      TokenEnds(line, []);
      assert SkipBlanks(line) == line;
      if AfterToken(line).Some? {
        RefusedExactly(AfterToken(line).value);
      }
    }
  }

  // ---- what the printer prints ----

  /** Which bytes are printed with a backslash, which as they are, and which in hexadecimal. */
  lemma EscapeForms(b: byte)
    ensures b == 92 || b == 34 ==> Escape(b) == [92, b]
    ensures b == 10 ==> Escape(b) == [92, 110]
    ensures b == 13 ==> Escape(b) == [92, 114]
    ensures b == 9 ==> Escape(b) == [92, 116]
    ensures b == 7 ==> Escape(b) == [92, 97]
    ensures b == 8 ==> Escape(b) == [92, 98]
    ensures 32 <= b <= 126 && b !in {34, 92} ==> Escape(b) == [b]
    ensures (b < 32 || b > 126) && b !in {7, 8, 9, 10, 13} ==>
              Escape(b) == [92, 120, HexLetter(b / 16, false), HexLetter(b % 16, false)]
  {
  }

  /** The quoted form of any bytes is printable text. */
  lemma {:induction false} ReprPrintable(x: bytes, i: nat)
    requires i < |Repr(x)|
    ensures 32 <= Repr(x)[i] <= 126
  {
    EscapesPrintable(x);
  }

  lemma {:induction false} EscapesPrintable(x: bytes)
    ensures forall i :: 0 <= i < |Escapes(x)| ==> 32 <= Escapes(x)[i] <= 126
  {
    if x == [] {
    } else {
      EscapesPrintable(x[1..]);
      assert forall i :: 0 <= i < |Escape(x[0])| ==> 32 <= Escape(x[0])[i] <= 126;
    }
  }
}
