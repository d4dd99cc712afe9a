/** Commands built from a format string with interpolated values. */
module Template {
  import opened Bytes
  import opened Resp
  import opened Command
  import opened Split

  const LETTER_S: byte := 115
  const LETTER_B: byte := 98

  /** The format starts with a conversion rather than with a plain character. */
  predicate Converts(fmt: bytes) {
    |fmt| >= 2 && fmt[0] == PERCENT && fmt[1] != NUL
  }

  /** Bytes contributed by a conversion, and whether it takes a value; None: left to printf. */
  function Interpolate(letter: byte, args: seq<bytes>): Option<bytes> {
    if letter == LETTER_S && args != [] then Some(UpToNul(args[0]))
    else if letter == LETTER_B && args != [] then Some(args[0])
    else if letter == PERCENT then Some([PERCENT])
    else None
  }

  function Remaining(letter: byte, args: seq<bytes>): seq<bytes> {
    if (letter == LETTER_S || letter == LETTER_B) && args != [] then args[1..] else args
  }

  /** The arguments a format denotes from a point where `cur` has been collected; None: not modelled. */
  function Scan(fmt: bytes, args: seq<bytes>, cur: bytes, touched: bool): Option<Argv>
    decreases |fmt|
  {
    if fmt == [] || fmt[0] == NUL then Some(if touched then [cur] else [])
    else if !Converts(fmt) then
      if fmt[0] != SPACE then Scan(fmt[1..], args, cur + [fmt[0]], true)
      else if !touched then Scan(fmt[1..], args, cur, false)
      else
        var more := Scan(fmt[1..], args, [], false);
        if more.None? then None else Some([cur] + more.value)
    else
      var piece := Interpolate(fmt[1], args);
      if piece.None? then None else Scan(fmt[2..], Remaining(fmt[1], args), cur + piece.value, true)
  }

  /** Formats a command; the bytes end exactly at the length added up while scanning. */
  method FormatCommand(fmt: bytes, args: seq<bytes>) returns (cmd: Option<bytes>)
    ensures
      var argv := Scan(fmt, args, [], false);
      cmd == if argv.None? then None else Some(Wire(argv.value))
  {
    var c, left := 0, args;
    var curarg: bytes, touched := [], false;
    var curargv: Argv, totlen := [], 0;
    assert fmt[0..] == fmt;
    PrependNone(Scan(fmt, args, [], false));
    while At(fmt, c) != NUL
      invariant 0 <= c <= |fmt| && totlen == |EncodeAll(Bulks(curargv))|
      invariant !touched ==> curarg == []
      invariant Scan(fmt, args, [], false) == Prepend(curargv, Scan(fmt[c..], left, curarg, touched))
      decreases |fmt| - c
    {
      assert fmt[c..][1..] == fmt[c + 1..];
      if fmt[c] != PERCENT || At(fmt, c + 1) == NUL {
        if fmt[c] == SPACE {
          if touched {
            var n := BulkLen(|curarg|);
            OneMoreArgument(curargv, curarg);
            PrependOne(curargv, curarg, Scan(fmt[c + 1..], left, [], false));
            curargv := curargv + [curarg];
            totlen := totlen + n;
            curarg, touched := [], false;
          }
        } else {
          curarg := curarg + [fmt[c]];
          touched := true;
        }
        c := c + 1;
      } else {
        var piece := Interpolate(fmt[c + 1], left);
        assert fmt[c..][2..] == fmt[c + 2..];
        if piece.None? {
          return None;
        }
        left := Remaining(fmt[c + 1], left);
        curarg := curarg + piece.value;
        touched := true;
        c := c + 2;
      }
    }
    assert Scan(fmt[c..], left, curarg, touched) == Some(if touched then [curarg] else []);
    if touched {
      var n := BulkLen(|curarg|);
      OneMoreArgument(curargv, curarg);
      curargv := curargv + [curarg];
      totlen := totlen + n;
    } else {
      assert curargv + [] == curargv;
    }
    var bytes := BuildCommand(curargv, totlen);
    cmd := Some(bytes);
  }

  /** Adds the count in front of arguments whose wire lengths have been added up. */
  method BuildCommand(argv: Argv, bulks: nat) returns (cmd: bytes)
    requires bulks == |EncodeAll(Bulks(argv))|
    ensures cmd == Wire(argv)
  {
    var digits := CountDigits(|argv|);
    BulksLength(argv);
    var totlen := bulks + 1 + digits + 2;
    var buf := WriteCommand(argv, totlen);
    cmd := buf[..totlen];
  }

  // ---- what a format string means, without scanning it ----

  datatype Piece = Literal(b: byte) | Text(value: bytes) | Binary(value: bytes) | Percent

  type Word = seq<Piece>

  predicate PlainPiece(p: Piece) {
    p.Literal? ==> p.b != NUL && p.b != SPACE && p.b != PERCENT
  }

  predicate Plain(w: Word) {
    forall i :: 0 <= i < |w| ==> PlainPiece(w[i])
  }

  function PieceFormat(p: Piece): bytes {
    match p
    case Literal(b) => [b]
    case Text(_) => [37, 115]
    case Binary(_) => [37, 98]
    case Percent => [37, 37]
  }

  function PieceValue(p: Piece): bytes {
    match p
    case Literal(b) => [b]
    case Text(v) => UpToNul(v)
    case Binary(v) => v
    case Percent => [PERCENT]
  }

  function PieceArgs(p: Piece): seq<bytes> {
    if p.Text? || p.Binary? then [p.value] else []
  }

  function WordFormat(w: Word): bytes {
    if w == [] then [] else PieceFormat(w[0]) + WordFormat(w[1..])
  }

  function WordValue(w: Word): bytes {
    if w == [] then [] else PieceValue(w[0]) + WordValue(w[1..])
  }

  function WordArgs(w: Word): seq<bytes> {
    if w == [] then [] else PieceArgs(w[0]) + WordArgs(w[1..])
  }

  /** The format string: the words separated by single spaces. */
  function FormatOf(ws: seq<Word>): bytes {
    if ws == [] then [] else if |ws| == 1 then WordFormat(ws[0]) else WordFormat(ws[0]) + ([32] + FormatOf(ws[1..]))
  }

  function ArgsOf(ws: seq<Word>): seq<bytes> {
    if ws == [] then [] else WordArgs(ws[0]) + ArgsOf(ws[1..])
  }

  /** One argument per word; only words without any piece (extra spaces) vanish. */
  function Denotes(ws: seq<Word>): Argv {
    if ws == [] then [] else (if ws[0] == [] then [] else [WordValue(ws[0])]) + Denotes(ws[1..])
  }

  lemma ScanPiece(p: Piece, rest: bytes, more: seq<bytes>, cur: bytes, touched: bool)
    requires PlainPiece(p)
    ensures Scan(PieceFormat(p) + rest, PieceArgs(p) + more, cur, touched) ==
            Scan(rest, more, cur + PieceValue(p), true)
  {
    var fmt, args := PieceFormat(p) + rest, PieceArgs(p) + more;
    assert fmt[|PieceFormat(p)|..] == rest;
    if p.Text? || p.Binary? {
      assert args[1..] == more;
    } else {
      assert args == more;
    }
  }

  lemma {:induction false} ScanWord(w: Word, rest: bytes, more: seq<bytes>, cur: bytes, touched: bool)
    requires Plain(w)
    ensures Scan(WordFormat(w) + rest, WordArgs(w) + more, cur, touched) ==
            Scan(rest, more, cur + WordValue(w), touched || w != [])
    decreases |w|
  {
    if w == [] {
      assert [] + rest == rest && WordArgs(w) + more == more && cur + [] == cur;
    } else {
      var rest', more' := WordFormat(w[1..]) + rest, WordArgs(w[1..]) + more;
      Assoc(PieceFormat(w[0]), WordFormat(w[1..]), rest);
      Assoc(PieceArgs(w[0]), WordArgs(w[1..]), more);
      Assoc(cur, PieceValue(w[0]), WordValue(w[1..]));
      ScanPiece(w[0], rest', more', cur, touched);
      ScanWord(w[1..], rest, more, cur + PieceValue(w[0]), true);
    }
  }

  /** A format string denotes its words with the values put in: nothing is split, empty values stay. */
  lemma {:induction false} TemplateMeaning(ws: seq<Word>)
    requires forall i :: 0 <= i < |ws| ==> Plain(ws[i])
    ensures Scan(FormatOf(ws), ArgsOf(ws), [], false) == Some(Denotes(ws))
    decreases |ws|
  {
    if ws != [] {
      var w, later := ws[0], ws[1..];
      var rest := if |ws| == 1 then [] else [SPACE] + FormatOf(later);
      assert FormatOf(ws) == WordFormat(w) + rest;
      ScanWord(w, rest, ArgsOf(later), [], false);
      assert [] + WordValue(w) == WordValue(w);
      TemplateMeaning(later);
      PrependNone(Some(Denotes(later)));
      if |ws| > 1 {
        assert rest[1..] == FormatOf(later);
      } else {
        var mine: Argv := if w == [] then [] else [WordValue(w)];
        assert later == [] && mine + Denotes(later) == mine;
      }
    }
  }

  /** What a template denotes when a bare percent sign follows it: the sign belongs to the last word. */
  function DenotesPercent(ws: seq<Word>): Argv
    requires ws != []
  {
    var n := |ws| - 1;
    Denotes(ws[..n]) + [WordValue(ws[n]) + [37]]
  }

  /** A percent sign at the end of a format is taken literally, also when it is a word of its own. */
  lemma {:induction false} PercentMeaning(ws: seq<Word>)
    requires ws != [] && forall i :: 0 <= i < |ws| ==> Plain(ws[i])
    ensures Scan(FormatOf(ws) + [37], ArgsOf(ws), [], false) == Some(DenotesPercent(ws))
    decreases |ws|
  {
    var w, later := ws[0], ws[1..];
    assert [] + WordValue(w) == WordValue(w);
    if |ws| == 1 {
      assert later == [] && FormatOf(ws) == WordFormat(w);
      assert ArgsOf(ws) == WordArgs(w) + ArgsOf(later) == WordArgs(w) + [];
      ScanWord(w, [37], [], [], false);
      OnlyPercent(ws);
    } else {
      var format := FormatOf(later) + [37];
      FormatSplits(ws);
      ScanWord(w, [SPACE] + format, ArgsOf(later), [], false);
      PercentMeaning(later);
      SpaceEnds(w, format, ArgsOf(later));
      MorePercent(ws);
    }
  }

  lemma FormatSplits(ws: seq<Word>)
    requires |ws| > 1
    ensures FormatOf(ws) + [37] == WordFormat(ws[0]) + ([SPACE] + (FormatOf(ws[1..]) + [37]))
  {
    Assoc(WordFormat(ws[0]), [SPACE] + FormatOf(ws[1..]), [37]);
    Assoc([SPACE], FormatOf(ws[1..]), [37]);
  }

  /** A space ends the word before it, if there is one. */
  lemma SpaceEnds(w: Word, format: bytes, args: seq<bytes>)
    requires Scan(format, args, [], false).Some?
    ensures Scan([SPACE] + format, args, WordValue(w), w != []) ==
            Some((if w == [] then [] else [WordValue(w)]) + Scan(format, args, [], false).value)
  {
    assert ([SPACE] + format)[1..] == format;
    var more := Scan(format, args, [], false).value;
    assert [] + more == more;
  }

  lemma OnlyPercent(ws: seq<Word>)
    requires |ws| == 1
    ensures DenotesPercent(ws) == [WordValue(ws[0]) + [37]]
  {
    assert ws[..0] == [] && Denotes([]) == [];
  }

  lemma MorePercent(ws: seq<Word>)
    requires |ws| > 1
    ensures DenotesPercent(ws) == (if ws[0] == [] then [] else [WordValue(ws[0])]) + DenotesPercent(ws[1..])
  {
    var n := |ws| - 1;
    assert ws[..n][0] == ws[0] && ws[..n][1..] == ws[1..][..n - 1] && ws[1..][n - 1] == ws[n];
  }

  /** From template to wire, possibly with a percent sign at the end. */
  method FormatTemplate(ws: seq<Word>, percent: bool) returns (cmd: bytes)
    requires (forall i :: 0 <= i < |ws| ==> Plain(ws[i])) && (percent ==> ws != [])
    ensures cmd == Wire(if percent then DenotesPercent(ws) else Denotes(ws))
  {
    var r;
    if percent {
      PercentMeaning(ws);
      r := FormatCommand(FormatOf(ws) + [37], ArgsOf(ws));
    } else {
      TemplateMeaning(ws);
      r := FormatCommand(FormatOf(ws), ArgsOf(ws));
    }
    cmd := r.value;
  }
}
