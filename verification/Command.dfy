/** Commands on the wire: the formatters with their precomputed lengths, and the output buffer. */
module Command {
  import opened Bytes
  import opened Decimal
  import opened Resp
  import opened SdsBuffer

  type Argv = seq<bytes>

  function Bulks(argv: Argv): seq<Reply> {
    if argv == [] then [] else [Bulk(argv[0])] + Bulks(argv[1..])
  }

  /** A command is an array of bulk strings. */
  function AsReply(argv: Argv): Reply {
    Array(Bulks(argv))
  }

  function Wire(argv: Argv): bytes {
    Encode(AsReply(argv))
  }

  lemma {:induction false} BulksLength(argv: Argv)
    ensures |Bulks(argv)| == |argv|
  {
    if argv == [] {
    } else {
      BulksLength(argv[1..]);
    }
  }

  /** The wire form grows by one bulk per argument. */
  lemma {:induction false} OneMoreArgument(argv: Argv, arg: bytes)
    ensures EncodeAll(Bulks(argv + [arg])) == EncodeAll(Bulks(argv)) + Encode(Bulk(arg))
  {
    var one: seq<Reply> := [Bulk(arg)];
    if argv == [] {
      assert argv + [arg] == [arg];
      assert [arg][1..] == [];
      assert Bulks([arg]) == one && one[1..] == [];
      assert EncodeAll(one) == Encode(Bulk(arg)) + [];
    } else {
      assert (argv + [arg])[1..] == argv[1..] + [arg];
      OneMoreArgument(argv[1..], arg);
      var more := Bulks(argv + [arg]);
      assert more[0] == Bulk(argv[0]) && more[1..] == Bulks(argv[1..] + [arg]);
      assert Bulks(argv)[1..] == Bulks(argv[1..]);
    }
  }

  /** Number of decimal digits, four at a time. */
  method CountDigits(value: nat) returns (n: nat)
    ensures n == |Digits(value)|
  {
    var v := value;
    n := 1;
    while true
      invariant n - 1 + |Digits(v)| == |Digits(value)|
      decreases v
    {
      if v < 10 { return; }
      if v < 100 { return n + 1; }
      if v < 1000 {
        assert |Digits(v / 10)| == 2;
        return n + 2;
      }
      if v < 10000 {
        assert |Digits(v / 10 / 10)| == 2;
        assert |Digits(v / 10)| == 3;
        return n + 3;
      }
      v := v / 10000;
      n := n + 4;
    }
  }

  method BulkLen(len: nat) returns (n: nat)
    ensures n == 1 + |Digits(len)| + 2 + len + 2
  {
    var digits := CountDigits(len);
    n := 1 + digits + 2 + len + 2;
  }

  /** Exact length of the wire form, from the argument lengths alone. */
  method TotalLength(argv: Argv) returns (totlen: nat)
    ensures totlen == |Wire(argv)|
  {
    var digits := CountDigits(|argv|);
    totlen := 1 + digits + 2;
    for j := 0 to |argv|
      invariant totlen == 3 + |Digits(|argv|)| + |EncodeAll(Bulks(argv[..j]))|
    {
      var n := BulkLen(|argv[j]|);
      totlen := totlen + n;
      assert argv[..j + 1] == argv[..j] + [argv[j]];
      OneMoreArgument(argv[..j], argv[j]);
    }
    assert argv[..|argv|] == argv;
    BulksLength(argv);
  }

  /** Copies bytes into a buffer and returns the position behind them. */
  method CopyTo(cmd: array<byte>, pos: nat, t: bytes) returns (end: nat)
    requires pos + |t| <= cmd.Length
    modifies cmd
    ensures end == pos + |t| && cmd[..end] == old(cmd[..pos]) + t
  {
    forall i | 0 <= i < |t| {
      cmd[pos + i] := t[i];
    }
    end := pos + |t|;
  }

  /** The plain formatter fills a buffer of exactly the precomputed length. */
  method FormatCommandArgv(argv: Argv) returns (cmd: array<byte>, totlen: nat)
    ensures cmd.Length == totlen + 1 && cmd[..totlen] == Wire(argv) && cmd[totlen] == NUL
  {
    totlen := TotalLength(argv);
    cmd := WriteCommand(argv, totlen);
  }

  /** The wire form up to and without argument j. */
  function Sofar(argv: Argv, j: nat): bytes
    requires j <= |argv|
  {
    Header(STAR, |argv|) + EncodeAll(Bulks(argv[..j]))
  }

  lemma {:induction false} SofarGrows(argv: Argv, j: nat)
    requires j <= |argv|
    ensures |Sofar(argv, j)| <= |Wire(argv)|
    ensures j == |argv| ==> Sofar(argv, j) == Wire(argv)
    ensures j < |argv| ==> Sofar(argv, j + 1) == Sofar(argv, j) + Encode(Bulk(argv[j]))
    decreases |argv| - j
  {
    if j == |argv| {
      assert argv[..j] == argv;
      BulksLength(argv);
    } else {
      assert argv[..j + 1] == argv[..j] + [argv[j]];
      OneMoreArgument(argv[..j], argv[j]);
      assert Sofar(argv, j + 1) == Sofar(argv, j) + Encode(Bulk(argv[j]));
      SofarGrows(argv, j + 1);
    }
  }

  method WriteBulk(cmd: array<byte>, pos: nat, arg: bytes) returns (end: nat)
    requires pos + |Encode(Bulk(arg))| <= cmd.Length
    modifies cmd
    ensures end == pos + |Encode(Bulk(arg))| && cmd[..end] == old(cmd[..pos]) + Encode(Bulk(arg))
  {
    end := CopyTo(cmd, pos, Header(DOLLAR, |arg|));
    end := CopyTo(cmd, end, arg);
    end := CopyTo(cmd, end, CRLF);
  }

  method WriteCommand(argv: Argv, totlen: nat) returns (cmd: array<byte>)
    requires totlen == |Wire(argv)|
    ensures cmd.Length == totlen + 1 && cmd[..totlen] == Wire(argv) && cmd[totlen] == NUL
    ensures fresh(cmd)
  {
    cmd := new byte[totlen + 1];
    SofarGrows(argv, 0);
    assert Sofar(argv, 0) == Header(STAR, |argv|);
    var pos := CopyTo(cmd, 0, Header(STAR, |argv|));
    for j := 0 to |argv|
      invariant 0 <= pos <= totlen && cmd[..pos] == Sofar(argv, j)
    {
      SofarGrows(argv, j);
      SofarGrows(argv, j + 1);
      pos := WriteBulk(cmd, pos, argv[j]);
    }
    SofarGrows(argv, |argv|);
    cmd[pos] := NUL;
  }

  const COUNT_FORMAT: bytes := [STAR, PERCENT, 105, CR, LF]
  const LENGTH_FORMAT: bytes := [DOLLAR, PERCENT, 84, CR, LF]

  lemma {:induction false} LiteralRendered(fmt: bytes)
    requires PERCENT !in fmt
    ensures Matches(fmt, []) && Render(fmt, []) == fmt
  {
    if fmt == [] {
    } else {
      assert fmt[0] in fmt;
      LiteralRendered(fmt[1..]);
      assert fmt == [fmt[0]] + fmt[1..];
    }
  }

  lemma HeaderRendered(fmt: bytes, arg: Arg)
    requires (fmt == COUNT_FORMAT && arg.Signed?) || (fmt == LENGTH_FORMAT && arg.Unsigned?)
    requires Takes(fmt[2], arg)
    ensures Matches(fmt, [arg]) && Render(fmt, [arg]) == Header(fmt[0], arg.value)
  {
    var args: seq<Arg> := [arg];
    assert args[1..] == [] && fmt[1..][2..] == CRLF;
    LiteralRendered(CRLF);
    assert Matches(fmt[1..], args) && Render(fmt[1..], args) == Print(arg.value) + CRLF;
    assert Render(fmt, args) == [fmt[0]] + (Print(arg.value) + CRLF);
  }

  /** The formatter on top of the string library produces the same bytes as the plain one. */
  method FormatSdsCommandArgv(argv: Argv) returns (cmd: Buffer, totlen: nat)
    requires |argv| <= LLONG_MAX && forall i :: 0 <= i < |argv| ==> |argv[i]| <= ULLONG_MAX
    ensures cmd.Valid() && cmd.Content() == Wire(argv) && totlen == cmd.len
    ensures fresh(cmd) && fresh(cmd.data)
  {
    totlen := TotalLength(argv);
    cmd := new Buffer();
    cmd.MakeRoomFor(totlen);
    HeaderRendered(COUNT_FORMAT, Signed(|argv|));
    cmd.CatFmt(COUNT_FORMAT, [Signed(|argv|)]);
    assert Sofar(argv, 0) == Header(STAR, |argv|);
    for j := 0 to |argv|
      invariant cmd.Valid() && fresh(cmd) && fresh(cmd.data)
      invariant cmd.Content() == Sofar(argv, j)
    {
      SofarGrows(argv, j);
      CatBulk(cmd, argv[j]);
    }
    SofarGrows(argv, |argv|);
  }

  method CatBulk(cmd: Buffer, arg: bytes)
    requires cmd.Valid() && |arg| <= ULLONG_MAX
    modifies cmd, cmd.data
    ensures cmd.Valid() && (cmd.data == old(cmd.data) || fresh(cmd.data))
    ensures cmd.Content() == old(cmd.Content()) + Encode(Bulk(arg))
  {
    HeaderRendered(LENGTH_FORMAT, Unsigned(|arg|));
    cmd.CatFmt(LENGTH_FORMAT, [Unsigned(|arg|)]);
    cmd.CatLen(arg);
    cmd.CatLen(CRLF);
    Assoc3(old(cmd.Content()), Header(DOLLAR, |arg|), arg, CRLF);
  }
}
