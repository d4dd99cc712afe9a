/** Dynamic strings in place: a header with length and spare room in front of a terminated buffer. */
module SdsBuffer {
  import opened Bytes
  import opened Decimal
  import Sds

  const LLSTR_SIZE: nat := 21
  const LLONG_MAX: int := 0x7fff_ffff_ffff_ffff
  const LLONG_MIN: int := -0x8000_0000_0000_0000
  const ULLONG_MAX: int := 0xffff_ffff_ffff_ffff

  // ---- integers to text ----

  function Reversed(s: bytes): bytes {
    seq(|s|, i requires 0 <= i < |s| => s[|s| - 1 - i])
  }

  function Power10(k: nat): nat {
    if k == 0 then 1 else 10 * Power10(k - 1)
  }

  lemma {:induction false} DigitsBound(n: nat, k: nat)
    requires k >= 1 && n < Power10(k)
    ensures |Digits(n)| <= k
  {
    if n < 10 {
    } else {
      assert Power10(1) == 10;
      DigitsBound(n / 10, k - 1);
    }
  }

  lemma WordsAreShort(v: nat)
    requires v <= ULLONG_MAX
    ensures |Digits(v)| <= 20 && (v <= -LLONG_MIN ==> |Digits(v)| <= 19)
  {
    assert Power10(19) == 10_000_000_000_000_000_000 by {
      assert Power10(4) == 10000;
      assert Power10(8) == 100000000;
      assert Power10(12) == 1000000000000;
      assert Power10(16) == 10000000000000000;
    }
    DigitsBound(v, 20);
    if v <= -LLONG_MIN { DigitsBound(v, 19); }
  }

  /** Writes the decimal digits of v, least significant first. */
  method PutDigits(a: array<byte>, value: nat) returns (n: nat)
    requires a.Length >= |Digits(value)|
    modifies a
    ensures n == |Digits(value)| && Reversed(a[..n]) == Digits(value)
  {
    var v := value;
    a[0] := ZERO + v % 10;
    v := v / 10;
    n := 1;
    assert Reversed(a[..1]) == [a[0]];
    while v != 0
      invariant 1 <= n <= a.Length
      invariant |Digits(value)| == n + (if v == 0 then 0 else |Digits(v)|)
      invariant Digits(value) == (if v == 0 then [] else Digits(v)) + Reversed(a[..n])
      decreases v
    {
      ghost var sofar := a[..n];
      a[n] := ZERO + v % 10;
      assert a[..n + 1] == sofar + [a[n]];
      assert Reversed(a[..n + 1]) == [a[n]] + Reversed(sofar);
      v := v / 10;
      n := n + 1;
    }
  }

  method ReverseInPlace(a: array<byte>, n: nat)
    requires n <= a.Length
    modifies a
    ensures a[..n] == Reversed(old(a[..n])) && a[n..] == old(a[n..])
  {
    var s, p := 0, n - 1;
    while s < p
      invariant 0 <= s <= n && p == n - 1 - s && s <= p + 2
      invariant forall k :: 0 <= k < s ==> a[k] == old(a[n - 1 - k]) && a[n - 1 - k] == old(a[k])
      invariant forall k :: s <= k <= p ==> a[k] == old(a[k])
      invariant a[n..] == old(a[n..])
    {
      a[s], a[p] := a[p], a[s];
      s, p := s + 1, p - 1;
    }
  }

  /** In 64 bits the smallest value is its own negation; as an unsigned number that is its magnitude. */
  function Magnitude(value: int): (v: nat)
    requires LLONG_MIN <= value <= LLONG_MAX
    ensures v == if value < 0 then -value else value
  {
    (if value < 0 then -value else value) % (ULLONG_MAX + 1)
  }

  /** Writes a terminated decimal number and returns its length. */
  method Ll2Str(a: array<byte>, value: int) returns (n: nat)
    requires a.Length >= LLSTR_SIZE && LLONG_MIN <= value <= LLONG_MAX
    modifies a
    ensures n + 1 <= LLSTR_SIZE && a[..n] == Print(value) && a[n] == NUL
  {
    var v := Magnitude(value);
    WordsAreShort(v);
    n := PutDigits(a, v);
    ghost var digits := a[..n];
    if value < 0 {
      a[n] := MINUS;
      assert a[..n + 1] == digits + [MINUS];
      assert Reversed(a[..n + 1]) == [MINUS] + Reversed(digits);
      n := n + 1;
    }
    a[n] := NUL;
    ghost var whole := a[..n];
    ReverseInPlace(a, n);
    assert a[n..][0] == NUL;
  }

  method Ull2Str(a: array<byte>, value: nat) returns (n: nat)
    requires a.Length >= LLSTR_SIZE && value <= ULLONG_MAX
    modifies a
    ensures n + 1 <= LLSTR_SIZE && a[..n] == Print(value) && a[n] == NUL
  {
    WordsAreShort(value);
    n := PutDigits(a, value);
    a[n] := NUL;
    ReverseInPlace(a, n);
    assert a[n..][0] == NUL;
  }

  // ---- format strings of the string library ----

  datatype Arg = Text(text: bytes) | Signed(value: int) | Unsigned(value: int)

  /** The kind of argument a conversion letter takes, if it takes one: s and S, i and I, or u, U and T. */
  predicate Takes(letter: byte, arg: Arg) {
    match arg
    case Text(_) => letter in {115, 83}
    case Signed(v) => letter in {105, 73} && LLONG_MIN <= v <= LLONG_MAX
    case Unsigned(v) => letter in {117, 85, 84} && 0 <= v <= ULLONG_MAX
  }

  predicate Conversion(letter: byte) {
    letter in {115, 83, 105, 73, 117, 85, 84}
  }

  /** Every conversion of the format finds its argument, and no percent sign ends it. */
  predicate Matches(fmt: bytes, args: seq<Arg>) {
    if fmt == [] then args == []
    else if fmt[0] != PERCENT then Matches(fmt[1..], args)
    else if |fmt| == 1 then false
    else if Conversion(fmt[1]) then args != [] && Takes(fmt[1], args[0]) && Matches(fmt[2..], args[1..])
    else Matches(fmt[2..], args)
  }

  /** What a conversion prints: for the letter s a C string, which ends at its first NUL. */
  function Shown(letter: byte, arg: Arg): bytes {
    if arg.Text? then (if letter == 115 then UpToNul(arg.text) else arg.text) else Print(arg.value)
  }

  function Render(fmt: bytes, args: seq<Arg>): bytes
    requires Matches(fmt, args)
  {
    if fmt == [] then []
    else if fmt[0] != PERCENT then [fmt[0]] + Render(fmt[1..], args)
    else if Conversion(fmt[1]) then Shown(fmt[1], args[0]) + Render(fmt[2..], args[1..])
    else [fmt[1]] + Render(fmt[2..], args)
  }

  /** First kept index and number of kept bytes when s is cut down to start..end. */
  method RangeBounds(len: nat, start: int, end: int, ghost s: bytes) returns (a: nat, newlen: nat)
    requires len == |s| > 0
    ensures newlen <= len
    ensures newlen == 0 ==> Sds.Range(s, start, end) == []
    ensures newlen != 0 ==> a + newlen <= len && Sds.Range(s, start, end) == s[a..a + newlen]
  {
    var b := end;
    a := if start < 0 then (if len + start < 0 then 0 else len + start) else start;
    if b < 0 {
      b := len + b;
      if b < 0 { b := 0; }
    }
    var kept: int := if a > b then 0 else b - a + 1;
    if kept != 0 {
      if a >= len {
        kept := 0;
      } else if b >= len {
        b := len - 1;
        kept := if a > b then 0 else b - a + 1;
      }
    } else {
      a := 0;
    }
    newlen := kept;
  }

  /** What the first directive of a format prints, its width, and the arguments it leaves. */
  function Directive(fmt: bytes, args: seq<Arg>): (bytes, nat, seq<Arg>)
    requires fmt != [] && Matches(fmt, args)
  {
    if fmt[0] != PERCENT then ([fmt[0]], 1, args)
    else if Conversion(fmt[1]) then (Shown(fmt[1], args[0]), 2, args[1..])
    else ([fmt[1]], 2, args)
  }

  lemma RenderOne(fmt: bytes, f: nat, args: seq<Arg>, before: bytes)
    requires f < |fmt| && Matches(fmt[f..], args)
    ensures
      var (piece, width, left) := Directive(fmt[f..], args);
      && f + width <= |fmt| && Matches(fmt[f + width..], left)
      && before + Render(fmt[f..], args) == before + piece + Render(fmt[f + width..], left)
  {
    var (piece, width, left) := Directive(fmt[f..], args);
    assert fmt[f..][width..] == fmt[f + width..];
    assert Render(fmt[f..], args) == piece + Render(fmt[f + width..], left);
  }

  // ---- what a format string means, without scanning it ----

  /** A byte as it is, a conversion with its argument, or a percent sign in front of any other byte. */
  datatype Part = Plain(b: byte) | Converted(letter: byte, arg: Arg) | Marked(b: byte)

  predicate IsPart(p: Part) {
    match p
    case Plain(b) => b != 37
    case Converted(letter, arg) => Takes(letter, arg)
    case Marked(b) => b !in {115, 83, 105, 73, 117, 85, 84}
  }

  function PartFormat(p: Part): bytes {
    match p
    case Plain(b) => [b]
    case Converted(letter, _) => [37, letter]
    case Marked(b) => [37, b]
  }

  function PartArgs(p: Part): seq<Arg> {
    if p.Converted? then [p.arg] else []
  }

  /** s prints a C string, S a whole string, and i, I, u, U and T print integers. */
  function PartValue(p: Part): bytes {
    match p
    case Plain(b) => [b]
    case Converted(letter, Text(x)) => if letter == 115 then UpToNul(x) else x
    case Converted(_, Signed(v)) => Print(v)
    case Converted(_, Unsigned(v)) => Print(v)
    case Marked(b) => [b]
  }

  function PartsFormat(ps: seq<Part>): bytes {
    if ps == [] then [] else PartFormat(ps[0]) + PartsFormat(ps[1..])
  }

  function PartsArgs(ps: seq<Part>): seq<Arg> {
    if ps == [] then [] else PartArgs(ps[0]) + PartsArgs(ps[1..])
  }

  function PartsValue(ps: seq<Part>): bytes {
    if ps == [] then [] else PartValue(ps[0]) + PartsValue(ps[1..])
  }

  lemma RenderPart(p: Part, fmt: bytes, args: seq<Arg>)
    requires IsPart(p) && Matches(fmt, args)
    ensures Matches(PartFormat(p) + fmt, PartArgs(p) + args)
    ensures Render(PartFormat(p) + fmt, PartArgs(p) + args) == PartValue(p) + Render(fmt, args)
  {
    var f, a := PartFormat(p) + fmt, PartArgs(p) + args;
    assert f[|PartFormat(p)|..] == fmt;
    if p.Converted? {
      assert a[1..] == args && a[0] == p.arg;
    } else {
      assert a == args;
    }
  }

  /** A format prints its parts, each conversion with its own argument. */
  lemma {:induction false} FormatMeaning(ps: seq<Part>)
    requires forall i :: 0 <= i < |ps| ==> IsPart(ps[i])
    ensures Matches(PartsFormat(ps), PartsArgs(ps))
    ensures Render(PartsFormat(ps), PartsArgs(ps)) == PartsValue(ps)
  {
    if ps == [] {
    } else {
      FormatMeaning(ps[1..]);
      RenderPart(ps[0], PartsFormat(ps[1..]), PartsArgs(ps[1..]));
    }
  }

  class Buffer {
    var data: array<byte>
    var len: nat
    var free: nat

    ghost predicate Sized()
      reads this
    {
      data.Length == len + free + 1
    }

    ghost predicate Valid()
      reads this, data
    {
      Sized() && data[len] == NUL
    }

    ghost function Content(): bytes
      requires Sized()
      reads this, data
    {
      data[..len]
    }

    constructor ()
      ensures Valid() && fresh(data) && Content() == []
    {
      data := new byte[1](_ => NUL);
      len, free := 0, 0;
    }

    /** Makes room for `add` more bytes and the terminator; the content does not change. */
    method MakeRoomFor(add: nat)
      requires Sized()
      modifies this
      ensures Sized() && Content() == old(Content()) && free == Sds.AfterMakeRoom(len, old(free), add)
      ensures data == old(data) || fresh(data)
      ensures data[len] == old(data[len])
    {
      if free >= add {
        return;
      }
      var newlen := len + add;
      if newlen < Sds.MAX_PREALLOC {
        newlen := newlen * 2;
      } else {
        newlen := newlen + Sds.MAX_PREALLOC;
      }
      var old_data := data;
      data := new byte[newlen + 1](i requires i >= 0 reads old_data =>
        if i < old_data.Length then old_data[i] else NUL);
      free := newlen - len;
    }

    /** Copies bytes behind the content; the terminator is the caller's business. */
    method Put(t: bytes)
      requires Sized() && |t| <= free
      modifies this, data
      ensures Sized() && data == old(data) && Content() == old(Content()) + t
      ensures free == old(free) - |t|
    {
      forall i | 0 <= i < |t| {
        data[len + i] := t[i];
      }
      len, free := len + |t|, free - |t|;
      assert data[..len] == old(data[..len]) + t;
    }

    method CatLen(t: bytes)
      requires Valid()
      modifies this, data
      ensures Valid() && (data == old(data) || fresh(data))
      ensures Content() == old(Content()) + t && free == Sds.AfterCat(old(len), old(free), |t|)
    {
      MakeRoomFor(|t|);
      Put(t);
      data[len] := NUL;
    }

    /** Cuts the content down to an inclusive range; nothing is reallocated. */
    method Range(start: int, end: int)
      requires Valid()
      modifies this, data
      ensures Valid() && data == old(data)
      ensures Content() == Sds.Range(old(Content()), start, end)
      ensures len + free == old(len + free)
    {
      if len == 0 {
        return;
      }
      var a, newlen := RangeBounds(len, start, end, Content());
      if a != 0 && newlen != 0 {
        forall i | 0 <= i < newlen {
          data[i] := data[a + i];
        }
      }
      assert newlen != 0 ==> forall i :: 0 <= i < newlen ==> data[i] == old(data[..len])[a + i];
      data[newlen] := NUL;
      free := free + (len - newlen);
      len := newlen;
      assert newlen != 0 ==> data[..newlen] == old(data[..len])[a..a + newlen];
    }

    /** Appends a rendered format string. */
    method CatFmt(fmt: bytes, args: seq<Arg>)
      requires Valid() && Matches(fmt, args)
      modifies this, data
      ensures Valid() && (data == old(data) || fresh(data))
      ensures Content() == old(Content()) + Render(fmt, args)
    {
      var f, left := 0, args;
      assert fmt[0..] == fmt;
      while f < |fmt|
        invariant 0 <= f <= |fmt| && Sized() && (data == old(data) || fresh(data))
        invariant Matches(fmt[f..], left)
        invariant Content() + Render(fmt[f..], left) == old(Content()) + Render(fmt, args)
      {
        RenderOne(fmt, f, left, Content());
        if free == 0 {
          MakeRoomFor(1);
        }
        if fmt[f] == PERCENT {
          var next := fmt[f + 1];
          if Conversion(next) {
            PutArg(next, left[0]);
            left := left[1..];
          } else {
            Put([next]);
          }
          f := f + 2;
        } else {
          Put([fmt[f]]);
          f := f + 1;
        }
      }
      data[len] := NUL;
      assert Content() + [] == Content();
    }

    method PutArg(letter: byte, arg: Arg)
      requires Sized() && Takes(letter, arg)
      modifies this, data
      ensures Sized() && (data == old(data) || fresh(data))
      ensures Content() == old(Content()) + Shown(letter, arg)
    {
      var text := [];
      if arg.Text? {
        text := if letter == 115 then UpToNul(arg.text) else arg.text;
      } else {
        var digits := new byte[LLSTR_SIZE];
        var n;
        if arg.Signed? {
          n := Ll2Str(digits, arg.value);
        } else {
          n := Ull2Str(digits, arg.value);
        }
        text := digits[..n];
      }
      if free < |text| {
        MakeRoomFor(|text|);
      }
      Put(text);
    }
  }
}
