/** Bytes as the C sources see them, and the control characters of the wire format. */
module Bytes {
  type byte = b: int | 0 <= b < 256
  type bytes = seq<byte>

  const NUL: byte := 0
  const LF: byte := 10
  const CR: byte := 13
  const SPACE: byte := 32
  const DOLLAR: byte := 36
  const PERCENT: byte := 37
  const STAR: byte := 42
  const PLUS: byte := 43
  const MINUS: byte := 45
  const ZERO: byte := 48
  const COLON: byte := 58
  const CRLF: bytes := [CR, LF]

  /** The characters by their codes. */
  lemma Codes()
    ensures NUL == 0 && LF == 10 && CR == 13 && SPACE == 32 && DOLLAR == 36 && PERCENT == 37 && STAR == 42
    ensures PLUS == 43 && MINUS == 45 && ZERO == 48 && COLON == 58 && CRLF == [13, 10]
  {
  }

  /** The byte a C pointer sees at offset i of a buffer that is followed by a NUL terminator. */
  function At(s: bytes, i: nat): byte {
    if i < |s| then s[i] else NUL
  }

  /** What a C string function sees of a buffer. */
  function UpToNul(s: bytes): bytes {
    if s == [] || s[0] == NUL then [] else [s[0]] + UpToNul(s[1..])
  }

  /** It ends at the first NUL. */
  lemma {:induction false} UpToNulMeans(s: bytes)
    ensures UpToNul(s) <= s && 0 !in UpToNul(s) && (UpToNul(s) == s || s[|UpToNul(s)|] == 0)
  {
    if s == [] || s[0] == 0 {
    } else {
      UpToNulMeans(s[1..]);
      assert s == [s[0]] + s[1..];
    }
  }

  // ---- rearranging concatenations ----

  lemma Assoc<T>(a: seq<T>, b: seq<T>, c: seq<T>)
    ensures a + (b + c) == a + b + c
  {
  }

  lemma Assoc3(a: bytes, b: bytes, c: bytes, d: bytes)
    ensures a + b + c + d == a + (b + c + d)
  {
  }

  lemma LongerSlices(s: bytes, t: bytes, n: nat)
    requires n <= |s|
    ensures (s + t)[..n] == s[..n] && (s + t)[n..] == s[n..] + t
  {
  }

  lemma AfterPrefix(w: bytes, a: bytes, b: bytes)
    requires |a + b| <= |w| && w[..|a + b|] == a + b
    ensures w[|a|..] == b + w[|a + b|..]
  {
  }

  lemma SubSlice(s: bytes, a: nat, b: nat, c: nat, d: nat)
    requires a <= b <= |s| && c <= d <= b - a
    ensures s[a..b][c..d] == s[a + c..a + d]
  {
    forall i | 0 <= i < d - c
      ensures s[a..b][c..d][i] == s[a + c..a + d][i]
    {
      assert s[a..b][c + i] == s[a + c + i];
    }
  }

  lemma LineParts(x: byte, line: bytes, rest: bytes)
    ensures
      var s := [x] + line + CRLF + rest;
      && s[0] == x && s[1..] == line + (CRLF + rest) && s[1 + |line| + 2..] == rest
  {
  }
}
