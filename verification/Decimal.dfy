/** Decimal integers: what the printers emit, what the reader accepts, and that one undoes the other. */
module Decimal {
  import opened Bytes

  function Digits(n: nat): (s: bytes)
    ensures |s| >= 1
  {
    if n < 10 then [ZERO + n] else Digits(n / 10) + [ZERO + n % 10]
  }

  function Print(v: int): bytes {
    if v < 0 then [MINUS] + Digits(-v) else Digits(v)
  }

  predicate AllDigits(s: bytes) {
    forall i :: 0 <= i < |s| ==> ZERO <= s[i] <= ZERO + 9
  }

  function Natural(s: bytes): nat
    requires AllDigits(s)
  {
    if s == [] then 0 else 10 * Natural(s[..|s| - 1]) + (s[|s| - 1] - ZERO)
  }

  /** The signed value of a text, or -1 for anything that is not one. */
  function Integer(text: bytes): int {
    var sign := if text != [] && text[0] == MINUS then -1 else 1;
    var digits := if text != [] && (text[0] == MINUS || text[0] == PLUS) then text[1..] else text;
    if AllDigits(digits) then sign * Natural(digits) else -1
  }

  function UpToCr(s: bytes): (r: bytes)
    ensures CR !in r
  {
    if s == [] || s[0] == CR then [] else [s[0]] + UpToCr(s[1..])
  }

  /** The value of a header line: the reader stops at the first CR even when that is not the line's end. */
  function LineInteger(line: bytes): int {
    Integer(UpToCr(line))
  }

  lemma {:induction false} UpToCrIsPrefix(s: bytes, k: nat)
    requires k <= |s| && (k == |s| || s[k] == CR) && CR !in s[..k]
    ensures UpToCr(s) == s[..k]
  {
    if k == 0 {
    } else {
      assert s[0] in s[..k];
      assert s[1..][..k - 1] == s[..k][1..];
      UpToCrIsPrefix(s[1..], k - 1);
    }
  }

  lemma {:induction false} NaturalOfDigits(n: nat)
    ensures AllDigits(Digits(n)) && Natural(Digits(n)) == n
  {
    if n < 10 {
      assert Digits(n)[..0] == [];
    } else {
      NaturalOfDigits(n / 10);
      assert Digits(n)[..|Digits(n)| - 1] == Digits(n / 10);
    }
  }

  lemma PrintHasNoCr(v: int)
    ensures CR !in Print(v)
  {
    NaturalOfDigits(if v < 0 then -v else v);
  }

  /** Every printed integer reads back as itself. */
  lemma IntegerOfPrint(v: int)
    ensures Integer(Print(v)) == v && LineInteger(Print(v)) == v
  {
    NaturalOfDigits(if v < 0 then -v else v);
    PrintHasNoCr(v);
    UpToCrIsPrefix(Print(v), |Print(v)|);
    assert Print(v)[..|Print(v)|] == Print(v);
    if v < 0 {
      assert Print(v)[1..] == Digits(-v);
    }
  }

  // ---- numbers that nobody printed ----

  lemma {:induction false} LeadingZero(s: bytes)
    requires AllDigits(s)
    ensures AllDigits([48] + s) && Natural([48] + s) == Natural(s)
  {
    if s == [] {
      assert [48] + s == [48] && [48][..0] == [];
    } else {
      var n, t := |s| - 1, [48] + s;
      LeadingZero(s[..n]);
      assert t[..|t| - 1] == [48] + s[..n] && t[|t| - 1] == s[n];
    }
  }

  /** Digits are the codes 48 to 57, the most significant first. */
  lemma DigitCodes(n: nat)
    ensures n < 10 ==> Digits(n) == [48 + n]
    ensures n >= 10 ==> Digits(n) == Digits(n / 10) + [48 + n % 10]
    ensures forall i :: 0 <= i < |Digits(n)| ==> 48 <= Digits(n)[i] <= 57
  {
    NaturalOfDigits(n);
  }

  /** A plus sign changes nothing, a minus sign negates, and an empty number is zero. */
  lemma SignedNumbers(s: bytes)
    requires AllDigits(s)
    ensures LineInteger(s) == LineInteger([43] + s) == Natural(s) && LineInteger([45] + s) == 0 - Natural(s)
    ensures LineInteger([]) == 0
  {
    UpToCrIsPrefix(s, |s|);
    assert s[..|s|] == s;
    SignKept(43, s);
    SignKept(45, s);
    assert Integer([]) == 0;
  }

  lemma SignKept(sign: byte, s: bytes)
    requires CR !in s && sign in {43, 45}
    ensures UpToCr([sign] + s) == [sign] + s && ([sign] + s)[1..] == s
  {
    var t := [sign] + s;
    UpToCrIsPrefix(t, |t|);
    assert t[..|t|] == t;
  }

  /** Any other byte behind the sign and before the first CR makes the number -1. */
  lemma MalformedNumber(text: bytes, after: bytes, i: nat)
    requires 13 !in text && i < |text| && !(48 <= text[i] <= 57) && !(i == 0 && text[i] in {43, 45})
    ensures LineInteger(text) == -1 && LineInteger(text + [13] + after) == -1
  {
    var line := text + [13] + after;
    UpToCrIsPrefix(text, |text|);
    assert text[..|text|] == text;
    assert line[..|text|] == text;
    UpToCrIsPrefix(line, |text|);
    var digits := if text[0] in {43, 45} then text[1..] else text;
    assert digits[if text[0] in {43, 45} then i - 1 else i] == text[i];
  }
}
