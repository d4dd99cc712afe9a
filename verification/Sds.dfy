/** Dynamic strings as values: the content and spare room that appending and cutting leave. */
module Sds {
  import opened Bytes

  const MAX_PREALLOC: nat := 1048576

  /** Spare bytes once room for `add` more has been made behind `len`. */
  function AfterMakeRoom(len: nat, spare: nat, add: nat): (r: nat)
    ensures r >= add && r >= spare
  {
    if spare >= add then spare
    else
      var newlen := len + add;
      (if newlen < MAX_PREALLOC then newlen * 2 else newlen + MAX_PREALLOC) - len
  }

  function AfterCat(len: nat, spare: nat, add: nat): nat {
    AfterMakeRoom(len, spare, add) - add
  }

  /** An index counted from the end when negative, clamped at the front. */
  function FromEnd(len: nat, i: int): int {
    if i >= 0 then i else if len + i < 0 then 0 else len + i
  }

  /** The inclusive range start..end of s, either index possibly negative or past the end. */
  function Range(s: bytes, start: int, end: int): bytes {
    if s == [] then s
    else
      var a, b := FromEnd(|s|, start), FromEnd(|s|, end);
      if a > b || a >= |s| then []
      else s[a..(if b >= |s| then |s| else b + 1)]
  }

  lemma RangeToEnd(s: bytes, p: nat)
    requires p <= |s|
    ensures Range(s, p, -1) == s[p..]
  {
  }

  /** Byte i lies between `start` and `end`, counted from the end when negative; an end before the front is byte 0. */
  predicate Asked(len: nat, start: int, end: int, i: nat) {
    && (if start < 0 then i >= len + start else i >= start)
    && (if end < 0 then i <= len + end || i == 0 else i <= end)
  }

  /** A range keeps exactly the bytes asked for. */
  lemma RangeKeeps(s: bytes, start: int, end: int) returns (a: nat)
    ensures
      var kept := Range(s, start, end);
      && a + |kept| <= |s| && kept == s[a..a + |kept|]
      && forall i :: 0 <= i < |s| ==> (a <= i < a + |kept| <==> Asked(|s|, start, end, i))
  {
    var from := FromEnd(|s|, start);
    a := if from <= |s| && Range(s, start, end) != [] then from else 0;
  }

  /** A string that has to grow can then take as much again, up to a megabyte, without growing. */
  lemma RoomForAsMuch(len: nat, spare: nat, add: nat)
    ensures spare >= add ==> AfterCat(len, spare, add) == spare - add
    ensures spare < add ==> AfterCat(len, spare, add) == if len + add < 1048576 then len + add else 1048576
  {
  }
}
