/** Splitting a string at a separator, and joining pieces back together. */
module Split {
  import opened Bytes
  import opened Resp

  /** A list known up to some point, followed by what the rest of the input gives. */
  function Prepend(done: seq<bytes>, more: Option<seq<bytes>>): Option<seq<bytes>> {
    if more.None? then None else Some(done + more.value)
  }

  lemma PrependNone(more: Option<seq<bytes>>)
    ensures Prepend([], more) == more
  {
    if more.Some? { assert [] + more.value == more.value; }
  }

  lemma PrependOne(done: seq<bytes>, t: bytes, more: Option<seq<bytes>>)
    ensures Prepend(done, Prepend([t], more)) == Prepend(done + [t], more)
  {
    if more.Some? { assert done + ([t] + more.value) == done + [t] + more.value; }
  }

  function Joined(tokens: seq<bytes>, sep: bytes): bytes {
    if tokens == [] then [] else if |tokens| == 1 then tokens[0] else tokens[0] + sep + Joined(tokens[1..], sep)
  }

  /** Every token followed by the separator. */
  function Glued(tokens: seq<bytes>, sep: bytes): bytes {
    if tokens == [] then [] else tokens[0] + sep + Glued(tokens[1..], sep)
  }

  predicate MatchAt(s: bytes, q: nat, sep: bytes) {
    q + |sep| <= |s| && s[q..q + |sep|] == sep
  }

  predicate Free(t: bytes, sep: bytes) {
    forall q: nat :: q < |t| ==> !MatchAt(t, q, sep)
  }

  /** The separator behind t is the first one in t + sep: t was cut off at the earliest place. */
  predicate Leftmost(t: bytes, sep: bytes) {
    forall q: nat :: q < |t| ==> !MatchAt(t + sep, q, sep)
  }

  /** What splitting promises: pieces cut at the leftmost separators that join back to the whole. */
  predicate SplitsInto(s: bytes, sep: bytes, tokens: seq<bytes>) {
    && Joined(tokens, sep) == s
    && (tokens == [] <==> s == [])
    && (tokens != [] ==> Free(tokens[|tokens| - 1], sep))
    && forall i :: 0 <= i < |tokens| - 1 ==> Leftmost(tokens[i], sep)
  }

  lemma LeftmostIsFree(t: bytes, sep: bytes)
    requires Leftmost(t, sep)
    ensures Free(t, sep)
  {
    forall q: nat | q < |t|
      ensures !MatchAt(t, q, sep)
    {
      assert !MatchAt(t + sep, q, sep);
      if q + |sep| <= |t| { assert (t + sep)[q..q + |sep|] == t[q..q + |sep|]; }
    }
  }

  /** No token contains the separator. */
  lemma TokensAreFree(s: bytes, sep: bytes, tokens: seq<bytes>, i: nat)
    requires SplitsInto(s, sep, tokens) && i < |tokens|
    ensures Free(tokens[i], sep)
  {
    if i < |tokens| - 1 { LeftmostIsFree(tokens[i], sep); }
  }

  lemma {:induction false} GluedMore(tokens: seq<bytes>, t: bytes, sep: bytes)
    ensures Glued(tokens + [t], sep) == Glued(tokens, sep) + t + sep
    ensures Joined(tokens + [t], sep) == Glued(tokens, sep) + t
  {
    if tokens == [] {
      assert tokens + [t] == [t] && [t][1..] == [];
      assert t + sep + [] == [] + t + sep && [] + t == t;
    } else {
      var a, more := tokens[0] + sep, tokens[1..] + [t];
      assert (tokens + [t])[1..] == more;
      GluedMore(tokens[1..], t, sep);
      Assoc(a, Glued(tokens[1..], sep), t);
      Assoc(a, Glued(tokens[1..], sep) + t, sep);
    }
  }

  /** Splits at every leftmost separator; None for an empty separator. */
  method SplitLen(s: bytes, sep: bytes) returns (r: Option<seq<bytes>>)
    ensures r.None? <==> sep == []
    ensures r.Some? ==> SplitsInto(s, sep, r.value)
  {
    var elements, slots, start, j := 0, 5, 0, 0;
    if |sep| < 1 {
      return None;
    }
    var tokens := new bytes[slots];
    if |s| == 0 {
      return Some([]);
    }
    ghost var cut: seq<bytes> := [];
    while j < |s| - (|sep| - 1)
      invariant fresh(tokens) && tokens.Length == slots && elements < slots && slots >= 5
      invariant 0 <= start <= j && start <= |s|
      invariant tokens[..elements] == cut && Glued(cut, sep) == s[..start]
      invariant forall i :: 0 <= i < |cut| ==> Leftmost(cut[i], sep)
      invariant forall q: nat :: start <= q < j ==> !MatchAt(s, q, sep)
      decreases |s| - j
    {
      if slots < elements + 2 {
        slots := slots * 2;
        var grown := new bytes[slots];
        forall i | 0 <= i < elements {
          grown[i] := tokens[i];
        }
        tokens := grown;
      }
      if s[j..j + |sep|] == sep {
        CutAt(s, sep, start, j);
        GluedMore(cut, s[start..j], sep);
        tokens[elements] := s[start..j];
        cut := cut + [s[start..j]];
        elements := elements + 1;
        start := j + |sep|;
        j := j + |sep| - 1;
      } else {
        assert !MatchAt(s, j, sep);
      }
      j := j + 1;
    }
    tokens[elements] := s[start..];
    elements := elements + 1;
    GluedMore(cut, s[start..], sep);
    assert s[..start] + s[start..] == s;
    LastIsFree(s, sep, start, j);
    assert tokens[..elements] == cut + [s[start..]];
    r := Some(tokens[..elements]);
  }

  lemma CutAt(s: bytes, sep: bytes, start: nat, j: nat)
    requires start <= j && MatchAt(s, j, sep) && forall q: nat :: start <= q < j ==> !MatchAt(s, q, sep)
    ensures Leftmost(s[start..j], sep) && s[..j + |sep|] == s[..start] + s[start..j] + sep
  {
    var t := s[start..j];
    assert s[..j + |sep|] == s[..j] + s[j..j + |sep|] && s[..j] == s[..start] + t;
    assert s[start..j + |sep|] == t + sep;
    forall q: nat | q < |t|
      ensures !MatchAt(t + sep, q, sep)
    {
      assert !MatchAt(s, start + q, sep);
      SubSlice(s, start, j + |sep|, q, q + |sep|);
    }
  }

  lemma LastIsFree(s: bytes, sep: bytes, start: nat, j: int)
    requires start <= |s| && j >= |s| - (|sep| - 1) && sep != []
    requires forall q: nat :: start <= q < j ==> !MatchAt(s, q, sep)
    ensures Free(s[start..], sep)
  {
    forall q: nat | q < |s[start..]|
      ensures !MatchAt(s[start..], q, sep)
    {
      if q + |sep| <= |s[start..]| {
        assert !MatchAt(s, start + q, sep);
        SubSlice(s, start, |s|, q, q + |sep|);
        assert s[start..|s|] == s[start..];
      }
    }
  }

  /** Joins with the separator between neighbours. */
  method JoinSds(argv: seq<bytes>, sep: bytes) returns (join: bytes)
    ensures join == Joined(argv, sep)
  {
    join := [];
    for j := 0 to |argv|
      invariant join == if j == |argv| then Joined(argv, sep) else Glued(argv[..j], sep)
    {
      assert argv[..j + 1] == argv[..j] + [argv[j]];
      GluedMore(argv[..j], argv[j], sep);
      join := join + argv[j];
      if j != |argv| - 1 {
        join := join + sep;
      } else {
        assert argv[..j + 1] == argv;
      }
    }
  }

  /** Two leftmost cuts of the same string are made at the same place. */
  lemma SameCut(a: bytes, b: bytes, ra: bytes, rb: bytes, sep: bytes)
    requires Leftmost(a, sep) && Leftmost(b, sep) && a + sep + ra == b + sep + rb
    ensures a == b && ra == rb
  {
    if |a| < |b| {
      CutEarlier(a, b, ra, rb, sep);
    } else if |b| < |a| {
      CutEarlier(b, a, rb, ra, sep);
    } else {
      var s := a + sep + ra;
      assert a == s[..|a|] && b == (b + sep + rb)[..|a|];
      assert ra == s[|a| + |sep|..] && rb == (b + sep + rb)[|a| + |sep|..];
    }
  }

  lemma CutEarlier(a: bytes, b: bytes, ra: bytes, rb: bytes, sep: bytes)
    requires Leftmost(b, sep) && a + sep + ra == b + sep + rb
    ensures |a| >= |b|
  {
    if |a| < |b| {
      var s := a + sep + ra;
      assert s[|a|..|a| + |sep|] == sep;
      assert (b + sep + rb)[|a|..|a| + |sep|] == (b + sep)[|a|..|a| + |sep|];
      assert MatchAt(b + sep, |a|, sep);
    }
  }

  /** Nothing that can be cut again is free of the separator. */
  lemma NoMoreCuts(a: bytes, b: bytes, rb: bytes, sep: bytes)
    requires sep != [] && a == b + sep + rb
    ensures !Free(a, sep)
  {
    assert a[|b|..|b| + |sep|] == sep;
    assert MatchAt(a, |b|, sep);
  }

  /** The contract of splitting determines its result. */
  lemma {:induction false} SplitUnique(s: bytes, sep: bytes, a: seq<bytes>, b: seq<bytes>)
    requires sep != [] && SplitsInto(s, sep, a) && SplitsInto(s, sep, b)
    ensures a == b
  {
    if s != [] { SameTokens(sep, a, b); }
  }

  lemma {:induction false} SameTokens(sep: bytes, a: seq<bytes>, b: seq<bytes>)
    requires sep != [] && a != [] && b != [] && Joined(a, sep) == Joined(b, sep)
    requires Free(a[|a| - 1], sep) && Free(b[|b| - 1], sep)
    requires forall i :: 0 <= i < |a| - 1 ==> Leftmost(a[i], sep)
    requires forall i :: 0 <= i < |b| - 1 ==> Leftmost(b[i], sep)
    ensures a == b
    decreases |a|
  {
    if |a| == 1 && |b| > 1 {
      NoMoreCuts(a[0], b[0], Joined(b[1..], sep), sep);
      assert false;
    } else if |b| == 1 && |a| > 1 {
      NoMoreCuts(b[0], a[0], Joined(a[1..], sep), sep);
      assert false;
    } else if |a| > 1 {
      SameCut(a[0], b[0], Joined(a[1..], sep), Joined(b[1..], sep), sep);
      SameTokens(sep, a[1..], b[1..]);
      assert a == [a[0]] + a[1..] && b == [b[0]] + b[1..];
    }
  }
}
