/** Table sizes that are powers of two, and hashes cut down to them. */
module Masks {
  const INITIAL_SIZE: nat := 4

  function Pow2(k: nat): (p: nat)
    ensures p >= 1
  {
    if k == 0 then 1 else 2 * Pow2(k - 1)
  }

  /** Bitwise conjunction. */
  function And(a: nat, b: nat): nat
    decreases a
  {
    if a == 0 || b == 0 then 0 else 2 * And(a / 2, b / 2) + (if a % 2 == 1 && b % 2 == 1 then 1 else 0)
  }

  lemma {:induction false} AndAtMost(a: nat, b: nat)
    ensures And(a, b) <= b
    decreases a
  {
    if a == 0 || b == 0 {
    } else {
      AndAtMost(a / 2, b / 2);
    }
  }

  /** Masking with a power of two minus one leaves the remainder of the division by it. */
  lemma {:induction false} AndMask(a: nat, k: nat) returns (q: nat)
    ensures And(a, Pow2(k) - 1) < Pow2(k) && a == q * Pow2(k) + And(a, Pow2(k) - 1)
    decreases k
  {
    if k == 0 || a == 0 {
      q := a;
    } else {
      var p := Pow2(k - 1);
      q := AndMask(a / 2, k - 1);
      AndOdd(a, p - 1);
      Doubled(a, q, p, And(a / 2, p - 1));
    }
  }

  lemma AndOdd(a: nat, b: nat)
    ensures And(a, 2 * b + 1) == 2 * And(a / 2, b) + a % 2
  {
    assert (2 * b + 1) / 2 == b && (2 * b + 1) % 2 == 1;
  }

  lemma Doubled(a: nat, q: nat, p: nat, r: nat)
    requires a / 2 == q * p + r && r < p
    ensures 2 * r + a % 2 < 2 * p && a == q * (2 * p) + (2 * r + a % 2)
  {
    assert q * (2 * p) == 2 * (q * p);
  }

  /** The smallest table size that is a power of two and holds `size` entries. */
  method NextPower(size: nat) returns (i: nat, ghost k: nat)
    ensures i == Pow2(k) && k >= 2 && i >= size
    ensures k > 2 ==> Pow2(k - 1) < size
  {
    i, k := INITIAL_SIZE, 2;
    assert Pow2(2) == 4;
    while i < size
      invariant i == Pow2(k) && k >= 2 && (k > 2 ==> Pow2(k - 1) < size)
      decreases size - i
    {
      i := i * 2;
      k := k + 1;
    }
  }

  lemma {:induction false} Pow2Grows(a: nat, b: nat)
    requires a <= b
    ensures Pow2(a) <= Pow2(b)
    decreases b
  {
    if a == b {
    } else {
      Pow2Grows(a, b - 1);
    }
  }

  /** The smallest power that covers a power is that power. */
  lemma SamePower(k: nat, c: nat)
    requires k >= 2 && c >= 2 && Pow2(k) >= Pow2(c) && (k > 2 ==> Pow2(k - 1) < Pow2(c))
    ensures k == c
  {
    if k < c {
      Pow2Grows(k, c - 1);
    } else if k > c {
      Pow2Grows(c, k - 1);
    }
  }
}
