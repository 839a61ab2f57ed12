/**
  Unbounded-integer readings of the bit operations the VarInt decoder uses:
  powers of two, left shift and bitwise OR on naturals.
 */
module Bits {

  /** 2 to the power `n`. */
  function Pow2(n: nat): (r: nat)
    ensures r >= 1
  {
    if n == 0 then 1 else 2 * Pow2(n - 1)
  }

  /** `x << n` on a value whose shifted bits all stay inside the integer's width. */
  function Shl(x: nat, n: nat): nat
  {
    x * Pow2(n)
  }

  /** Bitwise OR of two naturals, one binary digit at a time from the low end. */
  function BitOr(a: nat, b: nat): nat
    decreases a + b
  {
    if a == 0 then b
    else if b == 0 then a
    else 2 * BitOr(a / 2, b / 2) + (if a % 2 == 1 || b % 2 == 1 then 1 else 0)
  }

  lemma {:induction false} Pow2Add(a: nat, b: nat)
    ensures Pow2(a + b) == Pow2(a) * Pow2(b)
    decreases a
  {
    if a > 0 {
      Pow2Add(a - 1, b);
    }
  }

  lemma {:induction false} Pow2Monotone(a: nat, b: nat)
    requires a <= b
    ensures Pow2(a) <= Pow2(b)
    decreases b
  {
    if a < b {
      Pow2Monotone(a, b - 1);
    }
  }

  /** Shifting by one more place doubles. */
  lemma ShlStep(g: nat, k: nat)
    requires 0 < k
    ensures Shl(g, k) == 2 * Shl(g, k - 1)
    ensures 0 < g ==> 0 < Shl(g, k - 1)
  {
    assert g * (2 * Pow2(k - 1)) == 2 * (g * Pow2(k - 1));
  }

  /** OR with an even number keeps the low bit of the other operand. */
  lemma BitOrEven(a: nat, h: nat)
    requires 0 < a && 0 < h
    ensures BitOr(a, 2 * h) == 2 * BitOr(a / 2, h) + a % 2
  {
    assert (2 * h) / 2 == h && (2 * h) % 2 == 0;
  }

  /**
    OR-ing a value below 2^k with a multiple of 2^k is addition: the two have
    no bit in common.
   */
  lemma {:induction false} OrDisjointIsAdd(a: nat, g: nat, k: nat)
    requires a < Pow2(k)
    ensures BitOr(a, Shl(g, k)) == a + Shl(g, k)
    decreases k
  {
    if k == 0 {
      assert a == 0;
    } else if g == 0 {
      assert Shl(g, k) == 0;
    } else if 0 < a {
      ShlStep(g, k);
      var h := Shl(g, k - 1);
      OrDisjointIsAdd(a / 2, g, k - 1);
      BitOrEven(a, h);
    }
  }
}
