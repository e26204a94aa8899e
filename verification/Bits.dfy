/** Go's bit operations on unsigned words, bit by bit on naturals, and the arithmetic they amount to. */
module Bits {

  function TwoTo(k: nat): (p: nat)
    ensures p > 0
  {
    if k == 0 then 1 else 2 * TwoTo(k - 1)
  }

  /** a & b */
  function And(a: nat, b: nat): nat {
    if a == 0 || b == 0 then 0 else 2 * And(a / 2, b / 2) + (if a % 2 == 1 && b % 2 == 1 then 1 else 0)
  }

  /** a | b */
  function Or(a: nat, b: nat): nat {
    if a == 0 && b == 0 then 0 else 2 * Or(a / 2, b / 2) + (if a % 2 == 1 || b % 2 == 1 then 1 else 0)
  }

  /** a << k, nothing shifted out */
  function Shl(a: nat, k: nat): nat {
    if k == 0 then a else 2 * Shl(a, k - 1)
  }

  /** a >> k */
  function Shr(a: nat, k: nat): nat
    decreases k
  {
    if k == 0 then a else Shr(a / 2, k - 1)
  }

  lemma {:induction false} ShlTimes(a: nat, k: nat)
    ensures Shl(a, k) == a * TwoTo(k)
  {
    if k > 0 {
      ShlTimes(a, k - 1);
      assert a * (2 * TwoTo(k - 1)) == 2 * (a * TwoTo(k - 1));
    }
  }

  lemma {:induction false} OrZero(a: nat)
    ensures Or(a, 0) == a
  {
    if a != 0 { OrZero(a / 2); }
  }

  lemma {:induction false} OrBound(a: nat, b: nat, k: nat)
    requires a < TwoTo(k) && b < TwoTo(k)
    ensures Or(a, b) < TwoTo(k)
    decreases k
  {
    if k > 0 && (a != 0 || b != 0) { OrBound(a / 2, b / 2, k - 1); }
  }

  /** Bits above position k and bits below it never overlap: or-ing them is adding them. */
  lemma {:induction false} OrApart(a: nat, k: nat, b: nat)
    requires b < TwoTo(k)
    ensures Or(Shl(a, k), b) == Shl(a, k) + b
  {
    if k == 0 {
      OrZero(a);
    } else {
      OrApart(a, k - 1, b / 2);
    }
  }

  lemma Halves(a: nat, b: nat)
    ensures (2 * a + b) / 2 == a + b / 2 && (2 * a + b) % 2 == b % 2
  {
  }

  /** One step of masking with k ones. */
  lemma MaskStep(a: nat, k: nat)
    requires k > 0
    ensures And(a, TwoTo(k) - 1) == 2 * And(a / 2, TwoTo(k - 1) - 1) + a % 2
  {
    Halves(TwoTo(k - 1) - 1, 1);
  }

  /** The low k bits. */
  lemma {:induction false} LowBits(a: nat, k: nat)
    ensures And(a, TwoTo(k) - 1) < TwoTo(k)
    ensures a == Shl(Shr(a, k), k) + And(a, TwoTo(k) - 1)
    decreases k
  {
    if k > 0 {
      LowBits(a / 2, k - 1);
      MaskStep(a, k);
    }
  }

  /** Shifting and masking take apart what shifting and adding put together. */
  lemma {:induction false} Apart(a: nat, k: nat, b: nat)
    requires b < TwoTo(k)
    ensures Shr(Shl(a, k) + b, k) == a
    ensures And(Shl(a, k) + b, TwoTo(k) - 1) == b
    decreases k
  {
    if k > 0 {
      hide And;
      Halves(Shl(a, k - 1), b);
      Apart(a, k - 1, b / 2);
      MaskStep(Shl(a, k) + b, k);
    }
  }

  /** A mask of n ones above k zeros clears the low k bits of a word of n + k bits. */
  lemma {:induction false} HighBits(a: nat, n: nat, k: nat)
    requires a < TwoTo(n + k)
    ensures And(a, Shl(TwoTo(n) - 1, k)) == Shl(Shr(a, k), k)
    decreases k
  {
    if k == 0 {
      ShlTimes(0, n);
      Apart(0, n, a);
    } else {
      HighBits(a / 2, n, k - 1);
      assert a / 2 < TwoTo(n + (k - 1));
    }
  }
}
