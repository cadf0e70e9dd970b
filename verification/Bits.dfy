/** Unsigned machine words as natural numbers, with the C operators spelled out
    bit by bit.  A word of width w is a nat below Pow2(w). */
module Bits {

  function Pow2(n: nat): (p: nat)
    ensures p >= 1
  {
    if n == 0 then 1 else 2 * Pow2(n - 1)
  }

  /** Bit i of m, counting from the least significant bit. */
  predicate Bit(m: nat, i: nat) {
    if i == 0 then m % 2 == 1 else Bit(m / 2, i - 1)
  }

  function Digit(b: bool): nat { if b then 1 else 0 }

  /** C's a | b, a & b and a ^ b. */
  function Or(a: nat, b: nat): nat {
    if a == 0 && b == 0 then 0
    else Digit(a % 2 == 1 || b % 2 == 1) + 2 * Or(a / 2, b / 2)
  }

  function And(a: nat, b: nat): nat {
    if a == 0 || b == 0 then 0
    else Digit(a % 2 == 1 && b % 2 == 1) + 2 * And(a / 2, b / 2)
  }

  function Xor(a: nat, b: nat): nat {
    if a == 0 && b == 0 then 0
    else Digit((a % 2 == 1) != (b % 2 == 1)) + 2 * Xor(a / 2, b / 2)
  }

  /** C's ~m on a word of width w. */
  function Not(m: nat, w: nat): nat
    requires m < Pow2(w)
  {
    Pow2(w) - 1 - m
  }

  /** A cast to an unsigned type of width w keeps the low w bits. */
  function Low(m: nat, w: nat): (r: nat)
    ensures r < Pow2(w)
  {
    if w == 0 then 0 else m % 2 + 2 * Low(m / 2, w - 1)
  }

  /** C's m << k on a word of width w: the bits shifted out are lost. */
  function Shl(m: nat, k: nat, w: nat): nat { Low(m * Pow2(k), w) }

  lemma {:induction false} BitZero(i: nat)
    ensures !Bit(0, i)
  {
    if i > 0 { BitZero(i - 1); }
  }

  lemma {:induction false} BitOr(a: nat, b: nat, i: nat)
    ensures Bit(Or(a, b), i) == (Bit(a, i) || Bit(b, i))
  {
    if a == 0 && b == 0 { BitZero(i); }
    else if i > 0 { BitOr(a / 2, b / 2, i - 1); }
  }

  lemma {:induction false} BitAnd(a: nat, b: nat, i: nat)
    ensures Bit(And(a, b), i) == (Bit(a, i) && Bit(b, i))
  {
    if a == 0 || b == 0 { BitZero(i); }
    else if i > 0 { BitAnd(a / 2, b / 2, i - 1); }
  }

  lemma {:induction false} BitXor(a: nat, b: nat, i: nat)
    ensures Bit(Xor(a, b), i) == (Bit(a, i) != Bit(b, i))
  {
    if a == 0 && b == 0 { BitZero(i); }
    else if i > 0 { BitXor(a / 2, b / 2, i - 1); }
  }

  lemma {:induction false} BitPow2(k: nat, i: nat)
    ensures Bit(Pow2(k), i) == (i == k)
  {
    if k == 0 { if i > 0 { BitZero(i - 1); } }
    else if i > 0 { BitPow2(k - 1, i - 1); }
  }

  lemma {:induction false} BitMask(k: nat, i: nat)
    ensures Bit(Pow2(k) - 1, i) == (i < k)
  {
    if k == 0 { BitZero(i); }
    else if i > 0 {
      assert (Pow2(k) - 1) / 2 == Pow2(k - 1) - 1;
      BitMask(k - 1, i - 1);
    }
  }

  lemma {:induction false} BitNot(m: nat, w: nat, i: nat)
    requires m < Pow2(w) && i < w
    ensures Bit(Not(m, w), i) == !Bit(m, i)
  {
    if i > 0 {
      assert Not(m, w) / 2 == Not(m / 2, w - 1);
      BitNot(m / 2, w - 1, i - 1);
    }
  }

  lemma {:induction false} BitHigh(m: nat, w: nat, i: nat)
    requires m < Pow2(w) && w <= i
    ensures !Bit(m, i)
  {
    if w == 0 { BitZero(i); } else { BitHigh(m / 2, w - 1, i - 1); }
  }

  lemma {:induction false} BitLow(m: nat, w: nat, i: nat)
    ensures Bit(Low(m, w), i) == (i < w && Bit(m, i))
  {
    if w == 0 {
      BitZero(i);
    } else {
      LowDigit(m, w);
      if i > 0 { BitLow(m / 2, w - 1, i - 1); }
    }
  }

  lemma LowDigit(m: nat, w: nat)
    requires w > 0
    ensures Low(m, w) / 2 == Low(m / 2, w - 1) && Low(m, w) % 2 == m % 2
  {}

  lemma DoubleMul(m: nat, p: nat)
    ensures m * (2 * p) == 2 * (m * p) && (2 * (m * p)) / 2 == m * p && (2 * (m * p)) % 2 == 0
  {
    var mp := m * p;
    assert m * (2 * p) == 2 * mp;
  }

  lemma {:induction false} BitTimesPow2(m: nat, k: nat, i: nat)
    ensures Bit(m * Pow2(k), i) == (i >= k && Bit(m, i - k))
  {
    if k > 0 {
      DoubleMul(m, Pow2(k - 1));
      if i > 0 { BitTimesPow2(m, k - 1, i - 1); }
    }
  }

  lemma BitShl(m: nat, k: nat, w: nat, i: nat)
    ensures Bit(Shl(m, k, w), i) == (k <= i < w && Bit(m, i - k))
  {
    BitLow(m * Pow2(k), w, i);
    BitTimesPow2(m, k, i);
  }

  /** Two words with the same bits are the same word. */
  lemma {:induction false} SameBits(a: nat, b: nat, w: nat)
    requires a < Pow2(w) && b < Pow2(w)
    requires forall i | 0 <= i < w :: Bit(a, i) == Bit(b, i)
    ensures a == b
  {
    if w > 0 {
      assert Bit(a, 0) == Bit(b, 0);
      forall i | 0 <= i < w - 1 ensures Bit(a / 2, i) == Bit(b / 2, i) {
        assert Bit(a, i + 1) == Bit(b, i + 1);
      }
      SameBits(a / 2, b / 2, w - 1);
    }
  }

  lemma {:induction false} OrBound(a: nat, b: nat, w: nat)
    requires a < Pow2(w) && b < Pow2(w)
    ensures Or(a, b) < Pow2(w)
  {
    if w > 0 { OrBound(a / 2, b / 2, w - 1); }
  }

  lemma {:induction false} XorInjective(a: nat, b: nat, c: nat)
    requires Xor(a, c) == Xor(b, c)
    ensures a == b
    decreases a + b + c
  {
    if a + b + c > 0 {
      assert Xor(a, c) / 2 == Xor(a / 2, c / 2) && Xor(b, c) / 2 == Xor(b / 2, c / 2);
      XorInjective(a / 2, b / 2, c / 2);
    }
  }

  lemma {:induction false} XorBound(a: nat, b: nat, w: nat)
    requires a < Pow2(w) && b < Pow2(w)
    ensures Xor(a, b) < Pow2(w)
  {
    if w > 0 { XorBound(a / 2, b / 2, w - 1); }
  }

  lemma {:induction false} AndBound(a: nat, b: nat, w: nat)
    requires b < Pow2(w)
    ensures And(a, b) < Pow2(w)
  {
    if w > 0 { AndBound(a / 2, b / 2, w - 1); }
  }

  lemma Pow2Mono(m: nat, n: nat)
    requires m <= n
    ensures Pow2(m) <= Pow2(n)
  {
    if m < n { Pow2Mono(m, n - 1); }
  }

  lemma {:induction false} LowSmall(m: nat, w: nat)
    requires m < Pow2(w)
    ensures Low(m, w) == m
  {
    if w > 0 { LowSmall(m / 2, w - 1); }
  }

  lemma ShlOne(k: nat, w: nat)
    requires k < w
    ensures Shl(1, k, w) == Pow2(k) < Pow2(w)
  {
    Pow2Mono(k, w - 1);
    assert 1 * Pow2(k) == Pow2(k);
    LowSmall(Pow2(k), w);
  }

  lemma Pow2Of8()
    ensures Pow2(8) == 256
  {
    assert Pow2(4) == 16;
  }
}
