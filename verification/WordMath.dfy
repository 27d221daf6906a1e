/** Unsigned 32-bit words as integers: the shifts, the bitwise or, and the comparison and subtraction
    of 64-bit numbers held in two words. */
module WordMath {
  import opened Arithmetic

  const WORD: int := 0x1_0000_0000

  type Word = w: int | 0 <= w < WORD

  function Pow2(k: nat): nat {
    if k == 0 then 1 else 2 * Pow2(k - 1)
  }

  /** The 64-bit number in a pair of words. */
  function Value(hi: Word, lo: Word): nat {
    hi * WORD + lo
  }

  /** The result of an addition or subtraction, reduced to 32 bits. */
  function Wrap(x: int): (w: Word)
    requires -WORD <= x <= WORD
    ensures w == if x < 0 then x + WORD else if x < WORD then x else 0
  {
    x % WORD
  }

  /** `x << k` on 32 bits */
  function Shl(x: Word, k: nat): Word {
    x * Pow2(k) % WORD
  }

  /** `x >> k` */
  function Shr(x: Word, k: nat): (r: Word)
  {
    Pow2Positive(k);
    ShrBound(x, Pow2(k));
    x / Pow2(k)
  }

  /** `a | b`, bit by bit */
  function Or(a: nat, b: nat): nat {
    if a == 0 && b == 0 then 0
    else 2 * Or(a / 2, b / 2) + (if a % 2 == 1 || b % 2 == 1 then 1 else 0)
  }

  lemma {:induction false} Pow2Positive(k: nat)
    ensures Pow2(k) > 0
  {
    if k > 0 { Pow2Positive(k - 1); }
  }

  lemma ShrBound(x: Word, d: nat)
    requires d > 0
    ensures 0 <= x / d < WORD
  {
    assert x / d <= x by {
      assert x == d * (x / d) + x % d;
      if x / d > x { MulMonotone(1, d, x / d); }
    }
  }

  lemma {:induction false} Pow2Sum(a: nat, b: nat)
    ensures Pow2(a + b) == Pow2(a) * Pow2(b)
  {
    if a > 0 {
      Pow2Sum(a - 1, b);
      assert Pow2(a + b) == 2 * Pow2(a - 1 + b) && Pow2(a) == 2 * Pow2(a - 1);
      hide Pow2;
      MulAssociates(2, Pow2(a - 1), Pow2(b));
    }
  }

  lemma Pow2At32()
    ensures Pow2(31) == 0x8000_0000 && Pow2(32) == WORD
  {
    assert Pow2(8) == 256;
    Pow2Sum(8, 8);
    Pow2Sum(16, 16);
  }

  lemma {:induction false} Pow2Monotone(a: nat, b: nat)
    requires a <= b
    ensures Pow2(a) <= Pow2(b)
  {
    if a < b { Pow2Monotone(a, b - 1); }
  }

  /** When the low `k` bits of `a` are clear and `b` has no other bits, or is addition. */
  lemma {:induction false} OrIsSum(a: nat, q: nat, k: nat, b: nat)
    requires a == q * Pow2(k) && b < Pow2(k)
    ensures Or(a, b) == a + b
    decreases k
  {
    if k == 0 {
      OrZero(a);
    } else {
      assert a == 2 * (q * Pow2(k - 1));
      OrIsSum(a / 2, q, k - 1, b / 2);
    }
  }

  /** A shift that loses no bits is multiplication. */
  lemma ShlExact(x: Word, k: nat)
    requires x * Pow2(k) < WORD
    ensures Shl(x, k) == x * Pow2(k)
  {
  }

  lemma {:induction false} OrZero(q: nat)
    ensures Or(q, 0) == q
  {
    if q > 0 { OrZero(q / 2); }
  }
}
