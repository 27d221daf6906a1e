/** The 64-by-64-bit and 64-by-32-bit divisions of securecutil.c, on pairs of 32-bit words.

    The shift-and-subtract blocks of the C function are methods of their own here; each is the same
    long division with a different divisor, and `Partial` is what every step of it keeps. */
module Div64 {
  import opened Options
  import opened Arithmetic
  import opened CStrings
  import opened WordMath

  datatype CompareResult = Great | Equal | Less

  /** SEC_BIT64_COMPARE */
  function Compare64(aHi: Word, aLo: Word, bHi: Word, bLo: Word): (r: CompareResult)
    ensures r == if Value(aHi, aLo) > Value(bHi, bLo) then Great
                 else if Value(aHi, aLo) == Value(bHi, bLo) then Equal else Less
  {
    if aHi > bHi then Great
    else if aHi == bHi && aLo > bLo then Great
    else if aHi == bHi && aLo == bLo then Equal
    else Less
  }

  /** SEC_BIT64_SUB, with the wrap-around of the word arithmetic */
  function Sub64(aHi: Word, aLo: Word, bHi: Word, bLo: Word): (r: (Word, Word))
    ensures Value(aHi, aLo) >= Value(bHi, bLo) ==> Value(r.0, r.1) == Value(aHi, aLo) - Value(bHi, bLo)
  {
    (if aLo < bLo then Wrap(aHi - Wrap(bHi + 1)) else Wrap(aHi - bHi), Wrap(aLo - bLo))
  }

  // ---------------------------------------------------------------- long division

  /** `q` is the quotient so far, still to be shifted left `s` times, and `rem` what is left of `n`. */
  ghost predicate Partial(n: nat, d: nat, q: nat, s: nat, rem: nat) {
    n == q * Pow2(s) * d + rem && rem < d * Pow2(s)
  }

  lemma NextBit(n: nat, d: nat, q: nat, s: nat, rem: nat)
    requires Partial(n, d, q, s + 1, rem)
    ensures rem >= d * Pow2(s) ==> Partial(n, d, 2 * q + 1, s, rem - d * Pow2(s))
    ensures rem < d * Pow2(s) ==> Partial(n, d, 2 * q, s, rem)
  {
    var p := Pow2(s);
    assert Pow2(s + 1) == 2 * p;
    hide Pow2;
    DoubleDigit(q, p, d);
  }

  lemma DoubleDigit(q: nat, p: nat, d: nat)
    ensures d * (2 * p) == 2 * (d * p)
    ensures 2 * q * p * d == q * (2 * p) * d
    ensures (2 * q + 1) * p * d == q * (2 * p) * d + d * p
  {
  }

  /** The shifted-out quotient has a clear bit to receive the next digit, and setting it adds it. */
  lemma SetBit(q: nat, s: nat, word: Word)
    requires s < 32 && word == q * Pow2(s + 1)
    ensures Or(word, Shl(1, s)) == word + Pow2(s) == (2 * q + 1) * Pow2(s)
    ensures word == 2 * q * Pow2(s)
  {
    Pow2At32();
    Pow2Monotone(s, 31);
    Pow2Positive(s);
    ShlExact(1, s);
    OrIsSum(word, q, s + 1, Pow2(s));
    Digits(q, Pow2(s));
  }

  lemma Digits(q: nat, p: nat)
    ensures q * (2 * p) == 2 * q * p
    ensures (2 * q + 1) * p == 2 * q * p + p
  {
  }

  lemma QuotientFits(q: nat, d: nat, n: nat)
    requires q * d <= n < d * WORD
    ensures q < WORD
  {
    if q >= WORD { MulMonotone(WORD, q, d); }
  }

  // ---------------------------------------------------------------- shifted divisors

  lemma SplitShift(x: nat, p: nat, r: nat, w: nat)
    requires r > 0 && p * r == w && w > 0 && x < w
    ensures (x / r) * w + x * p % w == x * p
    ensures x / r < p
  {
    var a, b := x / r, x % r;
    assert x == a * r + b;
    SplitProduct(a, b, p, r);
    MulStrict(b, r, p, w);
    QuotientIs(x * p, w, a, b * p);
    if a >= p { MulMonotone(p, a, r); }
  }

  lemma SplitProduct(a: nat, b: nat, p: nat, r: nat)
    ensures (a * r + b) * p == a * (p * r) + b * p
  {
  }

  lemma MulStrict(b: nat, r: nat, p: nat, w: nat)
    requires b < r && p * r == w && w > 0
    ensures b * p < w
  {
    MulMonotone(b + 1, r, p);
    assert p > 0;
    assert (b + 1) * p == b * p + p;
    assert r * p == p * r;
  }

  lemma Pow2Complement(s: nat)
    requires s <= 32
    ensures Pow2(s) * Pow2(32 - s) == WORD && Pow2(s) > 0 && Pow2(32 - s) > 0
  {
    Pow2At32();
    Pow2Sum(s, 32 - s);
    Pow2Positive(s);
    Pow2Positive(32 - s);
  }

  /** A word shifted left across a word boundary. */
  lemma CarriedShift(x: Word, s: nat)
    requires s <= 32
    ensures Value(Shr(x, 32 - s), Shl(x, s)) == x * Pow2(s)
    ensures Shr(x, 32 - s) < Pow2(s)
  {
    Pow2Complement(s);
    hide Pow2;
    SplitShift(x, Pow2(s), Pow2(32 - s), WORD);
  }

  lemma RoomForCarry(hi: nat, p: nat, r: nat, carry: nat, w: nat)
    requires p * r == w && p > 0 && hi * p < w && carry < p
    ensures hi * p + carry < w
  {
    assert r * p == w;
    if hi >= r { MulMonotone(r, hi, p); }
    MulMonotone(hi + 1, r, p);
    assert (hi + 1) * p == hi * p + p;
    assert r * p == p * r;
  }

  /** The two-word divisor shifted left, when nothing falls off its top. */
  lemma ShiftedPair(hi: Word, lo: Word, s: nat)
    requires s <= 32 && hi * Pow2(s) < WORD
    ensures Or(Shl(hi, s), Shr(lo, 32 - s)) < WORD
    ensures Value(Or(Shl(hi, s), Shr(lo, 32 - s)), Shl(lo, s)) == Value(hi, lo) * Pow2(s)
  {
    CarriedShift(lo, s);
    ShiftedSum(hi, lo, s, Shr(lo, 32 - s), Shl(lo, s));
    ShlExact(hi, s);
    OrIsSum(Shl(hi, s), hi, s, Shr(lo, 32 - s));
  }

  lemma ShiftedSum(hi: nat, lo: nat, s: nat, carry: nat, low: nat)
    requires s <= 32 && hi * Pow2(s) < WORD
    requires carry * WORD + low == lo * Pow2(s) && carry < Pow2(s)
    ensures hi * Pow2(s) + carry < WORD
    ensures (hi * Pow2(s) + carry) * WORD + low == (hi * WORD + lo) * Pow2(s)
  {
    Pow2Complement(s);
    RoomForCarry(hi, Pow2(s), Pow2(32 - s), carry, WORD);
    Distribute(hi, lo, Pow2(s), carry, low, WORD);
  }

  lemma Distribute(hi: nat, lo: nat, p: nat, carry: nat, low: nat, w: nat)
    requires carry * w + low == lo * p
    ensures (hi * p + carry) * w + low == (hi * w + lo) * p
  {
    assert (hi * w + lo) * p == (hi * w) * p + lo * p;
    assert (hi * p + carry) * w == (hi * p) * w + carry * w;
    assert (hi * w) * p == (hi * p) * w;
  }

  // ---------------------------------------------------------------- the blocks of U64Div64

  /** How far a nonzero word can be shifted left before its top bit is set. */
  method ShiftNumber(x: Word) returns (s: nat)
    requires x > 0
    ensures s < 32 && 0x8000_0000 <= x * Pow2(s) < WORD
  {
    hide Shl, Pow2;
    s := 0;
    NotShifted(x);
    while s < 32
      invariant s < 32 && x * Pow2(s) < WORD
    {
      ShiftOn(x, s);
      if Shl(x, s) >= 0x8000_0000 {
        break;
      }
      s := s + 1;
    }
  }

  lemma NotShifted(x: Word)
    ensures x * Pow2(0) < WORD
  {
  }

  /** As long as the top bit is clear there is room for one more shift. */
  lemma ShiftOn(x: Word, s: nat)
    requires x > 0 && s < 32 && x * Pow2(s) < WORD
    ensures Shl(x, s) == x * Pow2(s)
    ensures x * Pow2(s) < 0x8000_0000 ==> s + 1 < 32 && x * Pow2(s + 1) < WORD
  {
    ShlExact(x, s);
    Pow2At32();
    assert Pow2(s + 1) == Pow2(s) * 2;
    hide Shl, Pow2;
    MulAssociates(x, Pow2(s), 2);
    MulMonotone(1, x, Pow2(s));
  }

  /** One digit of the division: compare with the shifted divisor, subtract it if it fits and set
      the digit's bit in the quotient word. */
  method TryDigit(ghost n: nat, ghost d: nat, ghost q: nat, s: nat,
                  quo: Word, remHi: Word, remLo: Word, tHi: Word, tLo: Word)
    returns (quo': Word, remHi': Word, remLo': Word, subtracted: bool, ghost q': nat)
    requires s < 32 && d > 0 && n < d * WORD
    requires quo == q * Pow2(s + 1) && Partial(n, d, q, s + 1, Value(remHi, remLo))
    requires Value(tHi, tLo) == d * Pow2(s)
    ensures subtracted <==> Value(remHi, remLo) >= Value(tHi, tLo)
    ensures Value(remHi', remLo') == Value(remHi, remLo) - (if subtracted then Value(tHi, tLo) else 0)
    ensures quo' == quo + (if subtracted then Pow2(s) else 0)
    ensures quo' == q' * Pow2(s) && Partial(n, d, q', s, Value(remHi', remLo'))
  {
    NextBit(n, d, q, s, Value(remHi, remLo));
    SetBit(q, s, quo);
    if Compare64(remHi, remLo, tHi, tLo) != Less {
      var rem := Sub64(remHi, remLo, tHi, tLo);
      subtracted, q' := true, 2 * q + 1;
      QuotientFits(q' * Pow2(s), d, n);
      quo', remHi', remLo' := Or(quo, Shl(1, s)), rem.0, rem.1;
    } else {
      subtracted, q' := false, 2 * q;
      quo', remHi', remLo' := quo, remHi, remLo;
    }
  }

  lemma Finished(n: nat, d: nat, q: nat, s: nat, rem: nat)
    requires Partial(n, d, q, s, rem) && d > 0
    requires s == 0 || rem == 0
    ensures n == q * Pow2(s) * d + rem && rem < d
  {
  }

  /** Long division by a divisor of more than one word: every quotient bit is in the low word. */
  method DivideWide(nHi: Word, nLo: Word, dHi: Word, dLo: Word, shift: nat)
    returns (quoLo: Word, remHi: Word, remLo: Word)
    requires dHi > 0 && shift < 32 && 0x8000_0000 <= dHi * Pow2(shift) < WORD
    ensures Value(nHi, nLo) == quoLo * Value(dHi, dLo) + Value(remHi, remLo)
    ensures Value(remHi, remLo) < Value(dHi, dLo)
  {
    ghost var n, d := Value(nHi, nLo), Value(dHi, dLo);
    ghost var q: nat := 0;
    quoLo, remHi, remLo := 0, nHi, nLo;
    TopBitSet(n, dHi, dLo, shift);
    var s: int := shift;
    while s >= 0
      invariant -1 <= s <= shift
      invariant quoLo == q * Pow2(s + 1)
      invariant Partial(n, d, q, s + 1, Value(remHi, remLo))
    {
      ShiftStays(dHi, s, shift);
      ShiftedPair(dHi, dLo, s);
      ShiftByZero(dHi, dLo);
      var tHi: Word := if s == 0 then dHi else Or(Shl(dHi, s), Shr(dLo, 32 - s));
      var subtracted;
      quoLo, remHi, remLo, subtracted, q := TryDigit(n, d, q, s, quoLo, remHi, remLo, tHi, Shl(dLo, s));
      if subtracted && remHi == 0 && remLo == 0 {
        Finished(n, d, q, s, 0);
        return;
      }
      s := s - 1;
    }
    Finished(n, d, q, 0, Value(remHi, remLo));
  }

  /** The high quotient word of a division by a single word `d`: divides by `d` times 2^32. */
  method DivideHighWord(nHi: Word, nLo: Word, dLo: Word, shift: nat)
    returns (quoHi: Word, remHi: Word, remLo: Word)
    requires dLo > 0 && shift < 32 && 0x8000_0000 <= dLo * Pow2(shift) < WORD
    ensures Value(nHi, nLo) == quoHi * (dLo * WORD) + Value(remHi, remLo)
    ensures Value(remHi, remLo) < dLo * WORD
  {
    ghost var n, d := Value(nHi, nLo), Value(dLo, 0);
    ghost var q: nat := 0;
    quoHi, remHi, remLo := 0, nHi, nLo;
    TopBitSet(n, dLo, 0, shift);
    var s: int := shift;
    while s >= 0
      invariant -1 <= s <= shift
      invariant quoHi == q * Pow2(s + 1)
      invariant Partial(n, d, q, s + 1, Value(remHi, remLo))
    {
      ShiftStays(dLo, s, shift);
      HighShift(dLo, s);
      var subtracted;
      quoHi, remHi, remLo, subtracted, q := TryDigit(n, d, q, s, quoHi, remHi, remLo, Shl(dLo, s), 0);
      if subtracted && remHi == 0 && remLo == 0 {
        Finished(n, d, q, s, 0);
        return;
      }
      s := s - 1;
    }
    Finished(n, d, q, 0, Value(remHi, remLo));
  }

  /** The low quotient word of a division by a single word. */
  method DivideLowWord(nHi: Word, nLo: Word, dLo: Word) returns (quoLo: Word, remHi: Word, remLo: Word)
    requires dLo > 0 && Value(nHi, nLo) < dLo * WORD
    ensures Value(nHi, nLo) == quoLo * dLo + Value(remHi, remLo)
    ensures Value(remHi, remLo) < dLo
  {
    ghost var n := Value(nHi, nLo);
    ghost var q: nat := 0;
    quoLo, remHi, remLo := 0, nHi, nLo;
    Pow2At32();
    assert Partial(n, dLo, 0, 32, n);
    var s: int := 31;
    while s >= 0
      invariant -1 <= s <= 31
      invariant quoLo == q * Pow2(s + 1)
      invariant Partial(n, dLo, q, s + 1, Value(remHi, remLo))
    {
      CarriedShift(dLo, s);
      ZeroHigh(dLo);
      var tHi: Word := if s == 0 then 0 else Shr(dLo, 32 - s);
      var subtracted;
      quoLo, remHi, remLo, subtracted, q := TryDigit(n, dLo, q, s, quoLo, remHi, remLo, tHi, Shl(dLo, s));
      if subtracted && remHi == 0 && remLo == 0 {
        Finished(n, dLo, q, s, 0);
        return;
      }
      s := s - 1;
    }
    Finished(n, dLo, q, 0, Value(remHi, remLo));
  }

  lemma ShiftByZero(hi: Word, lo: Word)
    ensures Value(hi, Shl(lo, 0)) == Value(hi, lo) * Pow2(0)
  {
  }

  lemma ZeroHigh(lo: Word)
    ensures Value(0, Shl(lo, 0)) == lo * Pow2(0)
  {
  }

  lemma HighShift(x: Word, s: nat)
    requires x * Pow2(s) < WORD
    ensures Value(Shl(x, s), 0) == Value(x, 0) * Pow2(s)
  {
    ShlExact(x, s);
    assert (x * WORD) * Pow2(s) == (x * Pow2(s)) * WORD;
  }

  // ---------------------------------------------------------------- the two divisions

  /** U64Div64.  `quotientOut` and `remainderOut` say whether the two pairs of result pointers are
      non-null; a pair that is null is not written. */
  method U64Div64(dividendHigh: Word, dividendLow: Word, divisorHigh: Word, divisorLow: Word,
                  quotientOut: bool, remainderOut: bool)
    returns (status: int, quotient: Option<(Word, Word)>, remainder: Option<(Word, Word)>)
    ensures status == 0 <==> quotientOut && Value(divisorHigh, divisorLow) != 0
    ensures status != 0 ==> status == -1 && quotient.None? && remainder.None?
    ensures status == 0 ==> quotient.Some? && (remainder.Some? <==> remainderOut)
    ensures status == 0 ==>
      var n, d := Value(dividendHigh, dividendLow), Value(divisorHigh, divisorLow);
      && Value(quotient.value.0, quotient.value.1) == n / d
      && (remainderOut ==> Value(remainder.value.0, remainder.value.1) == n % d)
  {
    quotient, remainder := None, None;
    if !quotientOut {
      return -1, None, None;
    }
    if divisorHigh == 0 {
      if divisorLow == 0 {
        return -1, None, None;
      } else if divisorLow == 1 {
        return 0, Some((dividendHigh, dividendLow)), if remainderOut then Some((0, 0)) else None;
      }
    }
    ghost var n, d := Value(dividendHigh, dividendLow), Value(divisorHigh, divisorLow);
    var quoHi, quoLo: Word := 0, 0;
    var remHi, remLo := dividendHigh, dividendLow;
    var order := Compare64(dividendHigh, dividendLow, divisorHigh, divisorLow);
    if order == Equal {
      QuotientIs(n, d, 1, 0);
      return 0, Some((0, 1)), if remainderOut then Some((0, 0)) else None;
    } else if order == Great {
      if divisorHigh > 0 {
        var shift := ShiftNumber(divisorHigh);
        quoLo, remHi, remLo := DivideWide(dividendHigh, dividendLow, divisorHigh, divisorLow, shift);
      } else {
        var shift := ShiftNumber(divisorLow);
        quoHi, remHi, remLo := DivideHighWord(dividendHigh, dividendLow, divisorLow, shift);
        assert n == quoHi * (d * WORD) + Value(remHi, remLo);
        ghost var high := Value(remHi, remLo);
        if !(remHi == 0 && remLo == 0) {
          quoLo, remHi, remLo := DivideLowWord(remHi, remLo, divisorLow);
        }
        JoinQuotient(n, d, quoHi, quoLo, high, Value(remHi, remLo));
      }
    }
    QuotientIs(n, d, Value(quoHi, quoLo), Value(remHi, remLo));
    return 0, Some((quoHi, quoLo)), if remainderOut then Some((remHi, remLo)) else None;
  }

  lemma JoinQuotient(n: nat, d: nat, quoHi: Word, quoLo: Word, high: nat, rem: nat)
    requires n == quoHi * (d * WORD) + high && high == quoLo * d + rem
    ensures n == Value(quoHi, quoLo) * d + rem
  {
    assert (quoHi * WORD + quoLo) * d == quoHi * (d * WORD) + quoLo * d;
  }

  /** U64Div32: the remainder always fits the one word it is given, so the check on its high word
      never fails. */
  method U64Div32(dividendHigh: Word, dividendLow: Word, divisor: Word, quotientOut: bool, remainderOut: bool)
    returns (status: int, quotient: Option<(Word, Word)>, remainder: Option<Word>)
    ensures status == 0 <==> quotientOut && remainderOut && divisor != 0
    ensures status != 0 ==> status == -1
    ensures status == 0 ==>
      var n := Value(dividendHigh, dividendLow);
      && quotient.Some? && Value(quotient.value.0, quotient.value.1) == n / divisor
      && remainder == Some(n % divisor)
  {
    quotient, remainder := None, None;
    if !quotientOut || divisor == 0 || !remainderOut {
      return -1, None, None;
    }
    var rem64;
    status, quotient, rem64 := U64Div64(dividendHigh, dividendLow, 0, divisor, true, true);
    if status != 0 {
      return;
    }
    if rem64.value.0 != 0 {
      return -1, quotient, None;
    }
    remainder := Some(rem64.value.1);
  }

  lemma ShiftStays(x: Word, s: nat, t: nat)
    requires s <= t && x * Pow2(t) < WORD
    ensures x * Pow2(s) < WORD
  {
    Pow2Monotone(s, t);
    MulMonotone(Pow2(s), Pow2(t), x);
  }

  lemma Halves(hi: nat, lo: nat, p: nat, w: nat)
    ensures (hi * w + lo) * p >= (hi * p) * w
  {
    assert (hi * w + lo) * p == (hi * p) * w + lo * p;
  }

  /** A divisor shifted until its top bit is set exceeds half of every dividend. */
  lemma TopBitSet(n: nat, dHi: Word, dLo: Word, s: nat)
    requires n < WORD * WORD && dHi * Pow2(s) >= 0x8000_0000
    ensures Partial(n, Value(dHi, dLo), 0, s + 1, n)
  {
    Halves(dHi, dLo, Pow2(s), WORD);
    assert Value(dHi, dLo) * Pow2(s + 1) == 2 * (Value(dHi, dLo) * Pow2(s));
  }
}
