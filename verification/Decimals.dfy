/** Decimal numerals: reading a run of digits and printing a number. */
module Decimals {
  predicate IsDigit(c: char) {
    '0' <= c <= '9'
  }

  function Digit(c: char): nat
    requires IsDigit(c)
  {
    c as int - '0' as int
  }

  predicate AllDigits(text: string, p: nat, q: nat)
    requires p <= q <= |text|
  {
    forall i :: p <= i < q ==> IsDigit(text[i])
  }

  /** The number denoted by the digits from `p` to `q`. */
  function Number(text: string, p: nat, q: nat): nat
    requires p <= q <= |text| && AllDigits(text, p, q)
    decreases q
  {
    if p == q then 0 else 10 * Number(text, p, q - 1) + Digit(text[q - 1])
  }

  lemma {:induction false} NumberMonotone(text: string, p: nat, k: nat, q: nat)
    requires p <= k <= q <= |text| && AllDigits(text, p, q)
    ensures Number(text, p, k) <= Number(text, p, q)
    decreases q
  {
    if k < q { NumberMonotone(text, p, k, q - 1); }
  }

  /** The numeral of `n`, without leading zeros. */
  function Decimal(n: nat): string {
    (if n < 10 then "" else Decimal(n / 10)) + [(n % 10 + '0' as int) as char]
  }

  lemma {:induction false} NumberOfDecimal(n: nat)
    ensures Decimal(n) != "" && AllDigits(Decimal(n), 0, |Decimal(n)|)
    ensures Number(Decimal(n), 0, |Decimal(n)|) == n
  {
    var s := Decimal(n);
    if n >= 10 {
      var t := Decimal(n / 10);
      NumberOfDecimal(n / 10);
      NumberOfPrefix(s, t, 0, |t|);
    }
  }

  lemma {:induction false} NoLeadingZero(n: nat)
    ensures |Decimal(n)| > 1 ==> Decimal(n)[0] != '0'
    ensures n > 0 ==> Decimal(n)[0] != '0'
  {
    if n >= 10 {
      NoLeadingZero(n / 10);
      assert Decimal(n)[0] == Decimal(n / 10)[0];
    }
  }

  /** The digits denote the number, and the first of several is no zero. */
  predicate IsNumeral(s: string, n: nat) {
    && s != "" && AllDigits(s, 0, |s|) && Number(s, 0, |s|) == n
    && (|s| > 1 ==> s[0] != '0')
  }

  lemma DecimalIsNumeral(n: nat)
    ensures IsNumeral(Decimal(n), n)
  {
    NumberOfDecimal(n);
    NoLeadingZero(n);
  }

  lemma {:induction false} ZerosAreZero(zeros: string, n: nat)
    requires n <= |zeros| && forall i :: 0 <= i < |zeros| ==> zeros[i] == '0'
    ensures AllDigits(zeros, 0, n) && Number(zeros, 0, n) == 0
  {
    if n > 0 { ZerosAreZero(zeros, n - 1); }
  }

  /** Zeros in front do not change a number. */
  lemma {:induction false} NumberPadded(zeros: string, s: string, n: nat)
    requires n <= |s| && AllDigits(s, 0, n) && forall i :: 0 <= i < |zeros| ==> zeros[i] == '0'
    ensures var t := zeros + s;
            AllDigits(t, 0, |zeros| + n) && Number(t, 0, |zeros| + n) == Number(s, 0, n)
  {
    var t := zeros + s;
    if n > 0 {
      NumberPadded(zeros, s, n - 1);
      assert t[|zeros| + n - 1] == s[n - 1];
    } else {
      hide Number;
      ZerosAreZero(zeros, |zeros|);
      NumberOfPrefix(t, zeros, 0, |zeros|);
      assert Number(s, 0, 0) == 0 by { NoDigits(s); }
    }
  }

  lemma NoDigits(s: string)
    ensures Number(s, 0, 0) == 0
  {
  }

  /** A number depends only on its digits. */
  lemma {:induction false} NumberOfPrefix(s: string, t: string, p: nat, k: nat)
    requires k <= |t| && p + k <= |s|
    requires AllDigits(t, 0, k) && forall i :: 0 <= i < k ==> s[p + i] == t[i]
    ensures AllDigits(s, p, p + k) && Number(s, p, p + k) == Number(t, 0, k)
    decreases k
  {
    assert forall i :: p <= i < p + k ==> s[i] == t[i - p];
    if k > 0 { NumberOfPrefix(s, t, p, k - 1); }
  }

  /** A number below 10^k has at most k digits. */
  lemma {:induction false} DecimalLength(n: nat, k: nat)
    requires k > 0 && n < Pow10(k)
    ensures |Decimal(n)| <= k
    decreases k
  {
    if n >= 10 { DecimalLength(n / 10, k - 1); }
  }

  function Pow10(k: nat): nat {
    if k == 0 then 1 else 10 * Pow10(k - 1)
  }
}
