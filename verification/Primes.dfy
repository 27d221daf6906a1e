/** The prime tables of the gtest samples: trial division, the sieve, and the hybrid of the two. */
module Primes {
  import opened Arithmetic

  predicate Divides(d: int, n: int)
    requires d > 0
  {
    n % d == 0
  }

  ghost predicate Prime(n: int) {
    n >= 2 && forall d :: 2 <= d < n ==> !Divides(d, n)
  }

  // ---------------------------------------------------------------- number theory

  lemma DivisorPair(d: int, n: int)
    requires 2 <= d < n && Divides(d, n)
    ensures 2 <= n / d < n && Divides(n / d, n) && n == d * (n / d)
  {
    var e := n / d;
    assert n == d * e;
    MulMonotone(2, d, e);
    ModOfProduct(d, e);
  }

  lemma ModOfProduct(a: nat, b: nat)
    requires b > 0
    ensures (a * b) % b == 0
  {
    QuotientIs(a * b, b, a, 0);
  }

  lemma DividesTransitive(a: int, b: int, c: int)
    requires a > 0 && b > 0 && c >= 0 && Divides(a, b) && Divides(b, c)
    ensures Divides(a, c)
  {
    var x, y := b / a, c / b;
    assert b == a * x && c == b * y;
    assert c == (x * y) * a;
    ModOfProduct(x * y, a);
  }

  /** Every number from 2 on has a prime divisor. */
  lemma {:induction false} PrimeDivisor(n: int) returns (p: int)
    requires n >= 2
    ensures Prime(p) && p <= n && Divides(p, n)
    decreases n
  {
    if Prime(n) {
      p := n;
      ModOfProduct(1, n);
    } else {
      var d :| 2 <= d < n && Divides(d, n);
      p := PrimeDivisor(d);
      DividesTransitive(p, d, n);
    }
  }

  function Factorial(n: nat): nat {
    if n == 0 then 1 else n * Factorial(n - 1)
  }

  lemma {:induction false} FactorialDivisible(n: nat, k: nat)
    requires 1 <= k <= n
    ensures Divides(k, Factorial(n)) && Factorial(n) >= 1
  {
    FactorialPositive(n - 1);
    if k == n {
      ModOfProduct(Factorial(n - 1), n);
    } else {
      FactorialDivisible(n - 1, k);
      var x := Factorial(n - 1) / k;
      assert Factorial(n - 1) == k * x;
      assert Factorial(n) == (n * x) * k;
      ModOfProduct(n * x, k);
    }
    FactorialPositive(n);
  }

  lemma {:induction false} FactorialPositive(n: nat)
    ensures Factorial(n) >= 1
  {
    if n > 0 { FactorialPositive(n - 1); }
  }

  /** Euclid: there is a prime above every number. */
  lemma PrimeAbove(n: nat) returns (p: int)
    ensures Prime(p) && n < p <= Factorial(n) + 1
  {
    FactorialPositive(n);
    var f := Factorial(n);
    p := PrimeDivisor(f + 1);
    if p <= n {
      FactorialDivisible(n, p);
      DividesDifference(p, f);
    }
  }

  lemma DividesDifference(p: int, f: int)
    requires p >= 2 && f >= 0 && Divides(p, f)
    ensures !Divides(p, f + 1)
  {
    QuotientIs(f + 1, p, f / p, 1);
  }

  // ---------------------------------------------------------------- trial division

  /** No divisor from 2 up to a bound whose square exceeds `n` means no divisor at all. */
  lemma SquareRootSuffices(n: int, i: int)
    requires n >= 2 && i >= 2 && i * i > n
    requires forall d :: 2 <= d < i && d < n ==> !Divides(d, n)
    ensures Prime(n)
  {
    forall d | 2 <= d < n ensures !Divides(d, n) {
      if d >= i && Divides(d, n) {
        DivisorPair(d, n);
        var e := n / d;
        MulMonotone(i, d, e);
        if e >= i { MulMonotone(i, e, i); }
      }
    }
  }

  /** The smallest prime above `p`. */
  ghost predicate IsNextPrime(r: int, p: int) {
    r > p && Prime(r) && forall k :: p < k < r ==> !Prime(k)
  }

  lemma NextPrimeUnique(r: int, r': int, p: int)
    requires IsNextPrime(r, p) && IsNextPrime(r', p)
    ensures r == r'
  {
  }

  class OnTheFlyPrimeTable {
    constructor () {
    }

    method IsPrime(n: int) returns (prime: bool)
      ensures prime <==> Prime(n)
    {
      if n <= 1 {
        return false;
      }
      var i := 2;
      while i * i <= n
        invariant i >= 2 && forall d :: 2 <= d < i && d < n ==> !Divides(d, n)
        decreases n - i
      {
        assert i < n by { MulMonotone(2, i, i); }
        if n % i == 0 {
          assert Divides(i, n);
          return false;
        }
        i := i + 1;
      }
      SquareRootSuffices(n, i);
      return true;
    }

    /** The search ends because there is a prime above every number; below 0 it does not start. */
    method GetNextPrime(p: int) returns (r: int)
      ensures p >= 0 ==> IsNextPrime(r, p)
      ensures p < 0 ==> r == -1
    {
      var n := p + 1;
      ghost var q := n;
      if p >= 0 {
        q := PrimeAbove(p);
      }
      while n > 0
        invariant p < n <= q && (p < 0 ==> n <= 0) && forall k :: p < k < n ==> !Prime(k)
        decreases q - n
      {
        var prime := IsPrime(n);
        if prime {
          return n;
        }
        n := n + 1;
      }
      return -1;
    }
  }

  // ---------------------------------------------------------------- the sieve

  /** `k` has not been struck out by a prime below `i`. */
  ghost predicate Survives(k: int, i: int) {
    k >= 2 && forall p :: 2 <= p < i && p < k && Prime(p) ==> !Divides(p, k)
  }

  lemma SurvivorsArePrime(k: int)
    ensures Survives(k, k) <==> Prime(k)
  {
    if Survives(k, k) && !Prime(k) {
      var d :| 2 <= d < k && Divides(d, k);
      var p := PrimeDivisor(d);
      DividesTransitive(p, d, k);
    }
  }

  /** Primes not below the number do not matter. */
  lemma SurvivesBeyond(k: int, i: int)
    requires k <= i
    ensures Survives(k, i) <==> Survives(k, k)
  {
  }

  /** Multiples of `i` are `i` apart. */
  lemma NextMultiple(i: int, j: int, k: int)
    requires i >= 2 && j >= i && Divides(i, j) && j < k < j + i
    ensures !Divides(i, k)
    ensures Divides(i, j + i)
  {
    var q := j / i;
    assert j == i * q;
    assert i * q + i == (q + 1) * i;
    QuotientIs(k, i, q, k - j);
    QuotientIs(j + i, i, q + 1, 0);
  }

  class PreCalculatedPrimeTable {
    const isPrimeSize: int
    const isPrime: array<bool>

    ghost predicate Valid()
      reads this, isPrime
    {
      isPrimeSize == isPrime.Length && forall k :: 0 <= k < isPrimeSize ==> (isPrime[k] <==> Prime(k))
    }

    /** `max` is at least 1: the entries for 0 and 1 are cleared one by one. */
    constructor (max: int)
      requires max >= 1
      ensures Valid() && isPrimeSize == max + 1 && fresh(isPrime)
    {
      isPrimeSize := max + 1;
      isPrime := new bool[max + 1];
      new;
      CalculatePrimesUpTo(isPrime, max);
    }

    static method CalculatePrimesUpTo(isPrime: array<bool>, max: int)
      requires max >= 1 && isPrime.Length == max + 1
      modifies isPrime
      ensures forall k :: 0 <= k <= max ==> (isPrime[k] <==> Prime(k))
    {
      forall k | 0 <= k < isPrime.Length {
        isPrime[k] := true;
      }
      isPrime[0] := false;
      isPrime[1] := false;
      var i := 2;
      while i <= max
        invariant 2 <= i <= max + 1
        invariant forall k :: 0 <= k <= max ==> (isPrime[k] <==> Survives(k, i))
      {
        SurvivorsArePrime(i);
        if isPrime[i] {
          StrikeOut(isPrime, max, i);
        }
        forall k | 0 <= k <= max ensures Survives(k, i + 1) <==>
          Survives(k, i) && !(i < k && Prime(i) && Divides(i, k)) {
        }
        i := i + 1;
      }
      forall k | 0 <= k <= max ensures Survives(k, i) <==> Prime(k) {
        SurvivesBeyond(k, i);
        SurvivorsArePrime(k);
      }
    }

    /** The inner loop: clears the entries of all multiples of `i` above it. */
    static method StrikeOut(isPrime: array<bool>, max: int, i: int)
      requires 2 <= i <= max && isPrime.Length == max + 1
      modifies isPrime
      ensures forall k :: 0 <= k <= max ==> (isPrime[k] <==> old(isPrime[k]) && !(i < k && Divides(i, k)))
    {
      var j := 2 * i;
      assert Divides(i, i) && Divides(i, j) by { ModOfProduct(1, i); ModOfProduct(2, i); }
      forall k | i < k < j ensures !Divides(i, k) {
        NextMultiple(i, i, k);
      }
      while j <= max
        invariant j >= 2 * i && Divides(i, j)
        invariant forall k :: 0 <= k <= max ==> (isPrime[k] <==> old(isPrime[k]) && !(i < k < j && Divides(i, k)))
      {
        isPrime[j] := false;
        NextMultiple(i, j, j + 1);
        forall k | j < k < j + i ensures !Divides(i, k) {
          NextMultiple(i, j, k);
        }
        j := j + i;
      }
    }

    method IsPrime(n: int) returns (prime: bool)
      requires Valid()
      ensures prime <==> n < isPrimeSize && Prime(n)
    {
      prime := 0 <= n && n < isPrimeSize && isPrime[n];
    }

    /** The search reads the array from p + 1 on; `inside` is false if it starts before the array. */
    method GetNextPrime(p: int) returns (inside: bool, r: int)
      requires Valid()
      ensures inside <==> p >= -1
      ensures inside && r == -1 ==> forall k :: p < k < isPrimeSize ==> !Prime(k)
      ensures inside && r != -1 ==> r < isPrimeSize && IsNextPrime(r, p)
    {
      var n := p + 1;
      while n < isPrimeSize
        invariant n > p && (p >= -1 || n == p + 1) && forall k :: p < k < n && k < isPrimeSize ==> !Prime(k)
      {
        if n < 0 {
          return false, -1;
        }
        if isPrime[n] {
          return true, n;
        }
        n := n + 1;
      }
      return true, -1;
    }
  }

  // ---------------------------------------------------------------- the hybrid

  class HybridPrimeTable {
    const onTheFlyImpl: OnTheFlyPrimeTable
    const precalcImpl: PreCalculatedPrimeTable?
    const maxPrecalculated: int

    ghost predicate Valid()
      reads this, precalcImpl, if precalcImpl == null then {} else {precalcImpl.isPrime}
    {
      precalcImpl != null ==>
        precalcImpl.Valid() && precalcImpl.isPrimeSize == maxPrecalculated + 1 && maxPrecalculated >= 1
    }

    constructor (forceOnTheFly: bool, maxPrecalculated: int)
      requires !forceOnTheFly ==> maxPrecalculated >= 1
      ensures Valid() && this.maxPrecalculated == maxPrecalculated && (precalcImpl == null <==> forceOnTheFly)
    {
      var onTheFly := new OnTheFlyPrimeTable();
      var precalc: PreCalculatedPrimeTable? := null;
      if !forceOnTheFly {
        precalc := new PreCalculatedPrimeTable(maxPrecalculated);
      }
      onTheFlyImpl, precalcImpl, this.maxPrecalculated := onTheFly, precalc, maxPrecalculated;
    }

    method IsPrime(n: int) returns (prime: bool)
      requires Valid()
      ensures prime <==> Prime(n)
    {
      if precalcImpl != null && n < maxPrecalculated {
        prime := precalcImpl.IsPrime(n);
      } else {
        prime := onTheFlyImpl.IsPrime(n);
      }
    }

    /** Agrees with trial division from 0 on.  For -1 the tables differ: trial division gives up, while
        a table that reaches 2 finds it.  Below, a table is read before its start, and `inside` is
        false. */
    method GetNextPrime(p: int) returns (inside: bool, r: int)
      requires Valid()
      ensures inside <==> p >= -1 || precalcImpl == null
      ensures p >= 0 ==> IsNextPrime(r, p)
      ensures inside && p < 0 ==> r == if precalcImpl != null && maxPrecalculated >= 2 then 2 else -1
    {
      var nextPrime := -1;
      inside := true;
      if precalcImpl != null && p < maxPrecalculated {
        inside, nextPrime := precalcImpl.GetNextPrime(p);
        assert Prime(2);
      }
      if !inside || nextPrime != -1 {
        return inside, nextPrime;
      }
      r := onTheFlyImpl.GetNextPrime(p);
    }
  }
}
