/**
 The primality test `is_prime` of src/main.rs: trial division by 2, by 3 and by
 the numbers 6k - 1 and 6k + 1 for k = 1, 2, ... while (6k - 1)^2 <= n.

 The argument is a Rust `u32`, so every model of the test requires n < U32_LIMIT.
 Two models are given: IsPrimeAsWritten evaluates the loop guard in `u32` with
 overflow checking, as a debug build does, and reports the overflow panic;
 IsPrime evaluates the guard in 64-bit arithmetic and is correct for every `u32`.
 */
module Primality {

  /** One more than the largest `u32`. */
  const U32_LIMIT: nat := 0x1_0000_0000

  /** One more than the largest `u64`. */
  const U64_LIMIT: nat := 0x1_0000_0000_0000_0000

  /** The last loop counter whose guard product (6k - 1)^2 fits in a `u32`. */
  const LAST_SAFE_K: nat := 10922

  /** 6 * LAST_SAFE_K - 1: the largest divisor of the form 6k - 1 whose square is a `u32`. */
  const LAST_SAFE_DIVISOR: nat := 65531

  /** n is prime: it is at least 2 and no integer strictly between 1 and n divides it. */
  ghost predicate Prime(n: nat)
  {
    n >= 2 && forall d :: 2 <= d < n ==> n % d != 0
  }

  /** No integer in [2, b) divides n. */
  ghost predicate NoDivisorBelow(n: nat, b: int)
  {
    forall d :: 2 <= d < b ==> n % d != 0
  }

  /** The outcome of running the test: a returned answer, or the panic of an overflowing `u32` multiplication. */
  datatype Outcome = Returned(prime: bool) | OverflowPanic

  // ---------------------------------------------------------------------------
  // Arithmetic facts
  // ---------------------------------------------------------------------------

  /** Squaring is monotonic on the naturals. */
  lemma SquareMonotonic(a: nat, b: nat)
    requires a <= b
    ensures a * a <= b * b
  {
    assert a * a <= a * b;
    assert a * b <= b * b;
  }

  /** Every multiple of m leaves remainder 0. */
  lemma MultipleHasNoRemainder(m: nat, t: int)
    requires m > 0
    ensures (m * t) % m == 0
  {
    var q, r := (m * t) / m, (m * t) % m;
    assert m * (t - q) == r by {
      assert m * t == m * q + r;
      assert m * (t - q) == m * t - m * q;
    }
    assert t - q == 0 by {
      if t - q >= 1 { assert false; }
      if t - q <= -1 { assert false; }
    }
  }

  /** A divisor of a divisor of n divides n. */
  lemma DivisorOfDivisor(m: nat, d: nat, n: nat)
    requires m > 0 && d > 0 && d % m == 0 && n % d == 0
    ensures n % m == 0
  {
    var p, q := d / m, n / d;
    assert d == m * p;
    assert n == d * q;
    assert n == m * (p * q);
    MultipleHasNoRemainder(m, p * q);
  }

  /**
   The wheel: every d that is neither 1 nor 5 modulo 6 is a multiple of 2 or of 3,
   which is why the loop only tries 6k - 1 and 6k + 1.
   */
  lemma OffWheelMultipleOfTwoOrThree(d: int)
    requires d % 6 != 1 && d % 6 != 5
    ensures d % 2 == 0 || d % 3 == 0
  {
  }

  /** So once 2 and 3 are ruled out, no d off the wheel can divide n. */
  lemma OffWheelNotDivisor(n: nat, d: nat)
    requires n % 2 != 0 && n % 3 != 0
    requires d >= 2 && d % 6 != 1 && d % 6 != 5
    ensures n % d != 0
  {
    OffWheelMultipleOfTwoOrThree(d);
    if n % d == 0 {
      if d % 2 == 0 {
        DivisorOfDivisor(2, d, n);
      } else {
        DivisorOfDivisor(3, d, n);
      }
      assert false;
    }
  }

  /** Multiplying by a natural number is monotonic. */
  lemma MulMonotonic(a: nat, b: nat, c: nat)
    requires b <= c
    ensures a * b <= a * c
  {
  }

  /** The cofactor n / d of a proper divisor d is itself a proper divisor. */
  lemma Cofactor(n: nat, d: nat) returns (q: nat)
    requires 2 <= d < n && n % d == 0
    ensures q >= 2 && n == d * q && n % q == 0
  {
    q := n / d;
    assert n == d * q;
    assert q >= 2 by {
      if q == 0 { assert false; }
      if q == 1 { assert false; }
    }
    MultipleHasNoRemainder(q, d);
    assert q * d == n;
  }

  /** A number with a proper divisor has one whose square is at most the number. */
  lemma SmallFactor(n: nat, d: nat) returns (e: nat)
    requires 2 <= d < n && n % d == 0
    ensures 2 <= e && e * e <= n && n % e == 0
  {
    var q := Cofactor(n, d);
    if d * d <= n {
      e := d;
    } else {
      // d * d > n == d * q, so q < d and q * q <= q * d == n
      assert q < d by {
        if d <= q {
          MulMonotonic(d, d, q);
          assert false;
        }
      }
      MulMonotonic(q, q, d);
      assert q * d == n;
      e := q;
    }
  }

  /** A divisor strictly between 1 and n shows that n is not prime. */
  lemma NotPrimeByDivisor(n: nat, d: nat)
    requires 2 <= d < n && n % d == 0
    ensures !Prime(n)
  {
  }

  // ---------------------------------------------------------------------------
  // The early exits of `is_prime`, and its reference cases
  // ---------------------------------------------------------------------------

  /**
   The three early exits of the test agree with primality: nothing below 2 is
   prime, 2 and 3 are, and a larger multiple of 2 or of 3 is not.
   */
  lemma PrimeEarlyExits(n: nat)
    ensures n <= 1 ==> !Prime(n)
    ensures n == 2 || n == 3 ==> Prime(n)
    ensures n > 3 && (n % 2 == 0 || n % 3 == 0) ==> !Prime(n)
  {
    if n > 3 && n % 2 == 0 {
      NotPrimeByDivisor(n, 2);
    } else if n > 3 && n % 3 == 0 {
      NotPrimeByDivisor(n, 3);
    }
  }

  /** The two reference cases of the tests: 59 is prime and 100 is not. */
  lemma PrimeReferenceCases()
    ensures Prime(59)
    ensures !Prime(100)
  {
    // one pass of the loop (k = 1 tries 5 and 7), then 11 * 11 > 59 stops it
    NoDivisorNextBlock(59, 1);
    PrimeByTrialDivision(59, 11);
    NotPrimeByDivisor(100, 2);
  }

  // ---------------------------------------------------------------------------
  // The loop of `is_prime`
  // ---------------------------------------------------------------------------

  /**
   One iteration of the loop: if n has no factor 2 or 3, no divisor below 6k - 1,
   and neither 6k - 1 nor 6k + 1 divides it, then it has no divisor below
   6(k + 1) - 1.
   */
  lemma NoDivisorNextBlock(n: nat, k: nat)
    requires k >= 1 && n % 2 != 0 && n % 3 != 0
    requires NoDivisorBelow(n, 6 * k - 1)
    requires n % (6 * k - 1) != 0 && n % (6 * k + 1) != 0
    ensures NoDivisorBelow(n, 6 * (k + 1) - 1)
  {
    forall d | 2 <= d < 6 * (k + 1) - 1
      ensures n % d != 0
    {
      if 6 * k - 1 < d && d != 6 * k + 1 {
        OffWheelNotDivisor(n, d);
      }
    }
  }

  /** When the loop stops, (6k - 1)^2 > n and nothing below 6k - 1 divides n: n is prime. */
  lemma PrimeByTrialDivision(n: nat, b: nat)
    requires n >= 2 && n < b * b && NoDivisorBelow(n, b)
    ensures Prime(n)
  {
    if !Prime(n) {
      var d :| 2 <= d < n && n % d == 0;
      var e := SmallFactor(n, d);
      if b <= e {
        SquareMonotonic(b, e);
      }
      assert false;
    }
  }

  /** Inside the loop, 6k - 1 and 6k + 1 are proper divisor candidates: both lie in [2, n). */
  lemma CandidatesBelowN(n: nat, k: nat)
    requires k >= 1 && (6 * k - 1) * (6 * k - 1) <= n
    ensures 2 <= 6 * k - 1 < 6 * k + 1 < n
  {
    var f := 6 * k - 1;
    assert f * f >= 5 * f;
  }

  /**
   The guard product (6k - 1)^2 fits in a `u32` exactly while k <= LAST_SAFE_K;
   then the divisors 6k - 1 and 6k + 1 fit too.
   */
  lemma GuardFitsU32(k: nat)
    requires k >= 1
    ensures (6 * k - 1) * (6 * k - 1) < U32_LIMIT <==> k <= LAST_SAFE_K
  {
    if k <= LAST_SAFE_K {
      SquareMonotonic(6 * k - 1, LAST_SAFE_DIVISOR);
    } else {
      SquareMonotonic(LAST_SAFE_DIVISOR + 6, 6 * k - 1);
    }
  }

  /** Up to one step past LAST_SAFE_K, the guard product fits in a `u64`. */
  lemma GuardFitsU64(k: nat)
    requires 1 <= k <= LAST_SAFE_K + 1
    ensures (6 * k - 1) * (6 * k - 1) < U64_LIMIT
  {
    SquareMonotonic(6 * k - 1, LAST_SAFE_DIVISOR + 6);
  }

  /**
   `is_prime` with its loop guard evaluated in 64-bit arithmetic: it returns
   true exactly when n is prime, for every `u32` n. Every `u32` operation of
   the loop stays in range and the 64-bit guard product never overflows.
   */
  method IsPrime(n: nat) returns (r: bool)
    requires n < U32_LIMIT
    ensures r == Prime(n)
  {
    if n <= 1 {
      return false;
    }
    if n <= 3 {
      return true;
    }
    if n % 2 == 0 || n % 3 == 0 {
      return false;
    }

    var k: nat := 1;
    GuardFitsU64(k);
    while (6 * k - 1) * (6 * k - 1) <= n
      invariant 1 <= k <= LAST_SAFE_K + 1
      invariant (6 * k - 1) * (6 * k - 1) < U64_LIMIT
      invariant NoDivisorBelow(n, 6 * k - 1)
      decreases LAST_SAFE_K + 1 - k
    {
      GuardFitsU32(k);
      assert 6 * k + 1 < U32_LIMIT;
      CandidatesBelowN(n, k);
      if n % (6 * k - 1) == 0 || n % (6 * k + 1) == 0 {
        return false;
      }
      NoDivisorNextBlock(n, k);
      k := k + 1;
      GuardFitsU64(k);
    }
    PrimeByTrialDivision(n, 6 * k - 1);
    return true;
  }

  /**
   `is_prime` as written: the guard product (6k - 1) * (6k - 1) is a `u32`, and a
   multiplication that leaves the `u32` range panics, as it does in a build with
   overflow checks. When the test answers, the answer is right; it panics exactly
   for the primes n >= LAST_SAFE_DIVISOR^2, which survive every divisor up to
   LAST_SAFE_DIVISOR + 2 and so reach k = LAST_SAFE_K + 1, where (6k - 1)^2 =
   65537^2 exceeds the `u32` range. Below that bound no guard product overflows.
   */
  method IsPrimeAsWritten(n: nat) returns (r: Outcome)
    requires n < U32_LIMIT
    ensures r.Returned? ==> r.prime == Prime(n)
    ensures r == OverflowPanic <==> LAST_SAFE_DIVISOR * LAST_SAFE_DIVISOR <= n && Prime(n)
  {
    if n <= 1 {
      return Returned(false);
    }
    if n <= 3 {
      return Returned(true);
    }
    if n % 2 == 0 || n % 3 == 0 {
      return Returned(false);
    }

    var k: nat := 1;
    while true
      invariant 1 <= k <= LAST_SAFE_K + 1
      invariant NoDivisorBelow(n, 6 * k - 1)
      invariant k > 1 ==> (6 * (k - 1) - 1) * (6 * (k - 1) - 1) <= n
      decreases LAST_SAFE_K + 1 - k
    {
      var square := (6 * k - 1) * (6 * k - 1);
      GuardFitsU32(k);
      if square >= U32_LIMIT {
        // k is LAST_SAFE_K + 1 and the previous guard, LAST_SAFE_DIVISOR^2 <= n, held
        PrimeByTrialDivision(n, 6 * k - 1);
        return OverflowPanic;
      }
      if square > n {
        break;
      }
      assert 6 * k + 1 < U32_LIMIT;
      CandidatesBelowN(n, k);
      if n % (6 * k - 1) == 0 || n % (6 * k + 1) == 0 {
        return Returned(false);
      }
      NoDivisorNextBlock(n, k);
      k := k + 1;
    }
    // the guard failed without overflow, so k <= LAST_SAFE_K and n < LAST_SAFE_DIVISOR^2
    SquareMonotonic(6 * k - 1, LAST_SAFE_DIVISOR);
    PrimeByTrialDivision(n, 6 * k - 1);
    return Returned(true);
  }
}
