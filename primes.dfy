/** Trial-division enumeration of the first n primes (src/utils/generatePrimes.ts). */
module Primes {

  /** d divides n (d is never 0 here; the guard keeps `%` well defined). */
  predicate Divides(d: nat, n: nat) {
    d != 0 && n % d == 0
  }

  /** n is prime: at least 2, and no d with 2 <= d < n divides it. */
  predicate IsPrime(n: nat) {
    n >= 2 && forall d :: 2 <= d < n ==> !Divides(d, n)
  }

  predicate AllPrime(s: seq<nat>) {
    forall k :: 0 <= k < |s| ==> IsPrime(s[k])
  }

  predicate StrictlyIncreasing(s: seq<nat>) {
    forall i, j :: 0 <= i < j < |s| ==> s[i] < s[j]
  }

  /** Every prime not above the last element of s occurs in s. */
  predicate NoPrimeSkipped(s: seq<nat>) {
    forall p :: IsPrime(p) && |s| > 0 && p <= s[|s| - 1] ==> p in s
  }

  /** s is exactly the first n primes, in ascending order. */
  ghost predicate IsFirstPrimes(s: seq<nat>, n: nat) {
    |s| == n && AllPrime(s) && StrictlyIncreasing(s) && NoPrimeSkipped(s)
  }

  // ---------------------------------------------------------------------------
  // Divisibility facts

  lemma SmallMultipleIsZero(d: int, e: int)
    requires d > 0 && -d < d * e < d
    ensures e == 0
  {
  }

  /** Euclidean division of d * x + r by d, when 0 <= r < d. */
  lemma DivModOfMultiplePlus(d: nat, x: nat, r: nat)
    requires r < d
    ensures (d * x + r) % d == r && (d * x + r) / d == x
  {
    var n := d * x + r;
    var k: int := n / d;
    assert d * (x - k) == n % d - r;
    SmallMultipleIsZero(d, x - k);
  }

  lemma MultipleDivides(d: nat, q: nat)
    requires d > 0
    ensures Divides(d, d * q)
  {
    DivModOfMultiplePlus(d, q, 0);
  }

  lemma MultipleDividesLeft(d: nat, q: nat)
    requires d > 0
    ensures Divides(d, q * d)
  {
    MultipleDivides(d, q);
    assert q * d == d * q;
  }

  /** Both factors of a divisor p * q divide n. */
  lemma FactorsDivide(p: nat, q: nat, n: nat)
    requires Divides(p * q, n)
    ensures Divides(p, n) && Divides(q, n)
  {
    MultipleDivides(p, q);
    MultipleDividesLeft(q, p);
    DividesTransitive(p, p * q, n);
    DividesTransitive(q, p * q, n);
  }

  lemma DividesTransitive(e: nat, d: nat, n: nat)
    requires Divides(e, d) && Divides(d, n)
    ensures Divides(e, n)
  {
    var a := d / e;
    var b := n / d;
    assert d == e * a;
    assert n == d * b;
    assert n == e * (a * b);
    MultipleDivides(e, a * b);
  }

  /** No d >= 2 divides both a and a + 1. */
  lemma NotDividesSuccessor(d: nat, a: nat)
    requires d >= 2 && Divides(d, a)
    ensures !Divides(d, a + 1)
  {
    var x := a / d;
    assert a == d * x;
    DivModOfMultiplePlus(d, x, 1);
  }

  // ---------------------------------------------------------------------------
  // There is always a larger prime (termination of GeneratePrimes)

  function Factorial(m: nat): (r: nat)
    ensures r >= 1
  {
    if m == 0 then 1 else m * Factorial(m - 1)
  }

  lemma {:induction false} FactorialDivisible(m: nat, k: nat)
    requires 1 <= k <= m
    ensures Divides(k, Factorial(m))
  {
    MultipleDivides(m, Factorial(m - 1));
    if k < m {
      FactorialDivisible(m - 1, k);
      assert Factorial(m) == Factorial(m - 1) * m;
      MultipleDivides(Factorial(m - 1), m);
      DividesTransitive(k, Factorial(m - 1), Factorial(m));
    }
  }

  /** The least divisor of n that is at least k, given none in [2, k) divides n. */
  lemma {:induction false} LeastDivisorFrom(n: nat, k: nat) returns (p: nat)
    requires 2 <= k <= n
    requires forall d :: 2 <= d < k ==> !Divides(d, n)
    ensures k <= p <= n && Divides(p, n) && IsPrime(p)
    decreases n - k
  {
    if Divides(k, n) {
      p := k;
      forall d | 2 <= d < p ensures !Divides(d, p) {
        if Divides(d, p) {
          DividesTransitive(d, p, n);
        }
      }
    } else {
      assert k != n by { MultipleDivides(n, 1); }
      p := LeastDivisorFrom(n, k + 1);
    }
  }

  /** Euclid: some prime lies in (m, m! + 1]. */
  lemma PrimeAbove(m: nat) returns (p: nat)
    ensures IsPrime(p) && m < p <= Factorial(m) + 1
  {
    var n := Factorial(m) + 1;
    p := LeastDivisorFrom(n, 2);
    if p <= m {
      FactorialDivisible(m, p);
      NotDividesSuccessor(p, Factorial(m));
    }
  }

  // ---------------------------------------------------------------------------
  // The trial-division test

  lemma ProductAboveFactor(d: nat, q: nat)
    requires d * q > d
    ensures q >= 2
  {
  }

  lemma MulMonotone(a: nat, b: nat, c: nat)
    requires a <= b
    ensures a * c <= b * c
  {
  }

  lemma MulCancelLess(i: nat, q: nat)
    requires i * q < i * i
    ensures q < i
  {
  }

  lemma CofactorOfLargeFactor(i: nat, d: nat, q: nat)
    requires d >= i && d * q < i * i
    ensures q < i
  {
    MulMonotone(i, d, q);
    MulCancelLess(i, q);
  }

  /** A divisor d >= i of n, where i * i > n, leaves a cofactor below i. */
  lemma CofactorBelow(n: nat, d: nat, i: nat)
    requires 2 <= d < n && Divides(d, n) && i * i > n && d >= i
    ensures 2 <= n / d < i && Divides(n / d, n)
  {
    var q := n / d;
    assert n == d * q;
    ProductAboveFactor(d, q);
    CofactorOfLargeFactor(i, d, q);
    MultipleDivides(q, d);
    assert q * d == n;
  }

  /** When no d with 2 <= d < i divides n and i * i > n, n is prime. */
  lemma NoSmallDivisorIsPrime(n: nat, i: nat)
    requires n >= 2 && i >= 2 && i * i > n
    requires forall d :: 2 <= d < i ==> !Divides(d, n)
    ensures IsPrime(n)
  {
    forall d | 2 <= d < n ensures !Divides(d, n) {
      if Divides(d, n) && d >= i {
        CofactorBelow(n, d, i);
      }
    }
  }

  /** A divisor i with 2 <= i and i * i <= n shows n is not prime. */
  lemma SmallDivisorNotPrime(n: nat, i: nat)
    requires i >= 2 && i * i <= n && Divides(i, n)
    ensures !IsPrime(n)
  {
    assert i < n by {
      assert i * i >= 2 * i;
    }
  }

  // ---------------------------------------------------------------------------
  // generatePrimes

  /**
   * The first n primes in ascending order, found by trying currentNum = 2, 3, ...
   * and dividing by every i with i * i <= currentNum.
   */
  method GeneratePrimes(n: nat) returns (primes: seq<nat>)
    ensures |primes| == n
    ensures AllPrime(primes)
    ensures StrictlyIncreasing(primes)
    ensures n > 0 ==> primes[0] == 2
    ensures NoPrimeSkipped(primes)
  {
    primes := [];
    var currentNum := 2;
    ghost var nextPrime := 2;
    while |primes| < n
      invariant |primes| <= n
      invariant 2 <= currentNum <= nextPrime && IsPrime(nextPrime)
      invariant AllPrime(primes) && StrictlyIncreasing(primes)
      invariant forall k :: 0 <= k < |primes| ==> primes[k] < currentNum
      invariant forall p :: IsPrime(p) && p < currentNum ==> p in primes
      decreases n - |primes|, nextPrime - currentNum
    {
      var isPrime := true;
      var i := 2;
      while i * i <= currentNum
        invariant 2 <= i <= currentNum
        invariant isPrime
        invariant forall d :: 2 <= d < i ==> !Divides(d, currentNum)
        decreases currentNum - i
      {
        if currentNum % i == 0 {
          SmallDivisorNotPrime(currentNum, i);
          isPrime := false;
          break;
        }
        assert i * i >= 2 * i;
        i := i + 1;
      }
      if isPrime {
        NoSmallDivisorIsPrime(currentNum, i);
        primes := primes + [currentNum];
        nextPrime := PrimeAbove(currentNum);
      }
      currentNum := currentNum + 1;
    }
    assert n > 0 ==> primes[0] == 2 by {
      if n > 0 {
        assert IsPrime(2) && IsPrime(primes[0]) && 2 <= primes[0] < currentNum;
        var k :| 0 <= k < |primes| && primes[k] == 2;
      }
    }
  }

  // ---------------------------------------------------------------------------
  // Uniqueness: the specification pins the result down completely

  lemma {:induction false} FirstPrimesAgreeAt(a: seq<nat>, b: seq<nat>, k: nat)
    requires IsFirstPrimes(a, |a|) && IsFirstPrimes(b, |a|)
    requires k < |a|
    ensures a[k] == b[k]
    decreases k
  {
    forall j | 0 <= j < k ensures a[j] == b[j] {
      FirstPrimesAgreeAt(a, b, j);
    }
  }

  /** Any two results of GeneratePrimes for the same n are equal. */
  lemma FirstPrimesUnique(a: seq<nat>, b: seq<nat>)
    requires IsFirstPrimes(a, |a|) && IsFirstPrimes(b, |a|)
    ensures a == b
  {
    forall k | 0 <= k < |a| ensures a[k] == b[k] {
      FirstPrimesAgreeAt(a, b, k);
    }
  }
}
