/** The bucket counts of the hash tables: is_prime and find_prime (cl/lexhash.c). */
module Primes {
  import opened Arithmetic

  /** What is_prime tests: no divisor between 2 and the square root.  1 passes the test. */
  ghost predicate PassesTest(n: int)
  {
    forall d :: 2 <= d && d * d <= n ==> !Divides(d, n)
  }

  predicate Divides(d: int, n: int)
    requires d != 0
  {
    n % d == 0
  }

  ghost predicate Prime(n: int)
  {
    n >= 2 && forall d :: 2 <= d < n ==> !Divides(d, n)
  }

  /** A divisor comes with a second one, and one of the two is at most the square root. */
  lemma DivisorPair(d: nat, n: nat)
    requires 2 <= d < n && Divides(d, n)
    ensures 2 <= n / d < n && Divides(n / d, n) && n == d * (n / d)
    ensures d * d <= n || (n / d) * (n / d) <= n
  {
    var e := n / d;
    assert n == d * e;
    PairBounds(d, e);
    Multiple(e, d);
  }

  lemma PairBounds(d: nat, e: nat)
    requires 2 <= d < d * e
    ensures 2 <= e < d * e && (d * d <= d * e || e * e <= d * e)
  {
    MulMonotone(2, d, e);
    assert e <= 1 ==> d * e <= d;
    if d <= e { MulMonotone(d, e, d); } else { MulMonotone(e, d, e); }
  }

  /** The square-root test decides primality. */
  lemma TestIsPrime(n: nat)
    requires n >= 2
    ensures PassesTest(n) <==> Prime(n)
  {
    hide Divides;
    forall d | 2 <= d && d * d <= n ensures d < n {
      MulMonotone(2, d, d);
    }
    forall d | 2 <= d < n && Divides(d, n) ensures !PassesTest(n) {
      DivisorPair(d, n);
    }
  }

  method IsPrime(n: int) returns (r: bool)
    ensures r <==> PassesTest(n)
  {
    hide PassesTest;
    var i := 2;
    while i * i <= n
      invariant i >= 2 && forall d :: 2 <= d < i ==> !Divides(d, n)
      decreases n - i
    {
      MulMonotone(2, i, i);
      if n % i == 0 {
        TestFails(n, i);
        return false;
      }
      i := i + 1;
    }
    TestDone(n, i);
    return true;
  }

  lemma TestFails(n: int, i: int)
    requires 2 <= i && i * i <= n && Divides(i, n)
    ensures !PassesTest(n)
  {
  }

  lemma TestDone(n: int, i: int)
    requires i >= 2 && i * i > n && forall d :: 2 <= d < i ==> !Divides(d, n)
    ensures PassesTest(n)
  {
    hide Divides;
    forall d | 2 <= d && d * d <= n ensures d < i {
      if d >= i {
        MulMonotone(i, d, i);
        MulMonotone(i, d, d);
      }
    }
  }

  // ----- there is always a larger prime

  function Factorial(n: nat): (f: nat)
    ensures f >= 1
  {
    if n == 0 then 1 else n * Factorial(n - 1)
  }

  lemma {:induction false} DividesFactorial(d: nat, n: nat)
    requires 1 <= d <= n
    ensures Divides(d, Factorial(n))
  {
    hide Divides;
    assert Factorial(n) == n * Factorial(n - 1);
    if d == n {
      DividesOwnMultiple(d, Factorial(n - 1));
    } else {
      DividesFactorial(d, n - 1);
      DividesMultiple(d, Factorial(n - 1), n);
    }
  }

  lemma DividesOwnMultiple(d: nat, q: nat)
    requires d > 0
    ensures Divides(d, d * q)
  {
    Multiple(d, q);
    assert d * q == q * d;
  }

  lemma DividesMultiple(d: nat, f: nat, n: nat)
    requires d > 0 && Divides(d, f)
    ensures Divides(d, n * f)
  {
    MultipleOfMultiple(d, f, n);
  }

  lemma NoCommonDivisor(d: nat, f: nat)
    requires d >= 2 && Divides(d, f)
    ensures !Divides(d, f + 1)
  {
    Quotient(f + 1, d, f / d, 1);
  }

  lemma LeastDivisor(n: int) returns (p: int)
    requires n >= 2
    ensures 2 <= p <= n && Divides(p, n) && forall d :: 2 <= d < p ==> !Divides(d, n)
  {
    p := 2;
    while !Divides(p, n)
      invariant 2 <= p <= n && forall d :: 2 <= d < p ==> !Divides(d, n)
      decreases n - p
    {
      assert Divides(n, n);
      p := p + 1;
    }
  }

  lemma DividesTransitive(d: nat, p: nat, n: nat)
    requires d > 0 && p > 0 && Divides(d, p) && Divides(p, n)
    ensures Divides(d, n)
  {
    MultipleOfMultiple(d, p, n / p);
    assert n == n / p * p;
  }

  lemma LeastDivisorIsPrime(n: int, p: int)
    requires n >= 2 && 2 <= p <= n && Divides(p, n) && forall d :: 2 <= d < p ==> !Divides(d, n)
    ensures Prime(p)
  {
    hide Divides;
    forall d | 2 <= d < p ensures !Divides(d, p) {
      if Divides(d, p) {
        DividesTransitive(d, p, n);
      }
    }
  }

  /** Euclid's theorem: some number from `n` on passes the test. */
  lemma Euclid(n: nat) returns (p: int)
    ensures p >= n && p >= 2 && PassesTest(p)
  {
    var f := Factorial(n);
    p := LeastDivisor(f + 1);
    LeastDivisorIsPrime(f + 1, p);
    TestIsPrime(p);
    if p < n {
      DividesFactorial(p, n);
      NoCommonDivisor(p, f);
    }
  }

  /** find_prime over unbounded integers: the least number from `n` on that passes the test. */
  method FindPrime(n: int) returns (m: int)
    ensures n <= 0 ==> m == 0
    ensures n > 0 ==> m >= n && PassesTest(m) && forall k :: n <= k < m ==> !PassesTest(k)
    ensures n >= 2 ==> Prime(m)
  {
    m := n;
    ghost var p := 1;
    if n > 0 { p := Euclid(n); }
    while m > 0
      invariant n <= 0 ==> m == n
      invariant n > 0 ==> n <= m <= p && PassesTest(p) && forall k :: n <= k < m ==> !PassesTest(k)
      decreases p - m
    {
      var r := IsPrime(m);
      if r {
        if n >= 2 { TestIsPrime(m); }
        return;
      }
      m := m + 1;
    }
    return 0;
  }
}
