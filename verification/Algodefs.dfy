/** Numeric helpers of the container library: every table size comes from NextPrime. */
module Algodefs {
  import opened Ctypes

  ghost predicate Divides(d: int, n: int)
    requires d != 0
  {
    n % d == 0
  }

  ghost predicate Prime(n: int) {
    n >= 2 && forall d :: 2 <= d < n ==> !Divides(d, n)
  }

  /** Multiplication by a nonnegative number keeps order, in both directions at once. */
  lemma MultipleDivides(d: int, q: int)
    requires d > 0
    ensures Divides(d, d * q)
  {
    var m := d * q / d;
    assert d * (q - m) == d * q % d;
    MulOrder(d, q - m, 1);
    MulOrder(d, q - m, -1);
  }

  /** A divisor d of n has the cofactor n / d, which divides n as well. */
  lemma Cofactor(n: int, d: int) returns (q: int)
    requires 2 <= d < n && Divides(d, n)
    ensures 2 <= q < n && Divides(q, n) && d * q == n
  {
    q := n / d;
    assert d * q == n;
    MulOrder(d, q, 1);
    MulOrder(q, d, 2);
    MultipleDivides(q, d);
    assert q * d == n;
  }

  /** Trial division may stop at the square root: a divisor at or above i pairs with one below i. */
  /** No number from 2 up to i divides n, other than n itself. */
  ghost predicate Undivided(n: int, i: int) {
    forall d {:trigger Divides(d, n)} :: 2 <= d < i && d < n ==> !Divides(d, n)
  }

  lemma NoDivisorAboveSquareRoot(n: int, i: int)
    requires n >= 2 && i >= 2 && i * i > n && Undivided(n, i)
    ensures Prime(n)
  {
    forall d | 2 <= d < n
      ensures !Divides(d, n)
    {
      if Divides(d, n) {
        var q := Cofactor(n, d);
        MulOrder(q, d, i);
        MulOrder(i, q, i);
        assert false;
      }
    }
  }

  /** An even divisor makes the number even. */
  lemma EvenDivisor(d: int, n: int)
    requires d >= 2 && d % 2 == 0 && Divides(d, n)
    ensures n % 2 == 0
  {
    var k, q := d / 2, n / d;
    assert n == d * q;
    assert n == 2 * (k * q);
  }

  /** Tries 2 and the odd numbers up to the square root only. */
  /** An odd number that i does not divide is not divided by i + 1 either, which is even. */
  lemma NextOdd(n: int, i: int)
    requires n % 2 != 0 && 3 <= i < n && i % 2 == 1 && Undivided(n, i) && n % i != 0
    ensures Undivided(n, i + 2)
  {
    forall d | 2 <= d < i + 2 && d < n
      ensures !Divides(d, n)
    {
      if d == i + 1 && Divides(d, n) { EvenDivisor(d, n); }
    }
  }

  lemma BelowSquare(n: int, i: int)
    requires i >= 3 && i * i <= n
    ensures i < n
  {
    MulOrder(i, i, 3);
  }

  method IsPrime(n: int) returns (r: bool)
    ensures r <==> Prime(n)
  {
    if n <= 1 {
      return false;
    }
    if n == 2 {
      return true;
    }
    if n % 2 == 0 {
      assert Divides(2, n);
      return false;
    }
    var i := 3;
    while i * i <= n
      invariant i >= 3 && i % 2 == 1 && Undivided(n, i)
      decreases n - i
    {
      BelowSquare(n, i);
      if n % i == 0 {
        assert Divides(i, n);
        return false;
      }
      NextOdd(n, i);
      i := i + 2;
    }
    NoDivisorAboveSquareRoot(n, i);
    return true;
  }

  function Factorial(n: nat): (f: nat)
    ensures f >= 1
  {
    if n == 0 then 1 else n * Factorial(n - 1)
  }

  lemma {:induction false} FactorialMultiple(n: nat, d: nat)
    requires 1 <= d <= n
    ensures Divides(d, Factorial(n))
  {
    if d == n {
      MultipleDivides(n, Factorial(n - 1));
    } else {
      FactorialMultiple(n - 1, d);
      var q := Factorial(n - 1) / d;
      assert Factorial(n - 1) == d * q;
      assert n * (d * q) == d * (n * q);
      MultipleDivides(d, n * q);
    }
  }

  /** The least divisor above one of a number is prime. */
  lemma LeastDivisorIsPrime(n: int) returns (p: int)
    requires n >= 2
    ensures Prime(p) && Divides(p, n) && p <= n
  {
    p := 2;
    while !Divides(p, n)
      invariant 2 <= p <= n
      invariant forall d :: 2 <= d < p ==> !Divides(d, n)
      decreases n - p
    {
      assert Divides(n, n) by { MultipleDivides(n, 1); }
      p := p + 1;
    }
    forall d | 2 <= d < p
      ensures !Divides(d, p)
    {
      if Divides(d, p) {
        var a, b := p / d, n / p;
        assert n == p * b == (d * a) * b == d * (a * b);
        MultipleDivides(d, a * b);
      }
    }
  }

  /** There is a prime above every number: a prime divisor of n! + 1. */
  lemma PrimeAbove(n: nat) returns (p: int)
    ensures Prime(p) && p > n
  {
    var f := Factorial(n);
    p := LeastDivisorIsPrime(f + 1);
    var a, b := f / p, (f + 1) / p;
    MulOrder(p, b - a, 1);
    MulOrder(p, b - a, 0);
    if p <= n {
      FactorialMultiple(n, p);
      assert false;
    }
  }

  /** p is the least prime not below n. */
  ghost predicate LeastPrime(n: int, p: int) {
    p >= n && Prime(p) && forall m :: n <= m < p ==> !Prime(m)
  }

  /** The loop ends because some prime is above n. */
  method NextPrime(n: int) returns (p: int)
    ensures LeastPrime(n, p)
  {
    ghost var bound := PrimeAbove(if n < 0 then 0 else n);
    p := n;
    var prime := IsPrime(p);
    while !prime
      invariant n <= p <= bound
      invariant prime <==> Prime(p)
      invariant forall m :: n <= m < p ==> !Prime(m)
      decreases bound - p
    {
      p := p + 1;
      prime := IsPrime(p);
    }
  }
}
