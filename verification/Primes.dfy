/** The 6k +- 1 primality test and the search for the next prime, on unbounded integers. */
module Primes {
  ghost predicate Divides(d: int, n: int)
    requires d > 0
  {
    n % d == 0
  }

  ghost predicate Prime(n: int)
  {
    n >= 2 && forall d :: 2 <= d < n ==> !Divides(d, n)
  }

  lemma MulMono(a: int, b: int, c: int)
    requires a <= b && c >= 0
    ensures a * c <= b * c
  {}

  lemma QuotientUnique(d: int, q: int, r: int)
    requires d > 0 && 0 <= r < d
    ensures (d * q + r) % d == r
  {
    var n := d * q + r;
    var p, s := n / d, n % d;
    assert n == d * p + s && 0 <= s < d;
    assert d * (q - p) == s - r;
    if q - p >= 1 { MulMono(1, q - p, d); }
    if q - p <= -1 { MulMono(q - p, -1, d); }
  }

  lemma DividesProduct(d: int, k: int)
    requires d > 0
    ensures Divides(d, d * k)
  {
    QuotientUnique(d, k, 0);
  }

  lemma DividesTrans(a: int, b: int, n: int)
    requires a > 0 && b > 0 && Divides(a, b) && Divides(b, n)
    ensures Divides(a, n)
  {
    var x, y := b / a, n / b;
    assert n == b * y == a * x * y == a * (x * y);
    DividesProduct(a, x * y);
  }

  /** A number with a proper divisor has one whose square does not exceed it. */
  lemma SmallDivisor(n: int, d: int) returns (c: int)
    requires 2 <= d < n && Divides(d, n)
    ensures 2 <= c < n && Divides(c, n) && c * c <= n
  {
    var e := n / d;
    assert n == d * e;
    if e <= 1 { MulMono(e, 1, d); }
    if e >= n { MulMono(2, d, e); }
    if d <= e {
      c := d;
      MulMono(d, e, d);
    } else {
      c := e;
      MulMono(e, d, e);
      DividesProduct(e, d);
    }
  }

  /** No divisor among 2, ..., i - 1 and i * i > n leave only a prime. */
  lemma NoSmallDivisor(n: int, i: int)
    requires n >= 2 && i > 0 && i * i > n && NoDivisorBelow(n, i)
    ensures Prime(n)
  {
    if d :| 2 <= d < n && Divides(d, n) {
      var c := SmallDivisor(n, d);
      SquareMono(i, c, n);
    }
  }

  lemma SquareMono(i: int, c: int, n: int)
    requires i > 0 && i * i > n && c >= 0 && c * c <= n
    ensures c < i
  {
    if c >= i {
      MulMono(i, c, i);
      MulMono(i, c, c);
    }
  }

  /** n has no divisor among 2, ..., i - 1 other than itself. */
  ghost predicate NoDivisorBelow(n: int, i: int)
  {
    forall d :: 2 <= d < i && d < n ==> !Divides(d, n)
  }

  /** A number coprime to 2 and 3 is not divided by the multiples of 2 and 3. */
  lemma NotDividedBy(n: int, d: int)
    requires n % 2 != 0 && n % 3 != 0 && d > 0 && (d % 2 == 0 || d % 3 == 0)
    ensures !Divides(d, n)
  {
    if Divides(d, n) {
      if d % 2 == 0 { DividesTrans(2, d, n); } else { DividesTrans(3, d, n); }
    }
  }

  method IsPrime(n: int) returns (b: bool)
    ensures b <==> Prime(n)
  {
    if n <= 1 { return false; }
    if n <= 3 { return true; }
    if n % 2 == 0 || n % 3 == 0 {
      assert Divides(2, n) || Divides(3, n);
      return false;
    }
    SmallCases(n);
    var i := 5;
    while i * i <= n
      invariant i >= 5 && i % 6 == 5 && NoDivisorBelow(n, i)
      decreases n - i
    {
      SquareAbove(i, n);
      if n % i == 0 || n % (i + 2) == 0 {
        assert Divides(i, n) || Divides(i + 2, n);
        return false;
      }
      NextSix(n, i);
      i := i + 6;
    }
    NoSmallDivisor(n, i);
    return true;
  }

  lemma SmallCases(n: int)
    requires n % 2 != 0 && n % 3 != 0
    ensures NoDivisorBelow(n, 5)
  {
    forall d | 2 <= d < 5 && d < n
      ensures !Divides(d, n)
    {
      NotDividedBy(n, d);
    }
  }

  lemma MultipleOfTwoOrThree(i: int, d: int)
    requires i % 6 == 5 && i < d < i + 6 && d != i + 2
    ensures d % 2 == 0 || d % 3 == 0
  {
    AfterSix(i / 6, d);
  }

  lemma AfterSix(k: int, d: int)
    requires 6 * k + 5 < d < 6 * k + 11 && d != 6 * k + 7
    ensures d % 2 == 0 || d % 3 == 0
  {
    if d == 6 * k + 6 {
      TwiceIsEven(d, 3 * k + 3);
    } else if d == 6 * k + 8 {
      TwiceIsEven(d, 3 * k + 4);
    } else if d == 6 * k + 9 {
      ThriceIsMultiple(d, 2 * k + 3);
    } else {
      TwiceIsEven(d, 3 * k + 5);
    }
  }

  lemma TwiceIsEven(d: int, m: int)
    requires d == 2 * m
    ensures d % 2 == 0
  {}

  lemma ThriceIsMultiple(d: int, m: int)
    requires d == 3 * m
    ensures d % 3 == 0
  {}

  /** Of six consecutive numbers from i = 6k - 1 on only i and i + 2 need a test. */
  lemma NextSix(n: int, i: int)
    requires i >= 5 && i % 6 == 5 && n % 2 != 0 && n % 3 != 0 && NoDivisorBelow(n, i)
    requires !Divides(i, n) && !Divides(i + 2, n)
    ensures NoDivisorBelow(n, i + 6)
  {
    forall d | 2 <= d < i + 6 && d < n
      ensures !Divides(d, n)
    {
      if d > i && d != i + 2 {
        MultipleOfTwoOrThree(i, d);
        NotDividedBy(n, d);
      }
    }
  }

  lemma SquareAbove(i: int, n: int)
    requires i >= 5 && i * i <= n
    ensures i + 2 < n
  {
    assert i * i >= 5 * i;
  }

  // ---------- there is always a next prime ----------

  ghost function Factorial(n: nat): nat
  {
    if n == 0 then 1 else n * Factorial(n - 1)
  }

  lemma {:induction false} FactorialDivided(n: nat, d: int)
    requires 1 <= d <= n
    ensures Divides(d, Factorial(n)) && Factorial(n) >= 1
  {
    FactorialPositive(n - 1);
    if d == n {
      DividesProduct(n, Factorial(n - 1));
    } else {
      FactorialDivided(n - 1, d);
      assert Factorial(n) == Factorial(n - 1) * n;
      DividesProduct(Factorial(n - 1), n);
      DividesTrans(d, Factorial(n - 1), Factorial(n));
    }
  }

  lemma {:induction false} FactorialPositive(n: nat)
    ensures Factorial(n) >= 1
  {
    if n > 0 { FactorialPositive(n - 1); }
  }

  lemma {:induction false} PrimeDivisor(n: int) returns (p: int)
    requires n >= 2
    ensures Prime(p) && p <= n && Divides(p, n)
    decreases n
  {
    if Prime(n) {
      p := n;
    } else {
      var d :| 2 <= d < n && Divides(d, n);
      p := PrimeDivisor(d);
      DividesTrans(p, d, n);
    }
  }

  /** Euclid: a prime divisor of n! + 1 is larger than n. */
  lemma LargerPrime(n: int) returns (p: int)
    ensures p > n && Prime(p)
  {
    if n <= 1 {
      p := 2;
    } else {
      FactorialDivided(n, 1);
      p := PrimeDivisor(Factorial(n) + 1);
      if p <= n {
        FactorialDivided(n, p);
        var k := Factorial(n) / p;
        assert Factorial(n) == p * k && k >= 0;
        QuotientUnique(p, k, 1);
      }
    }
  }

  method NextPrime(n: int) returns (candidate: int)
    ensures candidate > n && Prime(candidate)
    ensures forall m :: n < m < candidate ==> !Prime(m)
  {
    ghost var bound := LargerPrime(n);
    candidate := n + 1;
    var found := IsPrime(candidate);
    while !found
      invariant n < candidate <= bound && (found <==> Prime(candidate))
      invariant forall m :: n < m < candidate ==> !Prime(m)
      decreases bound - candidate
    {
      candidate := candidate + 1;
      found := IsPrime(candidate);
    }
  }
}
