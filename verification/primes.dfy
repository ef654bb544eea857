/** Primality as the table uses it: the trial-division test `_is_prime`, the upward
    search `_next_prime`, and the number theory that makes double hashing over a
    prime-sized table reach every slot. */
module Primes {

  /** x is prime in the mathematical sense. */
  ghost predicate IsPrime(x: int)
  {
    x >= 2 && forall d :: 2 <= d < x ==> x % d != 0
  }

  // ---------------------------------------------------------------------------
  // Division facts (Dafny's / and % are Euclidean; every operand here is >= 0)
  // ---------------------------------------------------------------------------

  lemma MulAtLeast(d: int, k: int)
    requires d > 0 && k >= 1
    ensures d * k >= d
  {
    assert d * k == d * (k - 1) + d;
  }

  /** A quotient/remainder pair in range is the one `/` and `%` compute. */
  lemma DivModUnique(a: int, d: int, q: int, r: int)
    requires d > 0 && 0 <= r < d && a == d * q + r
    ensures a / d == q && a % d == r
  {
    var q', r' := a / d, a % d;
    assert d * (q' - q) == r - r';
    assert d * (q - q') == r' - r;
    if q' > q {
      MulAtLeast(d, q' - q);
    } else if q' < q {
      MulAtLeast(d, q - q');
    }
  }

  lemma MultipleMod(d: int, k: int)
    requires d > 0
    ensures (d * k) % d == 0
  {
    DivModUnique(d * k, d, k, 0);
  }

  /** Equal remainders mean the difference is a multiple. */
  lemma ModDifference(x: int, y: int, d: int)
    requires d > 0
    ensures x % d == y % d ==> (y - x) % d == 0
  {
    if x % d == y % d {
      assert y - x == d * (y / d - x / d);
      MultipleMod(d, y / d - x / d);
    }
  }

  lemma DividesTransitive(e: int, r: int, n: int)
    requires e > 0 && r > 0
    requires r % e == 0 && n % r == 0
    ensures n % e == 0
  {
    var a, b := r / e, n / r;
    assert r == e * a;
    assert n == r * b;
    assert n == e * (a * b);
    MultipleMod(e, a * b);
  }

  // ---------------------------------------------------------------------------
  // _is_prime: trial division by 2 .. x/2
  // ---------------------------------------------------------------------------

  /** The loop of `_is_prime` from divisor `i` onwards: true iff no divisor in [i, x/2]. */
  function NoDivisorFrom(x: nat, i: nat): (b: bool)
    requires i >= 2
    ensures b <==> forall d :: i <= d <= x / 2 ==> x % d != 0
    decreases x / 2 + 1 - i
  {
    if i > x / 2 then true
    else if x % i == 0 then false
    else NoDivisorFrom(x, i + 1)
  }

  /** No divisor lies strictly between x/2 and x: there x % d == x - d > 0. */
  lemma UpperHalfHasNoDivisor(x: nat, d: int)
    requires x / 2 < d < x
    ensures x % d != 0
  {
    DivModUnique(x, d, 1, x - d);
  }

  /** `_is_prime(x)`: trial division by 2 .. x/2. It also answers true for 0 and 1,
      where the loop never runs. */
  function PrimeTest(x: nat): (b: bool)
    ensures b <==> (x < 2 || IsPrime(x))
  {
    var b := NoDivisorFrom(x, 2);
    assert b && x >= 2 ==> IsPrime(x) by {
      forall d | x / 2 < d < x {
        UpperHalfHasNoDivisor(x, d);
      }
    }
    b
  }

  // ---------------------------------------------------------------------------
  // Euclid: above every x >= 2 there is a prime no larger than x! + 1
  // ---------------------------------------------------------------------------

  ghost function Factorial(n: nat): (f: nat)
    ensures f >= 1
  {
    if n == 0 then 1 else n * Factorial(n - 1)
  }

  lemma {:induction false} FactorialDivisible(n: nat, d: nat)
    requires 1 <= d <= n
    ensures Factorial(n) % d == 0
  {
    if d == n {
      MultipleMod(d, Factorial(n - 1));
    } else {
      FactorialDivisible(n - 1, d);
      var q := Factorial(n - 1) / d;
      assert Factorial(n - 1) == d * q;
      assert Factorial(n) == d * (n * q);
      MultipleMod(d, n * q);
    }
  }

  /** The least divisor of n that is at least c. */
  ghost function LeastDivisorFrom(n: nat, c: nat): (r: nat)
    requires 2 <= c <= n
    ensures c <= r <= n && n % r == 0
    ensures forall e :: c <= e < r ==> n % e != 0
    decreases n - c
  {
    MultipleMod(n, 1);
    if n % c == 0 then c else LeastDivisorFrom(n, c + 1)
  }

  lemma PrimeAbove(x: nat)
    requires x >= 2
    ensures exists p :: x < p <= Factorial(x) + 1 && IsPrime(p)
  {
    var n := Factorial(x) + 1;
    var p := LeastDivisorFrom(n, 2);
    forall e | 2 <= e < p
      ensures p % e != 0
    {
      if p % e == 0 {
        DividesTransitive(e, p, n);
        assert false;
      }
    }
    if p <= x {
      FactorialDivisible(x, p);
      DivModUnique(n, p, Factorial(x) / p, 1);
      assert false;
    }
    assert x < p <= n && IsPrime(p);
  }

  /** When every candidate in [x, y] fails the test, a prime still lies above y. */
  lemma SearchBound(x: nat, y: nat)
    requires x <= y
    requires forall z :: x <= z <= y ==> !PrimeTest(z)
    ensures y < Factorial(x) + 1
  {
    assert !PrimeTest(x);
    PrimeAbove(x);
    var p :| x < p <= Factorial(x) + 1 && IsPrime(p);
    assert PrimeTest(p);
  }

  // ---------------------------------------------------------------------------
  // _next_prime: linear search upwards
  // ---------------------------------------------------------------------------

  /** The loop of `_next_prime` at candidate y, all of [x, y) having failed. */
  function NextPrimeFrom(x: nat, y: nat): (r: nat)
    requires x <= y
    requires forall z :: x <= z < y ==> !PrimeTest(z)
    ensures y <= r && PrimeTest(r)
    ensures forall z :: x <= z < r ==> !PrimeTest(z)
    decreases Factorial(x) + 1 - y
  {
    if PrimeTest(y) then y
    else
      SearchBound(x, y);
      NextPrimeFrom(x, y + 1)
  }

  /** `_next_prime(x)`: the least y >= x that passes `_is_prime`; a true prime once x >= 2. */
  function NextPrime(x: nat): (r: nat)
    ensures x <= r && PrimeTest(r)
    ensures forall z :: x <= z < r ==> !PrimeTest(z)
    ensures x >= 2 ==> IsPrime(r)
  {
    NextPrimeFrom(x, x)
  }

  // ---------------------------------------------------------------------------
  // Euclid's lemma, via the least positive multiplier m with p dividing m * b
  // ---------------------------------------------------------------------------

  /** p divides the product m * b. */
  ghost predicate DividesProduct(p: int, b: int, m: int)
    requires p > 0
  {
    (m * b) % p == 0
  }

  /** The least m in [c, p] with p | m*b. */
  ghost function LeastMultiplier(p: nat, b: int, c: nat): (m: nat)
    requires 1 <= c <= p
    ensures c <= m <= p && DividesProduct(p, b, m)
    ensures forall m' :: c <= m' < m ==> !DividesProduct(p, b, m')
    decreases p - c
  {
    assert DividesProduct(p, b, p) by { MultipleMod(p, b); }
    if DividesProduct(p, b, c) then c else LeastMultiplier(p, b, c + 1)
  }

  /** Every multiplier m with p dividing m * b is a multiple of the least one. */
  lemma LeastMultiplierDivides(p: nat, b: int, m: nat, c: nat)
    requires p >= 1 && 1 <= m && DividesProduct(p, b, m)
    requires forall m' :: 1 <= m' < m ==> !DividesProduct(p, b, m')
    ensures DividesProduct(p, b, c) ==> c % m == 0
  {
    if DividesProduct(p, b, c) {
      var q, r := c / m, c % m;
      var u, v := (c * b) / p, (m * b) / p;
      assert c * b == p * u;
      assert m * b == p * v;
      assert c == m * q + r;
      assert r * b == c * b - q * (m * b);
      assert r * b == p * (u - q * v);
      MultipleMod(p, u - q * v);
      assert DividesProduct(p, b, r);
    }
  }

  /** Euclid's lemma: a prime dividing a*b with 0 < b < p divides a. */
  lemma EuclidLemma(p: nat, a: nat, b: int)
    requires IsPrime(p) && 0 < b < p
    ensures (a * b) % p == 0 ==> a % p == 0
  {
    var m := LeastMultiplier(p, b, 1);
    LeastMultiplierDivides(p, b, m, p);
    LeastMultiplierDivides(p, b, m, a);
    assert p * b == b * p;
    MultipleMod(p, b);
    // m divides p, so m is 1 or p; m == 1 would make p divide b
    DivModUnique(b, p, 0, b);
    assert m * b == b * m;
    assert m != 1;
    assert m == p;
  }
}
