/**
 * The integer arithmetic underneath the Paillier cryptosystem: powers, remainders,
 * greatest common divisors with Bezout coefficients, primes and Euclid's lemma, and the
 * modular inverse that `Crypto.Util.number.inverse` computes.
 *
 * Python's `//` and `%` floor towards minus infinity; Dafny's are Euclidean. The two agree
 * whenever the divisor is positive, which is the only way the modelled code uses them.
 */
module NumberTheory {
  import opened Wrappers

  /** `b ** e` over the unbounded integers. */
  function Pow(b: nat, e: nat): nat
    decreases e
  {
    if e == 0 then 1 else b * Pow(b, e - 1)
  }

  lemma MulAtLeast(k: int, m: int)
    requires k >= 1 && m > 0
    ensures k * m >= m
  {
    assert k * m == m + (k - 1) * m;
  }

  /** The only quotient and remainder that satisfy the division equation. */
  lemma ModUnique(x: int, m: int, q: int, r: int)
    requires m > 0 && 0 <= r < m && x == q * m + r
    ensures x % m == r && x / m == q
  {
    var q0, r0 := x / m, x % m;
    var d := q - q0;
    assert d * m == q * m - q0 * m;
    assert d * m == r0 - r;
    if d >= 1 {
      MulAtLeast(d, m);
    } else if d <= -1 {
      MulAtLeast(-d, m);
    }
  }

  lemma ModAddMultiple(x: int, k: int, m: int)
    requires m > 0
    ensures (x + k * m) % m == x % m
  {
    assert x == (x / m) * m + x % m;
    ModUnique(x + k * m, m, x / m + k, x % m);
  }

  lemma MulModLeft(a: int, b: int, m: int)
    requires m > 0
    ensures (a * b) % m == ((a % m) * b) % m
  {
    assert a == (a / m) * m + a % m;
    assert a * b == (a % m) * b + ((a / m) * b) * m;
    ModAddMultiple((a % m) * b, (a / m) * b, m);
  }

  lemma MulMod(a: int, b: int, m: int)
    requires m > 0
    ensures (a * b) % m == ((a % m) * (b % m)) % m
  {
    MulModLeft(a, b, m);
    MulModLeft(b, a % m, m);
    assert b * (a % m) == (a % m) * b;
    assert (b % m) * (a % m) == (a % m) * (b % m);
  }

  lemma AddMod(a: int, b: int, m: int)
    requires m > 0
    ensures (a + b) % m == ((a % m) + (b % m)) % m
  {
    assert a + b == (a % m + b % m) + (a / m + b / m) * m;
    ModAddMultiple(a % m + b % m, a / m + b / m, m);
  }

  lemma ModMod(a: int, m: int)
    requires m > 0
    ensures (a % m) % m == a % m
  {
    ModUnique(a % m, m, 0, a % m);
  }

  lemma DividesMul(x: int, k: int, m: int)
    requires m > 0 && x % m == 0
    ensures (x * k) % m == 0 && (k * x) % m == 0
  {
    MulModLeft(x, k, m);
    assert k * x == x * k;
  }

  lemma DividesAdd(x: int, y: int, m: int)
    requires m > 0 && x % m == 0 && y % m == 0
    ensures (x + y) % m == 0 && (x - y) % m == 0
  {
    assert x == (x / m) * m;
    assert y == (y / m) * m;
    ModUnique(x + y, m, x / m + y / m, 0);
    ModUnique(x - y, m, x / m - y / m, 0);
  }

  lemma MultipleDivides(k: int, m: int)
    requires m > 0
    ensures (k * m) % m == 0 && (m * k) % m == 0
  {
    ModUnique(k * m, m, k, 0);
    assert m * k == k * m;
  }

  /** Two numbers congruent modulo `m` differ by a multiple of `m`. */
  lemma CongruentDifference(x: int, y: int, m: int)
    requires m > 0 && x % m == y % m
    ensures (x - y) % m == 0
  {
    assert x - y == (x / m - y / m) * m;
    MultipleDivides(x / m - y / m, m);
  }

  lemma DifferenceCongruent(x: int, y: int, m: int)
    requires m > 0 && (x - y) % m == 0
    ensures x % m == y % m
  {
    assert x == y + ((x - y) / m) * m;
    ModAddMultiple(y, (x - y) / m, m);
  }

  lemma {:induction false} PowAdd(b: nat, e1: nat, e2: nat)
    ensures Pow(b, e1 + e2) == Pow(b, e1) * Pow(b, e2)
    decreases e1
  {
    if e1 > 0 {
      PowAdd(b, e1 - 1, e2);
      assert Pow(b, e1 + e2) == b * Pow(b, e1 - 1 + e2);
    }
  }

  lemma {:induction false} PowMul(b: nat, e1: nat, e2: nat)
    ensures Pow(b, e1 * e2) == Pow(Pow(b, e1), e2)
    decreases e2
  {
    if e2 > 0 {
      PowMul(b, e1, e2 - 1);
      assert e1 * e2 == e1 + e1 * (e2 - 1);
      PowAdd(b, e1, e1 * (e2 - 1));
    }
  }

  lemma Interchange(a: int, b: int, x: int, y: int)
    ensures (a * b) * (x * y) == (a * x) * (b * y)
  {
  }

  lemma {:induction false} PowProduct(a: nat, b: nat, e: nat)
    ensures Pow(a * b, e) == Pow(a, e) * Pow(b, e)
    decreases e
  {
    if e > 0 {
      PowProduct(a, b, e - 1);
      Interchange(a, b, Pow(a, e - 1), Pow(b, e - 1));
    }
  }

  /** Reducing the base modulo `m` first does not change `b ** e mod m`. */
  lemma {:induction false} PowMod(b: nat, e: nat, m: nat)
    requires m > 0
    ensures Pow(b % m, e) % m == Pow(b, e) % m
    decreases e
  {
    if e > 0 {
      PowMod(b, e - 1, m);
      MulMod(b % m, Pow(b % m, e - 1), m);
      MulMod(b, Pow(b, e - 1), m);
      ModMod(b, m);
    }
  }

  /** A number that is 1 modulo `m` stays 1 modulo `m` under every power. */
  lemma {:induction false} PowModOne(x: nat, k: nat, m: nat)
    requires m > 1 && x % m == 1
    ensures Pow(x, k) % m == 1
    decreases k
  {
    if k == 0 {
      ModUnique(1, m, 0, 1);
    } else {
      PowModOne(x, k - 1, m);
      MulMod(x, Pow(x, k - 1), m);
      ModUnique(1, m, 0, 1);
    }
  }

  /** Greatest common divisor by Euclid's algorithm. */
  function Gcd(a: nat, b: nat): nat
    decreases b
  {
    if b == 0 then a else Gcd(b, a % b)
  }

  lemma {:induction false} GcdDivides(a: nat, b: nat)
    requires a > 0 || b > 0
    ensures Gcd(a, b) > 0 && a % Gcd(a, b) == 0 && b % Gcd(a, b) == 0
    decreases b
  {
    if b > 0 {
      GcdDivides(b, a % b);
      var g := Gcd(b, a % b);
      assert a == a % b + (a / b) * b;
      DividesMul(b, a / b, g);
      DividesAdd(a % b, b * (a / b), g);
    }
  }

  lemma BezoutStep(a: nat, b: nat, x: int, y: int)
    requires b > 0
    ensures y * a + (x - (a / b) * y) * b == x * b + y * (a % b)
  {
    assert a == (a / b) * b + a % b;
    assert y * a == y * ((a / b) * b) + y * (a % b);
    assert y * ((a / b) * b) == ((a / b) * y) * b;
  }

  /** Bezout coefficients: the extended Euclidean algorithm. */
  function Bezout(a: nat, b: nat): (r: (int, int))
    ensures r.0 * a + r.1 * b == Gcd(a, b)
    decreases b
  {
    if b == 0 then (1, 0)
    else
      var r := Bezout(b, a % b);
      BezoutStep(a, b, r.0, r.1);
      (r.1, r.0 - (a / b) * r.1)
  }

  /** A common divisor of `a` and `b` divides every integer combination of them. */
  lemma DividesCombination(d: int, a: int, b: int, x: int, y: int)
    requires d > 0 && a % d == 0 && b % d == 0
    ensures (x * a + y * b) % d == 0
  {
    DividesMul(a, x, d);
    DividesMul(b, y, d);
    DividesAdd(x * a, y * b, d);
  }

  /** When 1 is a combination of `a` and `b`, their gcd is 1. */
  lemma BezoutOneGcd(a: nat, b: nat, x: int, y: int)
    requires x * a + y * b == 1
    ensures Gcd(a, b) == 1
  {
    if a > 0 || b > 0 {
      GcdDivides(a, b);
      var g := Gcd(a, b);
      DividesCombination(g, a, b, x, y);
      if g > 1 {
        ModUnique(1, g, 0, 1);
      }
    }
  }

  /** `d` is a positive divisor of `x`. */
  predicate Divides(d: nat, x: int)
  {
    d > 0 && x % d == 0
  }

  predicate IsPrime(p: nat)
  {
    p >= 2 && forall d :: 2 <= d < p ==> !Divides(d, p)
  }

  lemma DivisorBound(d: nat, x: nat)
    requires d > 0 && x > 0 && x % d == 0
    ensures d <= x
  {
    var k := x / d;
    assert x == k * d;
    assert k >= 1;
    MulAtLeast(k, d);
  }

  /** The only positive divisors of a prime are 1 and itself. */
  lemma PrimeDivisor(p: nat, d: nat)
    requires IsPrime(p) && d > 0 && p % d == 0
    ensures d == 1 || d == p
  {
    DivisorBound(d, p);
    assert Divides(d, p);
  }

  /** A prime is coprime to every number it does not divide. */
  lemma PrimeCoprime(p: nat, a: nat)
    requires IsPrime(p) && a % p != 0
    ensures Gcd(p, a) == 1
  {
    GcdDivides(p, a);
    PrimeDivisor(p, Gcd(p, a));
  }

  /** Euclid's lemma: a prime dividing a product divides one of its factors. */
  lemma Euclid(p: nat, a: nat, b: int)
    requires IsPrime(p) && (a * b) % p == 0 && a % p != 0
    ensures b % p == 0
  {
    PrimeCoprime(p, a);
    var r := Bezout(p, a);
    var x, y := r.0, r.1;
    assert x * p + y * a == 1;
    assert b == (x * p + y * a) * b;
    assert b == x * (p * b) + y * (a * b);
    MultipleDivides(b, p);
    DividesCombination(p, p * b, a * b, x, y);
  }

  /** Two distinct primes are coprime. */
  lemma DistinctPrimesCoprime(p: nat, q: nat)
    requires IsPrime(p) && IsPrime(q) && p != q
    ensures q % p != 0
  {
    if q % p == 0 {
      PrimeDivisor(q, p);
    }
  }

  /** Products of numbers coprime to a prime stay coprime to it. */
  lemma PrimeNotDividesProduct(p: nat, a: nat, b: nat)
    requires IsPrime(p) && a % p != 0 && b % p != 0
    ensures (a * b) % p != 0
  {
    if (a * b) % p == 0 {
      Euclid(p, a, b);
    }
  }

  /** If coprime `a` and `b` both divide `z`, so does `a * b`. */
  lemma CoprimeProductDivides(a: nat, b: nat, z: int, x: int, y: int)
    requires a > 0 && b > 0 && x * a + y * b == 1
    requires z % a == 0 && z % b == 0
    ensures z % (a * b) == 0
  {
    var ka, kb := z / a, z / b;
    assert z == ka * a && z == kb * b;
    assert z == x * (a * z) + y * (b * z) by {
      assert z == (x * a + y * b) * z;
    }
    assert a * z == (a * b) * kb;
    assert b * z == (a * b) * ka;
    assert z == (a * b) * (x * kb + y * ka);
    ModUnique(z, a * b, x * kb + y * ka, 0);
  }

  lemma ProductOfCombinations(x1: int, a: int, y1: int, x2: int, b: int, y2: int, c: int)
    ensures (x1 * a + y1 * c) * (x2 * b + y2 * c)
         == (x1 * x2) * (a * b) + (x1 * a * y2 + y1 * x2 * b + y1 * y2 * c) * c
  {
    var A, C, B, D := x1 * a, y1 * c, x2 * b, y2 * c;
    assert (A + C) * (B + D) == A * B + A * D + C * B + C * D;
    assert A * B == (x1 * x2) * (a * b);
    assert A * D == (x1 * a * y2) * c;
    assert C * B == (y1 * x2 * b) * c;
    assert C * D == (y1 * y2 * c) * c;
  }

  /** Multiplying two Bezout combinations for c gives one for the product of the other terms. */
  lemma CombinedBezout(a: int, b: int, c: int, x1: int, y1: int, x2: int, y2: int)
    requires x1 * a + y1 * c == 1 && x2 * b + y2 * c == 1
    ensures (x1 * x2) * (a * b) + (x1 * a * y2 + y1 * x2 * b + y1 * y2 * c) * c == 1
  {
    ProductOfCombinations(x1, a, y1, x2, b, y2, c);
  }

  /** A number coprime to both factors is coprime to their product. */
  lemma CoprimeMul(a: nat, b: nat, c: nat)
    requires Gcd(a, c) == 1 && Gcd(b, c) == 1
    ensures Gcd(a * b, c) == 1
  {
    var r1, r2 := Bezout(a, c), Bezout(b, c);
    var x1, y1, x2, y2 := r1.0, r1.1, r2.0, r2.1;
    CombinedBezout(a, b, c, x1, y1, x2, y2);
    BezoutOneGcd(a * b, c, x1 * x2, x1 * a * y2 + y1 * x2 * b + y1 * y2 * c);
  }

  /** The squares of two distinct primes are coprime. */
  lemma SquaresCoprime(p: nat, q: nat)
    requires IsPrime(p) && IsPrime(q) && p != q
    ensures Gcd(p * p, q * q) == 1
  {
    DistinctPrimesCoprime(p, q);
    PrimeNotDividesProduct(p, q, q);
    PrimeCoprime(p, q * q);
    assert Gcd(p, q * q) == 1;
    CoprimeMul(p, p, q * q);
  }

  /**
   * The modular inverse of `a` modulo `m`, as `Crypto.Util.number.inverse(a, m)` computes it:
   * `None` where that call raises `ValueError` because no inverse exists.
   */
  function ModInverse(a: nat, m: nat): (r: Option<nat>)
    requires m > 1
    ensures r.Some? <==> Gcd(a, m) == 1
    ensures r.Some? ==> r.value < m && (a * r.value) % m == 1
  {
    if Gcd(a, m) == 1 then
      var b := Bezout(a, m);
      InverseFromBezout(a, m, b.0, b.1);
      Some(b.0 % m)
    else
      None
  }

  lemma InverseFromBezout(a: nat, m: nat, x: int, y: int)
    requires m > 1 && x * a + y * m == 1
    ensures (a * (x % m)) % m == 1
  {
    MulMod(a, x, m);
    MulMod(a, x % m, m);
    ModMod(x, m);
    assert a * x == 1 + (-y) * m;
    ModAddMultiple(1, -y, m);
    ModUnique(1, m, 0, 1);
  }

  /** Dividing a*x by m with remainder 1 gives a Bezout combination of a and m. */
  lemma QuotientCombination(v: int, m: int, a: int, x: int)
    requires m > 0 && v == a * x && v % m == 1
    ensures x * a + (-(v / m)) * m == 1
  {
    var k := v / m;
    assert v == k * m + 1;
    assert x * a == v;
  }

  /** No inverse exists at all when `ModInverse` reports none. */
  lemma NoInverseWithoutCoprimality(a: nat, m: nat, x: int)
    requires m > 1 && Gcd(a, m) != 1
    ensures (a * x) % m != 1
  {
    var v := a * x;
    if v % m == 1 {
      var k := v / m;
      QuotientCombination(v, m, a, x);
      BezoutOneGcd(a, m, x, -k);
    }
  }
}
