/**
 * Fermat's little theorem and the Euler-type fact Paillier decryption rests on:
 * for distinct primes p and q, n = p*q and lambda = (p-1)*(q-1), every s coprime to n
 * satisfies s^(n*lambda) = 1 (mod n^2).
 *
 * The route: the binomial theorem, primes dividing the inner binomial coefficients,
 * a^p = a (mod p) by induction on a, then lifting a^(p-1) = 1 (mod p) to p^2 and combining
 * the two prime squares.
 */
module Fermat {
  import opened NumberTheory

  /** Binomial coefficients, by Pascal's rule. */
  function Binom(n: nat, k: nat): nat
  {
    if k == 0 then 1 else if n == 0 then 0 else Binom(n - 1, k - 1) + Binom(n - 1, k)
  }

  lemma {:induction false} BinomAbove(n: nat, k: nat)
    requires k > n
    ensures Binom(n, k) == 0
  {
    if n > 0 {
      BinomAbove(n - 1, k - 1);
      BinomAbove(n - 1, k);
    }
  }

  lemma {:induction false} BinomDiagonal(n: nat)
    ensures Binom(n, n) == 1
  {
    if n > 0 {
      BinomDiagonal(n - 1);
      BinomAbove(n - 1, n);
    }
  }

  /** The absorption identity k * C(n, k) = n * C(n-1, k-1). */
  lemma {:induction false} BinomAbsorption(n: nat, k: nat)
    requires n >= 1 && k >= 1
    ensures k * Binom(n, k) == n * Binom(n - 1, k - 1)
  {
    if n == 1 {
      if k > 1 {
        BinomAbove(1, k);
        BinomAbove(0, k - 1);
      }
    } else if k == 1 {
      BinomAbsorption(n - 1, 1);
      assert Binom(n, 1) == Binom(n - 1, 0) + Binom(n - 1, 1);
    } else {
      BinomAbsorption(n - 1, k);
      BinomAbsorption(n - 1, k - 1);
      var a, b := Binom(n - 1, k - 1), Binom(n - 1, k);
      assert Binom(n, k) == a + b;
      assert a == Binom(n - 2, k - 2) + Binom(n - 2, k - 1);
      AbsorptionStep(n, k, a, b, Binom(n - 2, k - 2), Binom(n - 2, k - 1));
    }
  }

  lemma AbsorptionStep(n: int, k: int, a: int, b: int, u: int, v: int)
    requires k * b == (n - 1) * v && (k - 1) * a == (n - 1) * u && a == u + v
    ensures k * (a + b) == n * a
  {
    calc {
      k * (a + b);
      (k - 1) * a + a + k * b;
      (n - 1) * u + a + (n - 1) * v;
      (n - 1) * (u + v) + a;
      n * a;
    }
  }

  /** A prime divides every binomial coefficient C(p, k) with 0 < k < p. */
  lemma PrimeDividesBinom(p: nat, k: nat)
    requires IsPrime(p) && 0 < k < p
    ensures Binom(p, k) % p == 0
  {
    BinomAbsorption(p, k);
    MultipleDivides(Binom(p - 1, k - 1), p);
    assert p * Binom(p - 1, k - 1) == Binom(p - 1, k - 1) * p;
    ModUnique(k, p, 0, k);
    Euclid(p, k, Binom(p, k));
  }

  /** The sum of the first j terms C(n, i) * a^i of the binomial expansion of (a+1)^n. */
  function BinomSum(a: nat, n: nat, j: nat): nat
  {
    if j == 0 then 0 else BinomSum(a, n, j - 1) + Binom(n, j - 1) * Pow(a, j - 1)
  }

  lemma {:induction false} BinomSumPascal(a: nat, n: nat, j: nat)
    ensures BinomSum(a, n + 1, j + 1) == a * BinomSum(a, n, j) + BinomSum(a, n, j + 1)
  {
    if j > 0 {
      BinomSumPascal(a, n, j - 1);
      var x, y := Binom(n, j - 1), Binom(n, j);
      assert Binom(n + 1, j) == x + y;
      assert Pow(a, j) == a * Pow(a, j - 1);
      PascalStep(a, BinomSum(a, n, j - 1), BinomSum(a, n, j), BinomSum(a, n, j + 1),
                 BinomSum(a, n + 1, j), x, y, Pow(a, j - 1), Pow(a, j));
    }
  }

  lemma PascalStep(a: int, s0: int, s1: int, s2: int, t1: int, x: int, y: int, u: int, w: int)
    requires t1 == a * s0 + s1 && s1 == s0 + x * u && s2 == s1 + y * w && w == a * u
    ensures t1 + (x + y) * w == a * s1 + s2
  {
    calc {
      t1 + (x + y) * w;
      a * s0 + s1 + x * (a * u) + y * w;
      a * (s0 + x * u) + (s1 + y * w);
    }
  }

  /** The binomial theorem: (a+1)^n is the full sum of C(n, i) * a^i. */
  lemma {:induction false} BinomialTheorem(a: nat, n: nat)
    ensures Pow(a + 1, n) == BinomSum(a, n, n + 1)
  {
    if n > 0 {
      BinomialTheorem(a, n - 1);
      BinomSumPascal(a, n - 1, n);
      BinomAbove(n - 1, n);
      assert BinomSum(a, n - 1, n + 1) == BinomSum(a, n - 1, n);
      assert Pow(a + 1, n) == a * Pow(a + 1, n - 1) + Pow(a + 1, n - 1);
    }
  }

  /** Modulo a prime p the inner terms of the expansion of (a+1)^p vanish. */
  lemma {:induction false} InnerTermsVanish(a: nat, p: nat, j: nat)
    requires IsPrime(p) && 1 <= j <= p
    ensures (BinomSum(a, p, j) - 1) % p == 0
  {
    if j == 1 {
      assert BinomSum(a, p, 1) == 1;
    } else {
      InnerTermsVanish(a, p, j - 1);
      PrimeDividesBinom(p, j - 1);
      DividesMul(Binom(p, j - 1), Pow(a, j - 1), p);
      DividesAdd(BinomSum(a, p, j - 1) - 1, Binom(p, j - 1) * Pow(a, j - 1), p);
    }
  }

  /** (a+1)^p = a^p + 1 (mod p) for a prime p. */
  lemma FreshmansDream(a: nat, p: nat)
    requires IsPrime(p)
    ensures (Pow(a + 1, p) - Pow(a, p) - 1) % p == 0
  {
    BinomialTheorem(a, p);
    BinomDiagonal(p);
    InnerTermsVanish(a, p, p);
    assert BinomSum(a, p, p + 1) == BinomSum(a, p, p) + Pow(a, p);
  }

  lemma {:induction false} PowZeroBase(e: nat)
    requires e > 0
    ensures Pow(0, e) == 0
  {
  }

  /** Fermat's little theorem in the form a^p = a (mod p), for every a. */
  lemma {:induction false} FermatPowP(a: nat, p: nat)
    requires IsPrime(p)
    ensures (Pow(a, p) - a) % p == 0
  {
    if a == 0 {
      PowZeroBase(p);
    } else {
      FermatPowP(a - 1, p);
      FreshmansDream(a - 1, p);
      DividesAdd(Pow(a, p) - Pow(a - 1, p) - 1, Pow(a - 1, p) - (a - 1), p);
    }
  }

  /** Fermat's little theorem: a^(p-1) = 1 (mod p) when p does not divide a. */
  lemma Fermat(a: nat, p: nat)
    requires IsPrime(p) && a % p != 0
    ensures Pow(a, p - 1) % p == 1
  {
    FermatPowP(a, p);
    assert Pow(a, p) - a == a * (Pow(a, p - 1) - 1);
    Euclid(p, a, Pow(a, p - 1) - 1);
    DifferenceCongruent(Pow(a, p - 1), 1, p);
    ModUnique(1, p, 0, 1);
  }

  /** (1 + k*d)^j = 1 + j*k*d (mod d^2): only the linear term of the expansion survives. */
  lemma {:induction false} OnePlusMultiplePow(k: nat, d: nat, j: nat)
    requires d > 0
    ensures (Pow(1 + k * d, j) - (1 + j * k * d)) % (d * d) == 0
  {
    var D := d * d;
    if j == 0 {
      ModUnique(0, D, 0, 0);
    } else {
      OnePlusMultiplePow(k, d, j - 1);
      var X := Pow(1 + k * d, j - 1);
      var t := (X - (1 + (j - 1) * k * d)) / D;
      OnePlusStep(k, d, j, X, t);
      MultipleDivides((j - 1) * k * k + t + k * d * t, D);
    }
  }

  /** One step of the induction above, as plain arithmetic. */
  lemma OnePlusStep(k: int, d: int, j: int, X: int, t: int)
    requires d > 0 && (X - (1 + (j - 1) * k * d)) % (d * d) == 0 && t == (X - (1 + (j - 1) * k * d)) / (d * d)
    ensures (1 + k * d) * X - (1 + j * k * d) == ((j - 1) * k * k + t + k * d * t) * (d * d)
  {
    var D := d * d;
    var Y := 1 + (j - 1) * k * d;
    assert X == Y + t * D;
    assert (1 + k * d) * Y == 1 + j * k * d + ((j - 1) * k * k) * D;
    assert (1 + k * d) * (t * D) == (t + k * d * t) * D;
  }

  /** a^(p-1) = 1 (mod p) lifts to a^((p-1)*p) = 1 (mod p^2). */
  lemma LiftToSquare(a: nat, p: nat)
    requires IsPrime(p) && a % p != 0
    ensures Pow(a, (p - 1) * p) % (p * p) == 1
  {
    Fermat(a, p);
    var y := Pow(a, p - 1);
    var k := y / p;
    assert y == 1 + k * p;
    OnePlusMultiplePow(k, p, p);
    assert p * k * p == k * (p * p);
    MultipleDivides(k, p * p);
    DividesAdd(Pow(y, p) - (1 + p * k * p), p * k * p, p * p);
    DifferenceCongruent(Pow(y, p), 1, p * p);
    PowMul(a, p - 1, p);
    ModUnique(1, p * p, 0, 1);
  }

  /** s^(n*lambda) = 1 (mod p^2), one prime square at a time. */
  lemma PowerOneModPrimeSquare(s: nat, p: nat, e: nat, total: nat, z: nat)
    requires IsPrime(p) && s % p != 0 && total == (p - 1) * p * e && z == Pow(s, total)
    ensures z % (p * p) == 1
  {
    LiftToSquare(s, p);
    PowMul(s, (p - 1) * p, e);
    PowModOne(Pow(s, (p - 1) * p), e, p * p);
  }

  /**
   * The fact Paillier decryption needs: with n = p*q for distinct primes and
   * lambda = (p-1)*(q-1), every s coprime to n has s^(n*lambda) = 1 (mod n^2).
   */
  lemma PowNLambdaIsOne(s: nat, p: nat, q: nat, n: nat, lambda: nat)
    requires IsPrime(p) && IsPrime(q) && p != q
    requires n == p * q && lambda == (p - 1) * (q - 1)
    requires s % p != 0 && s % q != 0
    ensures n > 1 && Pow(s, n * lambda) % (n * n) == 1
  {
    MulAtLeast(p, q);
    var z := Pow(s, n * lambda);
    OneModEachSquare(s, p, q, n * lambda, z);
    CombineSquares(z, p, q);
  }

  lemma OneModEachSquare(s: nat, p: nat, q: nat, e: nat, z: nat)
    requires IsPrime(p) && IsPrime(q) && s % p != 0 && s % q != 0
    requires e == (p * q) * ((p - 1) * (q - 1)) && z == Pow(s, e)
    ensures z % (p * p) == 1 && z % (q * q) == 1
  {
    var a: nat, b: nat := (p - 1) * p, (q - 1) * q;
    ExponentRearranged(p, q);
    PowerOneModPrimeSquare(s, p, b, e, z);
    PowerOneModPrimeSquare(s, q, a, e, z);
  }

  lemma ExponentRearranged(p: int, q: int)
    ensures (p * q) * ((p - 1) * (q - 1)) == (p - 1) * p * ((q - 1) * q)
    ensures (p * q) * ((p - 1) * (q - 1)) == (q - 1) * q * ((p - 1) * p)
  {
    var a, b := (p - 1) * p, (q - 1) * q;
    assert (p * q) * ((p - 1) * (q - 1)) == a * b;
  }

  lemma SquareOfProduct(p: int, q: int)
    ensures (p * q) * (p * q) == (p * p) * (q * q)
  {
  }

  /** A number that is 1 modulo both p^2 and q^2 is 1 modulo (p*q)^2. */
  lemma CombineSquares(z: nat, p: nat, q: nat)
    requires IsPrime(p) && IsPrime(q) && p != q
    requires z % (p * p) == 1 && z % (q * q) == 1
    ensures z % ((p * q) * (p * q)) == 1
  {
    var P, Q, N := p * p, q * q, (p * q) * (p * q);
    SquareOfProduct(p, q);
    assert N == P * Q;
    assert P > 1 && Q > 1 by {
      MulAtLeast(p, p);
      MulAtLeast(q, q);
    }
    CombineCoprime(z, P, Q, p, q);
  }

  lemma CombineCoprime(z: nat, P: nat, Q: nat, p: nat, q: nat)
    requires IsPrime(p) && IsPrime(q) && p != q && P == p * p && Q == q * q
    requires P > 1 && Q > 1 && z % P == 1 && z % Q == 1
    ensures z % (P * Q) == 1
  {
    ModUnique(1, P, 0, 1);
    ModUnique(1, Q, 0, 1);
    CongruentDifference(z, 1, P);
    CongruentDifference(z, 1, Q);
    SquaresCoprime(p, q);
    var b := Bezout(P, Q);
    CoprimeProductDivides(P, Q, z - 1, b.0, b.1);
    MulAtLeast(P, Q);
    DifferenceCongruent(z, 1, P * Q);
    ModUnique(1, P * Q, 0, 1);
  }
}
