/**
 * The simplified Paillier cryptosystem of core/paillier.py: g = n + 1 and
 * lambda = (p-1)*(q-1). Key generation updates the fields of a `SimplePaillier` object;
 * encryption, decryption and ciphertext addition are pure modular arithmetic.
 *
 * The random primes from `getPrime` and the blinding factor from `random.randint` are
 * parameters; the modular inverse is `NumberTheory.ModInverse`.
 */
module Paillier {
  import opened Wrappers
  import opened NumberTheory
  import Fermat

  datatype PublicKey = PublicKey(n: nat, g: nat)
  datatype PrivateKey = PrivateKey(lmb: nat, mu: nat)

  /** `getPrime(bits)` returns a prime of exactly `bits` bits. */
  predicate HasBitLength(x: nat, bits: nat)
  {
    bits >= 1 && Pow(2, bits - 1) <= x < Pow(2, bits)
  }

  /** What `generate_keys` builds from its two primes `p` and `q`. */
  ghost predicate KeysFrom(pub: PublicKey, priv: PrivateKey, p: nat, q: nat)
  {
    && pub.n == p * q
    && pub.g == pub.n + 1
    && priv.lmb == (p - 1) * (q - 1)
    && pub.n > 1
    && priv.mu < pub.n
    && (priv.lmb * priv.mu) % pub.n == 1
  }

  /** The setting in which decryption is correct: keys from two distinct primes. */
  ghost predicate ValidKeys(pub: PublicKey, priv: PrivateKey, p: nat, q: nat)
  {
    IsPrime(p) && IsPrime(q) && p != q && KeysFrom(pub, priv, p, q)
  }

  /** A blinding factor the decryption can strip: coprime to both prime factors of n. */
  ghost predicate Blinding(r: nat, p: nat, q: nat)
  {
    p > 0 && q > 0 && r % p != 0 && r % q != 0
  }

  class SimplePaillier {
    // `None` stands for the attributes `__init__` sets to None (and `n_sq`, not yet set).
    var n: Option<nat>
    var nSq: Option<nat>
    var g: Option<nat>
    var lmb: Option<nat>
    var mu: Option<nat>

    constructor ()
      ensures n == None && nSq == None && g == None && lmb == None && mu == None
    {
      n, nSq, g, lmb, mu := None, None, None, None, None;
    }

    /**
     * generate_keys(bit_length) with the two `getPrime(bit_length // 2)` results passed in.
     * `None` is the ValueError `inverse` raises when lambda has no inverse modulo n; the
     * fields it assigned before that stay assigned.
     */
    method GenerateKeys(bitLength: nat, p: nat, q: nat) returns (keys: Option<(PublicKey, PrivateKey)>)
      requires bitLength / 2 >= 2
      requires IsPrime(p) && HasBitLength(p, bitLength / 2)
      requires IsPrime(q) && HasBitLength(q, bitLength / 2)
      modifies this
      ensures n == Some(p * q) && nSq == Some((p * q) * (p * q)) && g == Some(p * q + 1)
      ensures lmb == Some((p - 1) * (q - 1))
      ensures keys.Some? <==> Gcd((p - 1) * (q - 1), p * q) == 1
      ensures keys.Some? ==> KeysFrom(keys.value.0, keys.value.1, p, q) && mu == Some(keys.value.1.mu)
      ensures keys.None? ==> mu == old(mu)
    {
      var nv := p * q;
      MulAtLeast(p, q);
      n := Some(nv);
      nSq := Some(nv * nv);
      g := Some(nv + 1);
      MulAtLeast(p - 1, q - 1);
      var l: nat := (p - 1) * (q - 1);
      lmb := Some(l);
      var inv := ModInverse(l, nv);
      if inv.None? {
        return None;
      }
      mu := Some(inv.value);
      keys := Some((PublicKey(nv, nv + 1), PrivateKey(l, inv.value)));
    }
  }

  /** encrypt: c = g^m * r^n mod n^2, where `r` is the draw of random.randint(1, n - 1). */
  function Encrypt(pub: PublicKey, m: nat, r: nat): (c: nat)
    requires pub.n >= 2 && 1 <= r <= pub.n - 1
    ensures c < pub.n * pub.n
  {
    var nSq := pub.n * pub.n;
    (Pow(pub.g, m) % nSq * (Pow(r, pub.n) % nSq)) % nSq
  }

  /** decrypt: x = c^lambda mod n^2, L = (x - 1) // n, result L * mu mod n. */
  function Decrypt(priv: PrivateKey, pub: PublicKey, c: nat): (m: nat)
    requires pub.n >= 1
    ensures m < pub.n
  {
    var nSq := pub.n * pub.n;
    var x := Pow(c, priv.lmb) % nSq;
    var l := (x - 1) / pub.n;
    (l * priv.mu) % pub.n
  }

  /** add: the product of two ciphertexts modulo n^2. Only `n` of the key is read. */
  function Add(pub: PublicKey, c1: nat, c2: nat): (c: nat)
    requires pub.n >= 1
    ensures c < pub.n * pub.n
  {
    (c1 * c2) % (pub.n * pub.n)
  }

  /** The left fold of `Add` over `cs`, starting from `acc`: the evaluator's accumulator loop. */
  function AddFold(pub: PublicKey, acc: nat, cs: seq<nat>): nat
    requires pub.n >= 1
    decreases |cs|
  {
    if cs == [] then acc else AddFold(pub, Add(pub, acc, cs[0]), cs[1..])
  }

  /** With g = n + 1, g^m = 1 + m*n (mod n^2) for every m. */
  lemma GeneratorPower(n: nat, m: nat)
    requires n >= 1
    ensures Pow(n + 1, m) % (n * n) == (1 + m * n) % (n * n)
  {
    Fermat.OnePlusMultiplePow(1, n, m);
    assert 1 + 1 * n == n + 1 && 1 + m * 1 * n == 1 + m * n;
    DifferenceCongruent(Pow(n + 1, m), 1 + m * n, n * n);
  }

  lemma AddCommutative(pub: PublicKey, c1: nat, c2: nat)
    requires pub.n >= 1
    ensures Add(pub, c1, c2) == Add(pub, c2, c1)
  {
    assert c1 * c2 == c2 * c1;
  }

  lemma AddAssociative(pub: PublicKey, c1: nat, c2: nat, c3: nat)
    requires pub.n >= 1
    ensures Add(pub, Add(pub, c1, c2), c3) == Add(pub, c1, Add(pub, c2, c3))
  {
    var N := pub.n * pub.n;
    MulModLeft(c1 * c2, c3, N);
    MulModLeft(c2 * c3, c1, N);
    assert (c2 * c3) * c1 == (c1 * c2) * c3;
    assert ((c2 * c3) % N) * c1 == c1 * ((c2 * c3) % N);
  }

  /** Add reads only the modulus of the public key, never `g`. */
  lemma AddIgnoresGenerator(n: nat, g1: nat, g2: nat, c1: nat, c2: nat)
    requires n >= 1
    ensures Add(PublicKey(n, g1), c1, c2) == Add(PublicKey(n, g2), c1, c2)
  {
  }

  /** Congruent bases have congruent powers. */
  lemma PowCongruent(c: nat, w: nat, e: nat, modulus: nat)
    requires modulus > 0 && c % modulus == w % modulus
    ensures Pow(c, e) % modulus == Pow(w, e) % modulus
  {
    PowMod(c, e, modulus);
    PowMod(w, e, modulus);
  }

  /** (g^m * s^n)^e == g^(m*e) * s^(n*e). */
  lemma PowOfProductOfPowers(g: nat, m: nat, s: nat, n: nat, e: nat)
    ensures Pow(Pow(g, m) * Pow(s, n), e) == Pow(g, m * e) * Pow(s, n * e)
  {
    PowProduct(Pow(g, m), Pow(s, n), e);
    PowMul(g, m, e);
    PowMul(s, n, e);
  }

  /** A factor congruent to 1 does not change a residue. */
  lemma TimesOneModulo(a: int, b: int, x: int, modulus: int)
    requires modulus > 1 && a % modulus == x % modulus && b % modulus == 1
    ensures (a * b) % modulus == x % modulus
  {
    MulMod(a, b, modulus);
    MulMod(x, 1, modulus);
    ModUnique(1, modulus, 0, 1);
  }

  /** c^lambda mod n^2 for a ciphertext congruent to g^m * s^n: the blinding vanishes. */
  lemma PowLambdaOfCiphertext(pub: PublicKey, priv: PrivateKey, p: nat, q: nat, c: nat, m: nat, s: nat)
    requires ValidKeys(pub, priv, p, q) && Blinding(s, p, q)
    requires c % (pub.n * pub.n) == (Pow(pub.g, m) * Pow(s, pub.n)) % (pub.n * pub.n)
    ensures Pow(c, priv.lmb) % (pub.n * pub.n) == (1 + (m * priv.lmb) * pub.n) % (pub.n * pub.n)
  {
    var n, lmb := pub.n, priv.lmb;
    var N := n * n;
    assert N > 1 by { MulAtLeast(n, n); }
    PowCongruent(c, Pow(pub.g, m) * Pow(s, n), lmb, N);
    PowOfProductOfPowers(pub.g, m, s, n, lmb);
    Fermat.PowNLambdaIsOne(s, p, q, n, lmb);
    GeneratorPower(n, m * lmb);
    TimesOneModulo(Pow(pub.g, m * lmb), Pow(s, n * lmb), 1 + (m * lmb) * n, N);
  }

  /** Reducing 1 + k*n modulo n^2 leaves 1 + (k mod n)*n, whose L-value is k mod n. */
  lemma LinearTermReduced(n: nat, k: nat)
    requires n >= 2
    ensures (1 + k * n) % (n * n) == 1 + (k % n) * n
    ensures ((1 + (k % n) * n) - 1) / n == k % n
  {
    var t := k % n;
    assert k == t + (k / n) * n;
    assert 1 + k * n == (1 + t * n) + (k / n) * (n * n);
    assert t <= n - 1;
    assert t * n <= (n - 1) * n;
    assert 1 + t * n < n * n;
    ModUnique(1 + k * n, n * n, k / n, 1 + t * n);
    ModUnique(t * n, n, t, 0);
  }

  /**
   * The core of decryption: any ciphertext congruent to g^m * s^n modulo n^2, with s
   * coprime to n, decrypts to m mod n.
   */
  lemma DecryptCongruent(pub: PublicKey, priv: PrivateKey, p: nat, q: nat, c: nat, m: nat, s: nat)
    requires ValidKeys(pub, priv, p, q) && Blinding(s, p, q)
    requires c % (pub.n * pub.n) == (Pow(pub.g, m) * Pow(s, pub.n)) % (pub.n * pub.n)
    ensures Decrypt(priv, pub, c) == m % pub.n
  {
    PowLambdaOfCiphertext(pub, priv, p, q, c, m, s);
    DecryptArithmetic(pub.n, priv.lmb, priv.mu, m, Pow(c, priv.lmb) % (pub.n * pub.n));
  }

  /**
   * The last steps of decryption: from x = 1 + (m * lambda) * n mod n^2, L(x) * mu mod n is m
   * mod n when mu inverts lambda modulo n.
   */
  lemma DecryptArithmetic(n: nat, lmb: nat, mu: nat, m: nat, x: int)
    requires n >= 2 && (lmb * mu) % n == 1
    requires x == (1 + (m * lmb) * n) % (n * n)
    ensures (((x - 1) / n) * mu) % n == m % n
  {
    LinearTermReduced(n, m * lmb);
    MulModLeft(m * lmb, mu, n);
    assert (m * lmb) * mu == m * (lmb * mu);
    MulMod(m, lmb * mu, n);
    ModUnique(1, n, 0, 1);
    MulMod(m, 1, n);
  }

  /** Reducing both factors before multiplying does not change the product's residue. */
  lemma ReducedProduct(a: int, b: int, modulus: int)
    requires modulus > 0
    ensures ((a % modulus) * (b % modulus)) % modulus % modulus == (a * b) % modulus
  {
    MulMod(a, b, modulus);
    ModMod((a % modulus) * (b % modulus), modulus);
  }

  /** An honest encryption is congruent to g^m * r^n modulo n^2. */
  lemma EncryptCongruent(pub: PublicKey, m: nat, r: nat)
    requires pub.n >= 2 && 1 <= r <= pub.n - 1
    ensures Encrypt(pub, m, r) % (pub.n * pub.n) == (Pow(pub.g, m) * Pow(r, pub.n)) % (pub.n * pub.n)
  {
    ReducedProduct(Pow(pub.g, m), Pow(r, pub.n), pub.n * pub.n);
  }

  /** Round trip: decrypt(encrypt(m)) == m for every plaintext below n. */
  lemma DecryptEncrypt(pub: PublicKey, priv: PrivateKey, p: nat, q: nat, m: nat, r: nat)
    requires ValidKeys(pub, priv, p, q) && m < pub.n
    requires 1 <= r <= pub.n - 1 && Blinding(r, p, q)
    ensures Decrypt(priv, pub, Encrypt(pub, m, r)) == m
  {
    EncryptCongruent(pub, m, r);
    DecryptCongruent(pub, priv, p, q, Encrypt(pub, m, r), m, r);
    ModUnique(m, pub.n, 0, m);
  }

  /** Multiplying ciphertexts multiplies their g- and blinding-parts. */
  lemma AddCongruent(pub: PublicKey, c1: nat, m1: nat, s1: nat, c2: nat, m2: nat, s2: nat)
    requires pub.n >= 1
    requires c1 % (pub.n * pub.n) == (Pow(pub.g, m1) * Pow(s1, pub.n)) % (pub.n * pub.n)
    requires c2 % (pub.n * pub.n) == (Pow(pub.g, m2) * Pow(s2, pub.n)) % (pub.n * pub.n)
    ensures Add(pub, c1, c2) % (pub.n * pub.n)
         == (Pow(pub.g, m1 + m2) * Pow(s1 * s2, pub.n)) % (pub.n * pub.n)
  {
    var N, g, n := pub.n * pub.n, pub.g, pub.n;
    var a1, b1, a2, b2 := Pow(g, m1), Pow(s1, n), Pow(g, m2), Pow(s2, n);
    ModMod(c1 * c2, N);
    MulMod(c1, c2, N);
    MulMod(a1 * b1, a2 * b2, N);
    PowAdd(g, m1, m2);
    PowProduct(s1, s2, n);
    Interchange(a1, b1, a2, b2);
    assert (a1 * b1) * (a2 * b2) == Pow(g, m1 + m2) * Pow(s1 * s2, n) by {
      Interchange(a1, a2, b1, b2);
      assert (a1 * b1) * (a2 * b2) == (a1 * a2) * (b1 * b2);
    }
  }

  /** Homomorphism: decrypting the sum of two encryptions gives (a + b) mod n. */
  lemma DecryptAdd(pub: PublicKey, priv: PrivateKey, p: nat, q: nat, a: nat, ra: nat, b: nat, rb: nat)
    requires ValidKeys(pub, priv, p, q)
    requires 1 <= ra <= pub.n - 1 && Blinding(ra, p, q)
    requires 1 <= rb <= pub.n - 1 && Blinding(rb, p, q)
    ensures Decrypt(priv, pub, Add(pub, Encrypt(pub, a, ra), Encrypt(pub, b, rb))) == (a + b) % pub.n
  {
    EncryptCongruent(pub, a, ra);
    EncryptCongruent(pub, b, rb);
    AddCongruent(pub, Encrypt(pub, a, ra), a, ra, Encrypt(pub, b, rb), b, rb);
    PrimeNotDividesProduct(p, ra, rb);
    PrimeNotDividesProduct(q, ra, rb);
    DecryptCongruent(pub, priv, p, q, Add(pub, Encrypt(pub, a, ra), Encrypt(pub, b, rb)), a + b, ra * rb);
  }

  /** The plaintext total of a sequence of messages. */
  function Sum(ms: seq<nat>): nat
  {
    if ms == [] then 0 else ms[0] + Sum(ms[1..])
  }

  /** Entry i of `cs` is the encryption of `ms[i]` under the blinding draw `rs[i]`. */
  ghost predicate HonestEncryptions(pub: PublicKey, p: nat, q: nat, cs: seq<nat>, ms: seq<nat>, rs: seq<nat>)
  {
    && pub.n >= 2
    && |cs| == |ms| == |rs|
    && forall i :: 0 <= i < |cs| ==>
         1 <= rs[i] <= pub.n - 1 && Blinding(rs[i], p, q) && cs[i] == Encrypt(pub, ms[i], rs[i])
  }

  /**
   * Folding `Add` over honest encryptions keeps the accumulator of the form
   * g^(M + total) * T^n with a blinding T that decryption can still strip.
   */
  lemma {:induction false} AddFoldCongruent(pub: PublicKey, p: nat, q: nat, acc: nat, total: nat, s: nat,
                                            cs: seq<nat>, ms: seq<nat>, rs: seq<nat>) returns (t: nat)
    requires IsPrime(p) && IsPrime(q) && Blinding(s, p, q)
    requires HonestEncryptions(pub, p, q, cs, ms, rs)
    requires acc % (pub.n * pub.n) == (Pow(pub.g, total) * Pow(s, pub.n)) % (pub.n * pub.n)
    ensures Blinding(t, p, q)
    ensures AddFold(pub, acc, cs) % (pub.n * pub.n) == (Pow(pub.g, total + Sum(ms)) * Pow(t, pub.n)) % (pub.n * pub.n)
    decreases |cs|
  {
    if cs == [] {
      t := s;
    } else {
      EncryptCongruent(pub, ms[0], rs[0]);
      AddCongruent(pub, acc, total, s, cs[0], ms[0], rs[0]);
      PrimeNotDividesProduct(p, s, rs[0]);
      PrimeNotDividesProduct(q, s, rs[0]);
      assert HonestEncryptions(pub, p, q, cs[1..], ms[1..], rs[1..]) by {
        forall i | 0 <= i < |cs| - 1
          ensures 1 <= rs[1..][i] <= pub.n - 1 && Blinding(rs[1..][i], p, q)
          ensures cs[1..][i] == Encrypt(pub, ms[1..][i], rs[1..][i])
        {
          assert cs[1..][i] == cs[i + 1] && ms[1..][i] == ms[i + 1] && rs[1..][i] == rs[i + 1];
        }
      }
      t := AddFoldCongruent(pub, p, q, Add(pub, acc, cs[0]), total + ms[0], s * rs[0], cs[1..], ms[1..], rs[1..]);
      assert total + ms[0] + Sum(ms[1..]) == total + Sum(ms);
    }
  }

  /**
   * The server's aggregation: starting from the first ciphertext and adding the rest,
   * the result decrypts to the plaintext total modulo n.
   */
  lemma DecryptAddFold(pub: PublicKey, priv: PrivateKey, p: nat, q: nat, cs: seq<nat>, ms: seq<nat>, rs: seq<nat>)
    requires ValidKeys(pub, priv, p, q) && HonestEncryptions(pub, p, q, cs, ms, rs) && |cs| >= 1
    ensures Decrypt(priv, pub, AddFold(pub, cs[0], cs[1..])) == Sum(ms) % pub.n
  {
    EncryptCongruent(pub, ms[0], rs[0]);
    assert HonestEncryptions(pub, p, q, cs[1..], ms[1..], rs[1..]) by {
      forall i | 0 <= i < |cs| - 1
        ensures 1 <= rs[1..][i] <= pub.n - 1 && Blinding(rs[1..][i], p, q)
        ensures cs[1..][i] == Encrypt(pub, ms[1..][i], rs[1..][i])
      {
        assert cs[1..][i] == cs[i + 1] && ms[1..][i] == ms[i + 1] && rs[1..][i] == rs[i + 1];
      }
    }
    var t := AddFoldCongruent(pub, p, q, cs[0], ms[0], rs[0], cs[1..], ms[1..], rs[1..]);
    assert ms[0] + Sum(ms[1..]) == Sum(ms);
    DecryptCongruent(pub, priv, p, q, AddFold(pub, cs[0], cs[1..]), Sum(ms), t);
  }

  lemma {:induction false} PowOfTwoAtLeast(e: nat)
    ensures Pow(2, e) >= e + 1
  {
    if e > 0 {
      PowOfTwoAtLeast(e - 1);
    }
  }

  /** Two consecutive numbers from 4 on are never both prime: one of them is even. */
  lemma ConsecutiveNotBothPrime(x: nat)
    requires x >= 4
    ensures !(IsPrime(x) && IsPrime(x + 1))
  {
    if x % 2 == 0 {
      assert Divides(2, x);
    } else {
      assert Divides(2, x + 1);
    }
  }

  /** A prime with the same bit length as `p` and other than `p` is not 1 more than a multiple of it. */
  lemma SameLengthPrimeNotCongruentOne(p: nat, q: nat, bits: nat)
    requires IsPrime(p) && IsPrime(q) && p != q && bits >= 3
    requires HasBitLength(p, bits) && HasBitLength(q, bits)
    ensures (q - 1) % p != 0
  {
    assert Pow(2, bits) == 2 * Pow(2, bits - 1);
    assert Pow(2, bits - 1) == 2 * Pow(2, bits - 2);
    PowOfTwoAtLeast(bits - 2);
    if q < p {
      ModUnique(q - 1, p, 0, q - 1);
    } else {
      ModUnique(q - 1, p, 1, q - 1 - p);
      if q == p + 1 {
        ConsecutiveNotBothPrime(p);
      }
    }
  }

  /** Neither prime divides lambda = (p-1)(q-1). */
  lemma PrimeNotDividesLambda(p: nat, q: nat, bits: nat)
    requires IsPrime(p) && IsPrime(q) && p != q && bits >= 3
    requires HasBitLength(p, bits) && HasBitLength(q, bits)
    ensures ((p - 1) * (q - 1)) % p != 0
  {
    ModUnique(p - 1, p, 0, p - 1);
    SameLengthPrimeNotCongruentOne(p, q, bits);
    PrimeNotDividesProduct(p, p - 1, q - 1);
  }

  /** Gcd(a, b) == 1 is symmetric. */
  lemma CoprimeSymmetric(a: nat, b: nat)
    requires Gcd(a, b) == 1
    ensures Gcd(b, a) == 1
  {
    var r := Bezout(a, b);
    BezoutOneGcd(b, a, r.1, r.0);
  }

  /** A number neither prime divides is coprime to their product. */
  lemma CoprimeToBothPrimes(p: nat, q: nat, x: nat)
    requires IsPrime(p) && IsPrime(q) && x % p != 0 && x % q != 0
    ensures Gcd(x, p * q) == 1
  {
    PrimeCoprime(p, x);
    PrimeCoprime(q, x);
    CoprimeMul(p, q, x);
    CoprimeSymmetric(p * q, x);
  }

  /**
   * generate_keys cannot fail on its inverse when its two primes are distinct and of the
   * same length of at least 3 bits: lambda = (p-1)(q-1) is coprime to n = pq.
   */
  lemma LambdaInvertible(p: nat, q: nat, bits: nat)
    requires IsPrime(p) && IsPrime(q) && p != q && bits >= 3
    requires HasBitLength(p, bits) && HasBitLength(q, bits)
    ensures Gcd((p - 1) * (q - 1), p * q) == 1
  {
    PrimeNotDividesLambda(p, q, bits);
    PrimeNotDividesLambda(q, p, bits);
    assert (q - 1) * (p - 1) == (p - 1) * (q - 1);
    MulAtLeast(p - 1, q - 1);
    CoprimeToBothPrimes(p, q, (p - 1) * (q - 1));
  }

  /** With p == q, lambda = (p-1)^2 is still coprime to n = p^2. */
  lemma SamePrimeLambdaInvertible(p: nat)
    requires IsPrime(p)
    ensures Gcd((p - 1) * (p - 1), p * p) == 1
  {
    ModUnique(p - 1, p, 0, p - 1);
    PrimeCoprime(p, p - 1);
    CoprimeMul(p, p, p - 1);
    CoprimeSymmetric(p * p, p - 1);
    CoprimeMul(p - 1, p - 1, p * p);
  }

  /**
   * generate_keys never raises on its inverse for two primes of the same length of at least
   * 3 bits, whether or not getPrime happens to return the same prime twice.
   */
  lemma KeyGenerationSucceeds(p: nat, q: nat, bits: nat)
    requires IsPrime(p) && IsPrime(q) && bits >= 3
    requires HasBitLength(p, bits) && HasBitLength(q, bits)
    ensures Gcd((p - 1) * (q - 1), p * q) == 1
  {
    if p == q {
      SamePrimeLambdaInvertible(p);
    } else {
      LambdaInvertible(p, q, bits);
    }
  }
}
