/**
 * Primes, safe primes, and Fermat's little theorem, which is what makes the
 * ElGamal decryption shortcut c1^(p-1-x) work.  The theorem is proved here
 * from the binomial expansion of (a+1)^p.
 */
module Primes {
  import opened Arith

  /** d is a positive divisor of n. */
  predicate Divides(d: int, n: int) {
    d > 0 && n % d == 0
  }

  /** n is prime: at least 2 and without a divisor strictly between 1 and n. */
  predicate IsPrime(n: int) {
    n >= 2 && forall d :: 2 <= d < n ==> !Divides(d, n)
  }

  /** A safe prime p: p is prime and so is (p-1)/2, i.e. p == 2q + 1 with q prime. */
  predicate IsSafePrime(p: int) {
    IsPrime(p) && p % 2 == 1 && IsPrime((p - 1) / 2)
  }

  /** Building p as 2q + 1 from a prime q, and accepting it only when p is prime, gives a safe prime. */
  lemma SafePrimeFromSophieGermain(q: int)
    requires IsPrime(q) && IsPrime(2 * q + 1)
    ensures IsSafePrime(2 * q + 1)
  {
    assert (2 * q + 1 - 1) / 2 == q;
  }

  /**
   * Euclid's lemma, in the form needed here: a prime that divides a*b with
   * 0 < a < p divides b.  By induction on a, replacing a by p % a.
   */
  lemma {:induction false} Euclid(p: int, a: int, b: int)
    requires IsPrime(p) && 0 < a < p && (a * b) % p == 0
    ensures b % p == 0
    decreases a
  {
    if a > 1 {
      assert !Divides(a, p);
      var q, r := p / a, p % a;
      assert p == q * a + r && 0 < r < a;
      var t := (a * b) / p;
      assert a * b == t * p;
      assert r * b == (b - q * t) * p;
      ModMultiple(b - q * t, p);
      Euclid(p, r, b);
    }
  }

  /** Euclid's lemma for any factor a that p does not divide. */
  lemma EuclidMod(p: int, a: int, b: int)
    requires IsPrime(p) && a % p != 0 && (a * b) % p == 0
    ensures b % p == 0
  {
    MulModLeft(a, b, p);
    Euclid(p, a % p, b);
  }

  /** Binomial coefficient, by Pascal's rule. */
  function Binom(n: nat, k: nat): nat {
    if k == 0 then 1 else if n == 0 then 0 else Binom(n - 1, k - 1) + Binom(n - 1, k)
  }

  lemma {:induction false} BinomAbove(n: nat, k: nat)
    requires k > n
    ensures Binom(n, k) == 0
  {
    if n > 0 {
      BinomAbove(n - 1, k - 1);
      BinomAbove(n - 1, k);
    }
  }

  lemma {:induction false} BinomDiagonal(n: nat)
    ensures Binom(n, n) == 1
  {
    if n > 0 {
      BinomDiagonal(n - 1);
      BinomAbove(n - 1, n);
    }
  }

  /** The ring identity behind one step of BinomAbsorb. */
  lemma AbsorbStep(n: int, k: int, a: int, b: int, c: int, d: int)
    requires c == a + b && k * d == (n - 1) * b && (k - 1) * c == (n - 1) * a
    ensures k * (c + d) == n * c
  {
    calc {
      k * (c + d);
      k * c + k * d;
      (k - 1) * c + c + (n - 1) * b;
      (n - 1) * a + (n - 1) * b + c;
      (n - 1) * (a + b) + c;
      n * c;
    }
  }

  /** The absorption identity k * C(n, k) == n * C(n-1, k-1). */
  lemma {:induction false} BinomAbsorb(n: nat, k: nat)
    requires n >= 1 && k >= 1
    ensures k * Binom(n, k) == n * Binom(n - 1, k - 1)
  {
    if n == 1 {
      if k > 1 {
        BinomAbove(0, k - 1);
        BinomAbove(0, k);
      }
    } else if k == 1 {
      assert Binom(n, 1) == Binom(n - 1, 0) + Binom(n - 1, 1);
      BinomAbsorb(n - 1, 1);
    } else {
      BinomAbsorb(n - 1, k);
      BinomAbsorb(n - 1, k - 1);
      AbsorbStep(n, k, Binom(n - 2, k - 2), Binom(n - 2, k - 1), Binom(n - 1, k - 1), Binom(n - 1, k));
    }
  }

  /** A prime p divides C(p, k) for 0 < k < p. */
  lemma BinomPrime(p: int, k: nat)
    requires IsPrime(p) && 0 < k < p
    ensures Binom(p, k) % p == 0
  {
    BinomAbsorb(p, k);
    ModMultiple(Binom(p - 1, k - 1), p);
    Euclid(p, k, Binom(p, k));
  }

  /** The first j terms of the binomial expansion of (a+1)^n: the sum of C(n, i) * a^i for i < j. */
  function BinSum(a: int, n: nat, j: nat): int {
    if j == 0 then 0 else BinSum(a, n, j - 1) + Binom(n, j - 1) * Pow(a, j - 1)
  }

  /** The ring identity behind one step of BinSumPascal. */
  lemma PascalStep(a: int, s0: int, s1: int, c0: int, c1: int, w: int)
    ensures a * s0 + s1 + (c0 + c1) * (a * w) == a * (s0 + c0 * w) + (s1 + c1 * (a * w))
  {
    calc {
      a * s0 + s1 + (c0 + c1) * (a * w);
      s1 + c0 * (a * w) + c1 * (a * w) + a * s0;
      { assert c0 * (a * w) == a * (c0 * w); }
      a * s0 + a * (c0 * w) + (s1 + c1 * (a * w));
      a * (s0 + c0 * w) + (s1 + c1 * (a * w));
    }
  }

  /** Pascal's rule lifted to the partial sums. */
  lemma {:induction false} BinSumPascal(a: int, n: nat, j: nat)
    ensures BinSum(a, n + 1, j + 1) == a * BinSum(a, n, j) + BinSum(a, n, j + 1)
  {
    if j > 0 {
      BinSumPascal(a, n, j - 1);
      assert Binom(n + 1, j) == Binom(n, j - 1) + Binom(n, j);
      assert Pow(a, j) == a * Pow(a, j - 1);
      PascalStep(a, BinSum(a, n, j - 1), BinSum(a, n, j), Binom(n, j - 1), Binom(n, j), Pow(a, j - 1));
    }
  }

  /** The binomial theorem for (a+1)^n. */
  lemma {:induction false} BinomialTheorem(a: int, n: nat)
    ensures Pow(a + 1, n) == BinSum(a, n, n + 1)
  {
    if n > 0 {
      var s := BinSum(a, n - 1, n);
      BinomialTheorem(a, n - 1);
      assert Pow(a + 1, n) == (a + 1) * s;
      BinSumPascal(a, n - 1, n);
      BinomAbove(n - 1, n);
      assert BinSum(a, n - 1, n + 1) == s + 0 * Pow(a, n);
      assert (a + 1) * s == a * s + s;
    }
  }

  /** Modulo a prime p, every middle term of the expansion of (a+1)^p vanishes. */
  lemma {:induction false} BinSumPrime(a: int, p: int, j: nat)
    requires IsPrime(p) && 1 <= j <= p
    ensures BinSum(a, p, j) % p == 1
  {
    if j == 1 {
      assert BinSum(a, p, 1) == 0 + 1 * 1;
      ModSmall(1, p);
    } else {
      var c, w := Binom(p, j - 1), Pow(a, j - 1);
      BinSumPrime(a, p, j - 1);
      BinomPrime(p, j - 1);
      MulMultiple(c, w, p);
      ModShift(BinSum(a, p, j - 1), c * w, p);
    }
  }

  /** The freshman's dream: (a+1)^p == a^p + 1 modulo a prime p. */
  lemma FreshmansDream(a: int, p: int)
    requires IsPrime(p)
    ensures Pow(a + 1, p) % p == (Pow(a, p) + 1) % p
  {
    var n: nat := p;
    var s, w := BinSum(a, n, n), Pow(a, n);
    BinomialTheorem(a, n);
    BinomDiagonal(n);
    assert BinSum(a, n, n + 1) == s + Binom(n, n) * w;
    assert Pow(a + 1, n) == s + w;
    BinSumPrime(a, p, n);
    ModSmall(1, p);
    ModAddBoth(s, 1, w, p);
  }

  /** a^p == a modulo a prime p, for natural a, by induction on a. */
  lemma {:induction false} FermatNat(a: nat, p: int)
    requires IsPrime(p)
    ensures Pow(a, p) % p == a % p
  {
    if a == 0 {
      PowZero(p);
    } else {
      FermatNat(a - 1, p);
      FreshmansDream(a - 1, p);
      ModAddBoth(Pow(a - 1, p), a - 1, 1, p);
    }
  }

  /** Fermat's little theorem: a^(p-1) == 1 modulo a prime p that does not divide a. */
  lemma FermatLittle(a: int, p: int)
    requires IsPrime(p) && a % p != 0
    ensures Pow(a, p - 1) % p == 1
  {
    var P := Pow(a, p - 1);
    // a^p == a (mod p)
    PowMod(a, p, p);
    FermatNat(a % p, p);
    ModIdempotent(a, p);
    assert Pow(a, p) == a * P;
    // so p divides a * P - a == a * (P - 1)
    ModSubCongruent(a * P, a, p);
    assert a * P - a == a * (P - 1);
    EuclidMod(p, a, P - 1);
    // hence P == 1 (mod p)
    ModShift(1, P - 1, p);
    ModSmall(1, p);
  }
}
