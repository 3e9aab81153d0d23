/**
 * Exact integer arithmetic that the cipher relies on: natural-number powers
 * and the congruence facts about Euclidean remainder (`%` with a positive
 * modulus, which is what java.math.BigInteger's `mod` and `modPow` return).
 */
module Arith {

  /** b raised to the power e, for any integer base. */
  function Pow(b: int, e: nat): int
    decreases e
  {
    if e == 0 then 1 else b * Pow(b, e - 1)
  }

  /** 2 raised to the power k, as a natural number (the weight of bit k). */
  function Pow2(k: nat): (r: nat)
    ensures r >= 1
  {
    if k == 0 then 1 else 2 * Pow2(k - 1)
  }

  /** Quotient and remainder are unique: any decomposition x == q*m + r with 0 <= r < m is Dafny's. */
  lemma ModUnique(x: int, m: int, q: int, r: int)
    requires m >= 1 && x == q * m + r && 0 <= r < m
    ensures x % m == r && x / m == q
  {
    var d := q - x / m;
    assert x == (x / m) * m + x % m;
    assert d * m == x % m - r;
    if d >= 1 {
      assert false;
    } else if d <= -1 {
      assert false;
    }
  }

  /** Adding a multiple of the modulus does not change the remainder. */
  lemma ModAddMultiple(x: int, k: int, m: int)
    requires m >= 1
    ensures (x + k * m) % m == x % m
  {
    assert x == (x / m) * m + x % m;
    ModUnique(x + k * m, m, x / m + k, x % m);
  }

  /** A multiple of the modulus leaves remainder zero. */
  lemma ModMultiple(k: int, m: int)
    requires m >= 1
    ensures (k * m) % m == 0 && (m * k) % m == 0
  {
    ModUnique(k * m, m, k, 0);
  }

  /** Remainder of a remainder. */
  lemma ModIdempotent(x: int, m: int)
    requires m >= 1
    ensures (x % m) % m == x % m
  {
    ModUnique(x % m, m, 0, x % m);
  }

  /** A number already in [0, m) is its own remainder. */
  lemma ModSmall(x: int, m: int)
    requires 0 <= x < m
    ensures x % m == x
  {
    ModUnique(x, m, 0, x);
  }

  /** Congruences survive adding the same number to both sides. */
  lemma ModAddBoth(x: int, y: int, z: int, m: int)
    requires m >= 1 && x % m == y % m
    ensures (x + z) % m == (y + z) % m
  {
    AddMod(x, z, m);
    AddMod(y, z, m);
  }

  /** Congruent numbers differ by a multiple of the modulus. */
  lemma ModSubCongruent(x: int, y: int, m: int)
    requires m >= 1 && x % m == y % m
    ensures (x - y) % m == 0
  {
    assert x == (x / m) * m + x % m;
    assert y == (y / m) * m + y % m;
    assert x - y == (x / m - y / m) * m;
    ModMultiple(x / m - y / m, m);
  }

  /** The converse: a multiple of the modulus apart means congruent. */
  lemma ModShift(x: int, d: int, m: int)
    requires m >= 1 && d % m == 0
    ensures (x + d) % m == x % m
  {
    assert d == (d / m) * m + d % m;
    ModAddMultiple(x, d / m, m);
  }

  /** A multiple of m times anything is a multiple of m. */
  lemma MulMultiple(x: int, y: int, m: int)
    requires m >= 1 && x % m == 0
    ensures (x * y) % m == 0
  {
    MulModLeft(x, y, m);
  }

  /** Remainder of a sum depends only on the remainders of the summands. */
  lemma AddMod(x: int, y: int, m: int)
    requires m >= 1
    ensures (x + y) % m == ((x % m) + (y % m)) % m
  {
    assert x == (x / m) * m + x % m;
    assert y == (y / m) * m + y % m;
    ModAddMultiple((x % m) + (y % m), x / m + y / m, m);
    assert x + y == (x % m) + (y % m) + (x / m + y / m) * m;
  }

  /** Remainder of a product depends only on the remainders of the factors. */
  lemma MulMod(x: int, y: int, m: int)
    requires m >= 1
    ensures (x * y) % m == ((x % m) * (y % m)) % m
  {
    var qx, rx := x / m, x % m;
    var qy, ry := y / m, y % m;
    assert x == qx * m + rx;
    assert y == qy * m + ry;
    assert x * y == rx * ry + (qx * qy * m + qx * ry + rx * qy) * m;
    ModAddMultiple(rx * ry, qx * qy * m + qx * ry + rx * qy, m);
  }

  /** Reducing only the right factor first. */
  lemma MulModRight(x: int, y: int, m: int)
    requires m >= 1
    ensures (x * (y % m)) % m == (x * y) % m
  {
    MulMod(x, y, m);
    MulMod(x, y % m, m);
    ModIdempotent(y, m);
  }

  /** Reducing only the left factor first. */
  lemma MulModLeft(x: int, y: int, m: int)
    requires m >= 1
    ensures ((x % m) * y) % m == (x * y) % m
  {
    MulMod(x, y, m);
    MulMod(x % m, y, m);
    ModIdempotent(x, m);
  }

  /** b^(e1 + e2) == b^e1 * b^e2. */
  lemma {:induction false} PowAdd(b: int, e1: nat, e2: nat)
    ensures Pow(b, e1 + e2) == Pow(b, e1) * Pow(b, e2)
    decreases e1
  {
    if e1 > 0 {
      PowAdd(b, e1 - 1, e2);
      assert Pow(b, e1 + e2) == b * Pow(b, (e1 - 1) + e2);
      assert b * (Pow(b, e1 - 1) * Pow(b, e2)) == (b * Pow(b, e1 - 1)) * Pow(b, e2);
    }
  }

  /** b^(e1 * e2) == (b^e1)^e2. */
  lemma {:induction false} PowMul(b: int, e1: nat, e2: nat)
    ensures Pow(b, e1 * e2) == Pow(Pow(b, e1), e2)
    decreases e2
  {
    if e2 > 0 {
      PowMul(b, e1, e2 - 1);
      assert e1 * e2 == e1 * (e2 - 1) + e1;
      PowAdd(b, e1 * (e2 - 1), e1);
    }
  }

  /** Powers of one. */
  lemma {:induction false} PowOne(e: nat)
    ensures Pow(1, e) == 1
  {
    if e > 0 {
      PowOne(e - 1);
    }
  }

  /** Positive powers of zero. */
  lemma PowZero(e: nat)
    requires e >= 1
    ensures Pow(0, e) == 0
  {
  }

  /** Reducing the base before exponentiating does not change the remainder. */
  lemma {:induction false} PowMod(b: int, e: nat, m: int)
    requires m >= 1
    ensures Pow(b % m, e) % m == Pow(b, e) % m
    decreases e
  {
    if e > 0 {
      PowMod(b, e - 1, m);
      calc {
        Pow(b % m, e) % m;
        ((b % m) * Pow(b % m, e - 1)) % m;
        { MulModRight(b % m, Pow(b % m, e - 1), m); }
        ((b % m) * (Pow(b % m, e - 1) % m)) % m;
        ((b % m) * (Pow(b, e - 1) % m)) % m;
        { MulModRight(b % m, Pow(b, e - 1), m); }
        ((b % m) * Pow(b, e - 1)) % m;
        { MulModLeft(b, Pow(b, e - 1), m); }
        (b * Pow(b, e - 1)) % m;
      }
    }
  }

  /** A power of a positive multiple of m is itself a multiple of m. */
  lemma {:induction false} PowOfMultiple(b: int, e: nat, m: int)
    requires m >= 1 && b % m == 0 && e >= 1
    ensures Pow(b, e) % m == 0
  {
    PowMod(b, e, m);
    PowZero(e);
  }
}
