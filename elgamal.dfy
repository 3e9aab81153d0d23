/**
 * The ElGamal demonstration program (section 8.4 of the Handbook of Applied
 * Cryptography): safe-prime and generator search, key derivation, encryption
 * with a hand-written square-and-multiply routine, decryption with the
 * exponent p-1-x, and the equality check of the decrypted plaintext.
 *
 * Values are integers of any size (java.math.BigInteger); randomness enters
 * as the sequence of values the program would draw, and probabilistic
 * primality as the exact predicate IsPrime.
 */
module ElGamalCipher {
  import opened Arith
  import opened Primes
  import opened BinaryString

  /** `b.modPow(e, m)` for a positive modulus m and a non-negative exponent. */
  function ModPow(b: int, e: nat, m: int): (r: int)
    requires m >= 1
    ensures 0 <= r < m
    ensures r == Pow(b % m, e) % m
  {
    PowMod(b, e, m);
    Pow(b, e) % m
  }

  /** A ciphertext: the ephemeral value c1 and the masked message c2. */
  datatype Ciphertext = Ciphertext(c1: int, c2: int)

  /**
   * Encryption of m under the recipient's public key y with secret exponent k:
   * c1 == g^k mod p and c2 == m * (y^k mod p) mod p.
   */
  function EncryptWith(p: int, g: int, y: int, m: int, k: nat): (c: Ciphertext)
    requires p >= 1
    ensures 0 <= c.c1 < p && 0 <= c.c2 < p
    ensures c.c2 == (m * Pow(y, k)) % p
  {
    MulModRight(m, Pow(y, k), p);
    Ciphertext(ModPow(g, k, p), (m * ModPow(y, k, p)) % p)
  }

  /** The decryption exponent t == p - 1 - x; the draw loop's x < p - 1 keeps it positive. */
  function DecryptionExponent(p: int, x: nat): (t: nat)
    requires x < p - 1
    ensures 1 <= t <= p - 1
  {
    p - 1 - x
  }

  /** Decryption with private exponent x: (c1^(p-1-x) mod p) * c2 mod p. */
  function Decrypt(p: int, x: nat, c: Ciphertext): (m: int)
    requires x < p - 1
    ensures 0 <= m < p
  {
    (ModPow(c.c1, DecryptionExponent(p, x), p) * c.c2) % p
  }

  /** c1^t == g^(k*t) modulo p. */
  lemma PowOfResidue(p: int, g: int, k: nat, t: nat)
    requires p >= 1
    ensures Pow(ModPow(g, k, p), t) % p == Pow(g, k * t) % p
  {
    PowMod(Pow(g, k), t, p);
    PowMul(g, k, t);
  }

  /** c2 == m * g^(x*k) modulo p when y == g^x mod p. */
  lemma MaskedMessage(p: int, g: int, m: int, x: nat, k: nat)
    requires p >= 1
    ensures EncryptWith(p, g, ModPow(g, x, p), m, k).c2 == (m * Pow(g, x * k)) % p
  {
    PowOfResidue(p, g, x, k);
    MulModRight(m, Pow(ModPow(g, x, p), k), p);
    MulModRight(m, Pow(g, x * k), p);
  }

  /** The two masks combine to (g^(p-1))^k: k*(p-1-x) + x*k == (p-1)*k. */
  lemma MasksCombine(p: int, g: int, x: nat, k: nat)
    requires x < p - 1
    ensures Pow(g, k * DecryptionExponent(p, x)) * Pow(g, x * k) == Pow(Pow(g, p - 1), k)
  {
    var t := DecryptionExponent(p, x);
    assert k * t + x * k == (p - 1) * k;
    PowAdd(g, k * t, x * k);
    PowMul(g, p - 1, k);
  }

  /** (g^(p-1))^k == 1 modulo a prime p that does not divide g. */
  lemma FermatPower(p: int, g: int, k: nat)
    requires IsPrime(p) && g % p != 0
    ensures Pow(Pow(g, p - 1), k) % p == 1
  {
    FermatLittle(g, p);
    PowMod(Pow(g, p - 1), k, p);
    PowOne(k);
  }

  /** Multiplying residues: ((a mod p) * (b mod p)) mod p == (a * b) mod p, with b == m * b'. */
  lemma ResidueProduct(p: int, a: int, m: int, b: int, one: int)
    requires p >= 1 && 0 <= m < p && (a * b) == one && one % p == 1
    ensures ((a % p) * ((m * b) % p)) % p == m
  {
    calc {
      ((a % p) * ((m * b) % p)) % p;
      { MulMod(a, m * b, p); }
      (a * (m * b)) % p;
      { assert a * (m * b) == m * (a * b); }
      (m * one) % p;
      { MulModRight(m, one, p); }
      (m * 1) % p;
      { ModUnique(m, p, 0, m); }
      m;
    }
  }

  /**
   * The round trip that the program's final equality check reports: for a
   * prime p, a generator not divisible by p and a plaintext in [0, p),
   * decrypting with x what was encrypted under g^x mod p gives the plaintext
   * back, whatever the sender's exponent k.  It rests on Fermat's little theorem.
   */
  lemma RoundTrip(p: int, g: int, m: int, x: nat, k: nat)
    requires IsPrime(p) && g % p != 0 && 0 <= m < p && x < p - 1
    ensures Decrypt(p, x, EncryptWith(p, g, ModPow(g, x, p), m, k)) == m
  {
    var c := EncryptWith(p, g, ModPow(g, x, p), m, k);
    var t := DecryptionExponent(p, x);
    PowOfResidue(p, g, k, t);
    MaskedMessage(p, g, m, x, k);
    MasksCombine(p, g, x, k);
    FermatPower(p, g, k);
    ResidueProduct(p, Pow(g, k * t), m, Pow(g, x * k), Pow(Pow(g, p - 1), k));
    ModIdempotent(Pow(g, k * t), p);
  }

  /**
   * The acceptance test of the generator search with n == p - 1: a candidate
   * r is taken when r < p and r^n mod (n/2) != 1.  The reduction is modulo
   * n/2, as the program writes it, not modulo p.
   */
  predicate GeneratorTest(cyclicGroup: int, n: nat, r: nat)
    requires n >= 2
  {
    r < cyclicGroup && ModPow(r, n, n / 2) != 1
  }

  /** The candidate 1 is rejected exactly when (p-1)/2 > 1, that is for every p >= 5. */
  lemma GeneratorTestOne(p: int)
    requires p >= 3
    ensures GeneratorTest(p, p - 1, 1) <==> p < 5
  {
    PowOne(p - 1);
  }

  /** The candidate 0 is always accepted: 0^(p-1) mod ((p-1)/2) is 0. */
  lemma GeneratorTestZero(p: int)
    requires p >= 3
    ensures GeneratorTest(p, p - 1, 0)
  {
    PowZero(p - 1);
  }

  /** Modulo a prime q that does not divide r, r^(2q) == r^2 (Fermat's little theorem, squared). */
  lemma PowTwiceModPrime(q: int, r: int)
    requires IsPrime(q) && r % q != 0
    ensures Pow(r, 2 * q) % q == (r * r) % q
  {
    var f := Pow(r, q - 1);
    var ff := Pow(r, (q - 1) * 2);
    var rr := Pow(r, 2);
    FermatLittle(r, q);
    PowMul(r, q - 1, 2);
    assert ff == f * f by { assert Pow(f, 2) == f * (f * 1); }
    MulMod(f, f, q);
    ModSmall(1, q);
    assert ff % q == 1;
    PowAdd(r, 2, (q - 1) * 2);
    assert 2 + (q - 1) * 2 == 2 * q;
    assert Pow(r, 2 * q) == rr * ff;
    MulModRight(rr, ff, q);
    assert rr == r * r by { assert Pow(r, 2) == r * (r * 1); }
  }

  /**
   * For a safe prime p == 2q + 1 the test reduces, by Fermat's little theorem
   * modulo q, to r^2 mod q != 1 (or q divides r): it rejects r == +1 or -1
   * modulo q and accepts 0, q and 2q == p - 1.
   */
  lemma GeneratorTestSafePrime(q: int, r: nat)
    requires IsPrime(q)
    ensures GeneratorTest(2 * q + 1, 2 * q, r) <==> r < 2 * q + 1 && (r % q == 0 || (r * r) % q != 1)
  {
    assert (2 * q) / 2 == q;
    if r % q == 0 {
      PowOfMultiple(r, 2 * q, q);
    } else {
      PowTwiceModPrime(q, r);
    }
  }

  /**
   * Accepting the candidate 0 is fatal for the cipher: with g == 0 every
   * encryption with k >= 1 decrypts to 0, so any plaintext 0 < m < p is lost.
   */
  lemma ZeroGeneratorBreaksRoundTrip(p: int, m: int, x: nat, k: nat)
    requires p >= 3 && 0 < m < p && x < p - 1 && k >= 1
    ensures GeneratorTest(p, p - 1, 0)
    ensures Decrypt(p, x, EncryptWith(p, 0, ModPow(0, x, p), m, k)) == 0 != m
  {
    GeneratorTestZero(p);
    PowZero(k);
    PowZero(DecryptionExponent(p, x));
  }

  /**
   * A private exponent is drawn again and again until it is below p - 1.
   * The draws the program would make are given in order; at least one of
   * them passes, which is what it takes for the search to stop.
   */
  method DrawPrivateExponent(prime: int, draws: seq<nat>) returns (x: nat)
    requires exists i :: 0 <= i < |draws| && draws[i] < prime - 1
    ensures x < prime - 1
    ensures exists i :: 0 <= i < |draws| && x == draws[i] && forall j :: 0 <= j < i ==> draws[j] >= prime - 1
  {
    var i := 0;
    x := draws[0];
    while true
      invariant 0 <= i < |draws| && x == draws[i]
      invariant forall j :: 0 <= j < i ==> draws[j] >= prime - 1
      invariant exists j :: i <= j < |draws| && draws[j] < prime - 1
      decreases |draws| - i
    {
      if x < prime - 1 {
        break;
      }
      i := i + 1;
      x := draws[i];
    }
  }

  /** What one run of `encrypt` computes and reports. */
  datatype Session = Session(
    privateAlice: nat,
    publicAlice: int,
    privateBob: nat,
    c1: int,
    c2: int,
    decrypted: int,
    matches: bool)

  /** The program's global state: the static fields of the ElGamal class. */
  class ElGamal {
    var publicGenerator: int
    var publicPrime: int
    var plaintext: int

    /** The state after `main` has loaded the three values from their files. */
    constructor Load(plaintext: int, generator: int, prime: int)
      ensures this.plaintext == plaintext && publicGenerator == generator && publicPrime == prime
    {
      this.plaintext := plaintext;
      publicGenerator := generator;
      publicPrime := prime;
    }

    /** The loop's multiply step: x * b^e adds e to the exponent of x. */
    static lemma MultiplyStep(b: int, x: int, power: int, v: nat, e: nat, mod: int)
      requires mod >= 1 && x % mod == Pow(b, v) % mod && power == Pow(b, e) % mod
      ensures ((x * power) % mod) % mod == Pow(b, e + v) % mod
    {
      MulMod(x, power, mod);
      ModIdempotent(Pow(b, e), mod);
      MulMod(Pow(b, v), Pow(b, e), mod);
      PowAdd(b, v, e);
      ModIdempotent(x * power, mod);
    }

    /** The loop's squaring step: b^(2^k) squared is b^(2^(k+1)). */
    static lemma SquareStep(b: int, power: int, k: nat, mod: int)
      requires mod >= 1 && power == Pow(b, Pow2(k)) % mod
      ensures (power * power) % mod == Pow(b, Pow2(k + 1)) % mod
    {
      MulMod(Pow(b, Pow2(k)), Pow(b, Pow2(k)), mod);
      PowAdd(b, Pow2(k), Pow2(k));
    }

    /**
     * Square-and-multiply exponentiation followed by one extra multiplication:
     * a * b^exp mod mod.  The exponent's binary numeral is scanned from its
     * last (least significant) character back to its first.
     */
    static method FastModExpExtended(a: int, b: int, exp: nat, mod: int) returns (r: int)
      requires mod >= 1
      ensures r == (a * Pow(b, exp)) % mod
      ensures r == (a * ModPow(b, exp, mod)) % mod
      ensures 0 <= r < mod
      ensures exp == 0 ==> r == a % mod
    {
      var exponentString := ToBinary(exp);
      var x := 1;
      var power := b % mod;
      PowMod(b, 1, mod);
      for i := |exponentString| downto 0
        invariant power == Pow(b, Pow2(|exponentString| - i)) % mod
        invariant x % mod == Pow(b, BitsValue(exponentString[i..])) % mod
      {
        var bit := exponentString[i];
        BitsValueSuffix(exponentString, i);
        if bit == '1' {
          MultiplyStep(b, x, power, BitsValue(exponentString[i + 1..]), Pow2(|exponentString| - 1 - i), mod);
          x := (x * power) % mod;
        }
        SquareStep(b, power, |exponentString| - 1 - i, mod);
        power := (power * power) % mod;
      }
      assert exponentString[0..] == exponentString;
      MulModRight(a, x, mod);
      MulModRight(a, Pow(b, exp), mod);
      x := (a * x) % mod;
      r := x;
    }

    /**
     * Safe-prime search: for each candidate prime q in turn, p == 2q + 1 is
     * accepted when it is prime too.  Candidates are given in drawing order.
     */
    method SetCyclicGroup(candidates: seq<nat>)
      requires exists i :: 0 <= i < |candidates| && IsPrime(2 * candidates[i] + 1)
      modifies this
      ensures IsPrime(publicPrime)
      ensures exists i :: (0 <= i < |candidates| && publicPrime == 2 * candidates[i] + 1 &&
                           forall j :: 0 <= j < i ==> !IsPrime(2 * candidates[j] + 1))
      ensures (forall i :: 0 <= i < |candidates| ==> IsPrime(candidates[i])) ==> IsSafePrime(publicPrime)
      ensures publicGenerator == old(publicGenerator) && plaintext == old(plaintext)
    {
      var i := 0;
      var q := candidates[0];
      var p;
      while true
        invariant 0 <= i < |candidates| && q == candidates[i]
        invariant forall j :: 0 <= j < i ==> !IsPrime(2 * candidates[j] + 1)
        invariant exists j :: i <= j < |candidates| && IsPrime(2 * candidates[j] + 1)
        decreases |candidates| - i
      {
        p := 2 * q + 1;
        if IsPrime(p) {
          break;
        }
        i := i + 1;
        q := candidates[i];
      }
      if forall j :: 0 <= j < |candidates| ==> IsPrime(candidates[j]) {
        SafePrimeFromSophieGermain(q);
      }
      publicPrime := p;
    }

    /**
     * Generator search: the first drawn candidate that passes GeneratorTest
     * becomes the public generator.  n/2 must be positive for the modular
     * power, hence n >= 2.
     */
    method SetGenerator(cyclicGroup: int, n: nat, draws: seq<nat>)
      requires n >= 2
      requires exists i :: 0 <= i < |draws| && GeneratorTest(cyclicGroup, n, draws[i])
      modifies this
      ensures 0 <= publicGenerator && GeneratorTest(cyclicGroup, n, publicGenerator)
      ensures exists i :: (0 <= i < |draws| && publicGenerator == draws[i] &&
                           forall j :: 0 <= j < i ==> !GeneratorTest(cyclicGroup, n, draws[j]))
      ensures publicPrime == old(publicPrime) && plaintext == old(plaintext)
    {
      var primeFactor := n / 2;
      var i := 0;
      while true
        invariant 0 <= i < |draws|
        invariant forall j :: 0 <= j < i ==> !GeneratorTest(cyclicGroup, n, draws[j])
        invariant exists j :: i <= j < |draws| && GeneratorTest(cyclicGroup, n, draws[j])
        invariant publicPrime == old(publicPrime) && plaintext == old(plaintext)
        decreases |draws| - i
      {
        var randomElementInGroup := draws[i];
        if randomElementInGroup < cyclicGroup {
          var b := ModPow(randomElementInGroup, n, primeFactor);
          if b != 1 {
            publicGenerator := randomElementInGroup;
            break;
          }
        }
        i := i + 1;
      }
    }

    /**
     * One run of `encrypt`: Alice's and Bob's private exponents are drawn
     * below p - 1, Alice's public key is g^x mod p, Bob encrypts the
     * plaintext to Alice with his exponent as k, and Alice decrypts.  The
     * final flag is the equality the program prints.
     */
    method Encrypt(aliceDraws: seq<nat>, bobDraws: seq<nat>) returns (s: Session)
      requires exists i :: 0 <= i < |aliceDraws| && aliceDraws[i] < publicPrime - 1
      requires exists i :: 0 <= i < |bobDraws| && bobDraws[i] < publicPrime - 1
      ensures s.privateAlice < publicPrime - 1 && s.privateBob < publicPrime - 1
      ensures exists i :: (0 <= i < |aliceDraws| && s.privateAlice == aliceDraws[i] &&
                           forall j :: 0 <= j < i ==> aliceDraws[j] >= publicPrime - 1)
      ensures exists i :: (0 <= i < |bobDraws| && s.privateBob == bobDraws[i] &&
                           forall j :: 0 <= j < i ==> bobDraws[j] >= publicPrime - 1)
      ensures s.publicAlice == Pow(publicGenerator, s.privateAlice) % publicPrime
      ensures Ciphertext(s.c1, s.c2) ==
        EncryptWith(publicPrime, publicGenerator, s.publicAlice, plaintext, s.privateBob)
      ensures s.decrypted == Decrypt(publicPrime, s.privateAlice, Ciphertext(s.c1, s.c2))
      ensures s.matches <==> plaintext == s.decrypted
      ensures IsPrime(publicPrime) && publicGenerator % publicPrime != 0 && 0 <= plaintext < publicPrime ==>
        s.matches && s.decrypted == plaintext
    {
      var privateAlice := DrawPrivateExponent(publicPrime, aliceDraws);
      var publicAlice := ModPow(publicGenerator, privateAlice, publicPrime);
      var privateBob := DrawPrivateExponent(publicPrime, bobDraws);
      var c1 := ModPow(publicGenerator, privateBob, publicPrime);
      var c2 := FastModExpExtended(plaintext, publicAlice, privateBob, publicPrime);
      var t := publicPrime - privateAlice;
      t := t - 1;
      var ypla := ModPow(c1, t, publicPrime);
      var decryptedMessage := (ypla * c2) % publicPrime;
      if IsPrime(publicPrime) && publicGenerator % publicPrime != 0 && 0 <= plaintext < publicPrime {
        RoundTrip(publicPrime, publicGenerator, plaintext, privateAlice, privateBob);
      }
      s := Session(privateAlice, publicAlice, privateBob, c1, c2, decryptedMessage,
                   plaintext == decryptedMessage);
    }
  }
}
