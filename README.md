# ElGamal in Dafny

A verified model of the arithmetic core of a small ElGamal demonstration program written in Java. ElGamal here is the public-key scheme of section 8.4 of the Handbook of Applied Cryptography. The model covers:

- the safe-prime search: `p = 2q + 1` is kept once both `q` and `p` are prime;
- the generator search and its acceptance test `r < p` and `r^(p-1) mod ((p-1)/2) != 1`;
- the rejection loops that draw the two private exponents below `p - 1`;
- the public key `g^x mod p` and the ciphertext `c1 = g^k mod p`, `c2 = m * (y^k mod p) mod p`;
- the hand-written square-and-multiply routine `fastModExpExtended` that computes `c2`;
- decryption with the exponent `t = p - 1 - x`;
- the final check that the decrypted value equals the plaintext.

Files:

- `arith.dfy` (module `Arith`): `Pow`, `Pow2` and the congruence facts about `%` with a positive modulus. Java's `BigInteger.mod` and `modPow` agree with Dafny's Euclidean `%` there.
- `primes.dfy` (module `Primes`): `IsPrime`, `IsSafePrime`, and Euclid's lemma. It also proves Fermat's little theorem from the binomial expansion of `(a+1)^p`. The theorem is proved, not assumed.
- `binary.dfy` (module `BinaryString`): `exp.toString(2)` as a `seq<char>` (`ToBinary`) and the value of a bit string (`BitsValue`). Each is proved the inverse of the other.
- `elgamal.dfy` (module `ElGamalCipher`):
  - the class `ElGamal`, whose fields are the program's static fields `publicGenerator`, `publicPrime` and `plaintext`;
  - the methods `FastModExpExtended`, `SetCyclicGroup`, `SetGenerator` and `Encrypt`, in the program's imperative form;
  - the cipher's formulas as functions (`ModPow`, `EncryptWith`, `DecryptionExponent`, `Decrypt`);
  - the round-trip theorem;
  - the lemmas about the generator test.

Values are unbounded `int`s, like `BigInteger`. The plaintext and generator are `int`, not `nat`: the program reads them from two's-complement byte files, so they can be negative. Exponents are `nat`.

Randomness enters as a parameter: the sequence of values the program would draw, in order. Each search loop requires that some draw passes. The loop then returns the first draw that passes and proves that every earlier draw was rejected.

The probabilistic primality test and the probable-prime constructor are modelled by the exact predicate `IsPrime`.

What the proofs show about the generator test, which is kept as written:

- The test reduces modulo `(p-1)/2`, not modulo `p`.
- It accepts `r = 0` for every `p >= 3`. `ZeroGeneratorBreaksRoundTrip` proves that with `g = 0` every encryption with `k >= 1` decrypts to 0.
- For a safe prime `p = 2q + 1`, Fermat's little theorem modulo `q` turns the test into `r^2 mod q != 1` (or `q` divides `r`). So the test also accepts `q` and `p - 1`.
- `r = 1` is rejected only when `p >= 5`. For `p = 3` (and `p = 4`), `(p-1)/2` is 1, every power reduces to 0, and `1` is accepted.

## Model

| member | source | states |
|---|---|---|
| `ElGamalCipher.ElGamal.FastModExpExtended` | ElGamal.java:174-190 | For `exp >= 0` and `mod >= 1` the result is `(a * b^exp) mod mod`, which equals `a * (b^exp mod mod) mod mod`. It lies in `[0, mod)`. For `exp == 0` it is `a mod mod`. Loop invariant after the suffix `s[i..]` of the binary numeral: `power == b^(2^(|s|-i)) mod mod` and `x ≡ b^value(s[i..])`. |
| `ElGamalCipher.ElGamal.MultiplyStep` | ElGamal.java:181-184 | On a '1' digit, `x * power mod mod` adds the digit's weight `2^k` to the exponent of `b` that `x` holds. |
| `ElGamalCipher.ElGamal.SquareStep` | ElGamal.java:185 | Squaring `power == b^(2^k) mod mod` gives `b^(2^(k+1)) mod mod`. |
| `BinaryString.ToBinary` | ElGamal.java:176 | `exp.toString(2)` is a canonical bit string: only '0'/'1', non-empty, "0" or a leading '1'. Its value is `exp`. |
| `BinaryString.ToBinaryOfValue` | ElGamal.java:176 | Conversely, every canonical bit string is `ToBinary` of its value, so the numeral the loop scans is unique. |
| `BinaryString.BitsValueSuffix` | ElGamal.java:179-180 | Scanning index `i` from the end: the value of `s[i..]` is the digit at `i` times `2^(|s|-1-i)` plus the value of `s[i+1..]`. |
| `BinaryString.BitsValueAppend` | ElGamal.java:176 | Appending a low digit doubles the value and adds the digit; this is how `toString(2)` builds the numeral. |
| `BinaryString.ToBinaryZero` | ElGamal.java:176-189 | The exponent 0 is written "0", so the loop runs once and never multiplies `x`. |
| `ElGamalCipher.ModPow` | ElGamal.java:98 | `b.modPow(e, m)` for `m >= 1` lies in `[0, m)` and does not change when the base is reduced modulo `m` first. |
| `ElGamalCipher.EncryptWith` | ElGamal.java:110-113 | `c1 = g^k mod p` and `c2 = m * (y^k mod p) mod p`. Both lie in `[0, p)`, and `c2 == (m * y^k) mod p`. |
| `ElGamalCipher.DecryptionExponent` | ElGamal.java:115-116 | When `x < p - 1`, `t = p - 1 - x` satisfies `1 <= t <= p - 1`. |
| `ElGamalCipher.Decrypt` | ElGamal.java:117-118 | `(c1^t mod p) * c2 mod p` with `t = p - 1 - x` lies in `[0, p)`. |
| `ElGamalCipher.PowOfResidue` | ElGamal.java:110-117 | `(g^k mod p)^t ≡ g^(k*t) (mod p)`. |
| `ElGamalCipher.MaskedMessage` | ElGamal.java:112-113 | With `y = g^x mod p`, `c2 == m * g^(x*k) mod p`. |
| `ElGamalCipher.MasksCombine` | ElGamal.java:115-117 | `g^(k*(p-1-x)) * g^(x*k) == (g^(p-1))^k`. |
| `ElGamalCipher.FermatPower` | ElGamal.java:117 | `(g^(p-1))^k ≡ 1 (mod p)` for prime `p` not dividing `g`. |
| `ElGamalCipher.ResidueProduct` | ElGamal.java:118 | When `a * b ≡ 1` and `0 <= m < p`, `(a mod p) * (m*b mod p) mod p == m`. |
| `ElGamalCipher.RoundTrip` | ElGamal.java:110-128 | For prime `p`, `g mod p != 0`, `0 <= m < p` and `x < p - 1`, decrypting with `x` what was encrypted under `g^x mod p` returns `m` for every `k`. This is the equality the program prints. |
| `Primes.FermatLittle` | ElGamal.java:115-118 | `a^(p-1) ≡ 1 (mod p)` for prime `p` not dividing `a`. Decrypting with the exponent `p-1-x` relies on it. |
| `Primes.SafePrimeFromSophieGermain` | ElGamal.java:48-53 | If `q` is prime and `2q+1` is prime, then `2q+1` is a safe prime. |
| `ElGamalCipher.GeneratorTestOne` | ElGamal.java:68-76 | For `p >= 3`, the candidate 1 is accepted exactly when `p < 5`, i.e. when `(p-1)/2 == 1`. |
| `ElGamalCipher.GeneratorTestZero` | ElGamal.java:68-76 | For every `p >= 3` the candidate 0 is accepted. |
| `ElGamalCipher.PowTwiceModPrime` | ElGamal.java:73 | For prime `q` not dividing `r`, `r^(2q) ≡ r^2 (mod q)`. |
| `ElGamalCipher.GeneratorTestSafePrime` | ElGamal.java:66-77 | For `p = 2q+1` with `q` prime, `r` is accepted iff `r < p` and (`q` divides `r` or `r^2 mod q != 1`). |
| `ElGamalCipher.ZeroGeneratorBreaksRoundTrip` | ElGamal.java:72-77 | The accepted generator 0 sends every plaintext `0 < m < p` to 0 when `k >= 1`. |
| `ElGamalCipher.DrawPrivateExponent` | ElGamal.java:88-96 | The returned exponent is below `p - 1`, and it is the first draw that is. Lines 101-108 repeat the same loop for Bob. |
| `ElGamalCipher.ElGamal.Load` | ElGamal.java:25-27 | The three static fields hold the plaintext, generator and prime that were read. |
| `ElGamalCipher.ElGamal.SetCyclicGroup` | ElGamal.java:47-60 | `publicPrime = 2q + 1` for the first candidate `q` for which it is prime. If every candidate `q` is prime, `publicPrime` is a safe prime. No other field changes. |
| `ElGamalCipher.ElGamal.SetGenerator` | ElGamal.java:66-84 | `publicGenerator` is the first draw that passes the generator test; every earlier draw failed it. No other field changes. |
| `ElGamalCipher.ElGamal.Encrypt` | ElGamal.java:86-131 | The run returns these values: both private exponents (each the first draw below `p - 1`), Alice's public key `g^x mod p`, the ciphertext `EncryptWith(p, g, publicAlice, plaintext, privateBob)`, the decryption with Alice's exponent, and the equality flag. The flag is true whenever `p` is prime, `g mod p != 0` and `0 <= plaintext < p`. |

## Left out

- File input and output (`readBigIntegerFromFile`, `writeBigIntegerToFile`, and writing the decrypted value) are not modelled: they are I/O. The values `main` reads are parameters of `ElGamal.Load`. The `null` returned on an `IOException`, and the failure it causes later, are not modelled.
- `main` is represented only by `ElGamal.Load` followed by `Encrypt`.
- `generatePublicPrimeAndGenerator` is not a member. It runs `SetCyclicGroup`, then `SetGenerator(publicPrime, publicPrime - 1, ...)`, then writes two files. Its draw requirement would depend on a prime that is not known in advance. `main` never calls it.
- Console output and `BigIntegerToRealString` are not modelled: they are for display only, and the latter depends on `toByteArray` and Java's `char` cast. The printed equality at line 128 is modelled as `Session.matches`.
- Randomness is not modelled. `new BigInteger(bits, RND)` and `RND.nextInt` become sequences of drawn values, and the distribution of bit lengths is not modelled. Each search requires at least one passing draw. A run in which the program would keep drawing forever is not modelled.
- The probable-prime constructor and `isProbablePrime(CERTAINTY)` are modelled as the exact predicate `IsPrime`. Their error probability of at most 2^-1000 is ignored. The 2048-bit length of the candidates `q` is not enforced.
- `ElGamal.SetCyclicGroup` concludes that the prime is safe only if every candidate is prime. The library guarantees this for the probable-prime constructor, so the model takes it as a hypothesis.
- `ElGamal.FastModExpExtended` requires `mod >= 1` and `exp >= 0`. `BigInteger.mod` throws an `ArithmeticException` for a modulus `<= 0`. For a negative exponent, `toString(2)` starts with '-'. The program only passes `p` and a drawn non-negative exponent.
- `ElGamal.SetGenerator` requires `n >= 2`: `modPow` throws an `ArithmeticException` when `n/2 <= 0`.
- `ModPow` covers only non-negative exponents and a positive modulus, the only ones the program passes. `modPow` with a negative exponent (a modular inverse) is not modelled.
- The unused product `t1` at line 182 has no effect and is not modelled.
