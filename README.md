# count-primes: a verified model of the 32-bit primality test

`primes.c` decides whether a 32-bit unsigned integer is prime. It does
this without randomness. It first trial-divides by the odd numbers 3 to 61.
Then it runs the Miller-Rabin strong probable-prime test for the bases 2,
7 and 61. Jaeschke showed that these three bases leave no strong
pseudoprime below 4,759,123,141, which covers every u32.

This project models the three functions of that core in Dafny:

- `powmod` is `Primes.PowMod`.
- `is_strong_probable_prime` is `Primes.IsStrongProbablePrime`.
- `is_prime` is `Primes.IsPrimeU32`.

Each is an imperative method with the same loop, the same branches and
early returns, and the same constants as the C code. `u32` and `u64` are
range-checked newtypes. Because of that, every `(u64)a * b % m` in the
model carries a proof that the widened product fits 64 bits and that the
reduced value fits 32 bits again. Each method is proved against a
specification predicate: `Pow(b, e) % m`, `StrongProbablePrime` and
`PrimalityVerdict`. The number theory the source comments rely on is
proved from scratch about those predicates:

- Euclid's lemma (`Fermat.Euclid`).
- Fermat's little theorem (`Fermat.FermatLittle`), proved through the
  binomial theorem.
- Modulo a prime, the only square roots of 1 are 1 and p - 1
  (`Fermat.SquareRootOfOne`).

Files:

- `arith.dfy` (module `Arith`): `Pow`, `Divides`, `IsPrime` and lemmas about `%`.
- `fermat.dfy` (module `Fermat`): Euclid, binomials, Fermat, square roots of 1.
- `primes.dfy` (module `Primes`): the model of `primes.c`.

Modelling notes:

- `exponent & 1`, `exponent >>= 1`, `n & 1` and `(n - 1) >> e` act on
  unsigned values. They are written `% 2`, `/ 2`, `% 2` and
  `/ Pow(2, e)`, which give the same results on non-negative numbers.
- `__builtin_ctzl` is the function `Primes.TrailingZeros`. Its contract
  defines trailing zeros: 2^e divides x, and the quotient is odd.
- `powmod(b, 0, 1)` returns the literal 1, not `1 % 1 == 0`. The model
  follows the code (see `PowMod`'s second postcondition). No call site
  passes m == 1.
- `main` counts the closed range [LO, HI], because primes.c:95 adds
  `is_prime(HI)` first. The driver is not modelled.

## Model

| member | source | states |
|---|---|---|
| `Primes.PowMod` | primes.c:13-25 | For m >= 1, the result is base^exponent mod m whenever exponent > 0 or m > 1. An exponent of 0 yields exactly 1, even for m == 1. Every widened product stays below 2^64. Every narrowing back to u32 is lossless. |
| `Primes.SquareAndMultiplyStep` | primes.c:16-22 | One loop round keeps result * power^exponent unchanged modulo m. This holds whether or not the low bit is set. |
| `Arith.PowModBase` | primes.c:14 | Reducing the base modulo m first does not change base^e mod m. |
| `Primes.WideProductFits` | primes.c:18-20 | Two u32 operands have a product below 2^64. Its remainder by a u32 modulus is below 2^32. This covers primes.c:18, 20 and 64. |
| `Primes.MulMod` | primes.c:18-20 | The expression `(u64)a * b % m` for u32 operands and a non-zero u32 modulus is exactly a*b mod m. It does not wrap and is below m. The squaring at primes.c:64 uses it too. |
| `Primes.TrailingZeros` | primes.c:48 | For x > 0, the result e is the exponent of the largest power of 2 dividing x: 2^e * (x / 2^e) == x, and x / 2^e is odd. |
| `Primes.TrailingZerosOfU32` | primes.c:48 | A non-zero u32 has fewer than 32 trailing zeros. So `e` fits an `unsigned`, and the squaring loop runs at most 31 times. |
| `Primes.Decomposition` | primes.c:47-51 | For odd n > 2, n - 1 == d * 2^e with e >= 1 and d odd. |
| `Primes.ChainSquares` | primes.c:60-65 | Each value base^(d*2^(i+1)) mod n is the square mod n of the one before. So the loop's `power` is the i-th chain value. |
| `Primes.ChainMeetsMinusOneStep` | primes.c:60-62 | Looking one more step along the chain finds n - 1 exactly when it was found before or the current value is n - 1. So each loop round either returns true or extends "no n - 1 yet". |
| `Primes.ChainAvoidsOne` | primes.c:53-65 | Let n be prime. Suppose the chain starts off 1 and meets no n - 1 before step k. Then it is not 1 at step k. |
| `Primes.PrimePassesStrongTest` | primes.c:36-45 | For a prime base and a prime n, the test accepts n. This includes n == 2 and n == base. For the other cases the proof uses Fermat's little theorem plus the square roots of 1. |
| `Primes.IsStrongProbablePrime` | primes.c:29-68 | The result equals `StrongProbablePrime(base, n)`. For n <= 2 it is exactly n == 2. For even n > 2 it is false. For odd n with base dividing n it is exactly n == base. Otherwise it is "base^d == 1 (mod n), or some base^(d*2^i) with i < e is n - 1". |
| `Fermat.FermatLittle` | primes.c:36 | For a prime p not dividing a, a^(p-1) mod p == 1. |
| `Fermat.FermatPow` | primes.c:36 | For a prime p, a^p == a (mod p), for every a. |
| `Fermat.FreshmansDream` | primes.c:36 | For a prime p, (a + 1)^p == a^p + 1 (mod p). |
| `Fermat.PrimeDividesBinom` | primes.c:36 | A prime p divides C(p, k) for 0 < k < p. |
| `Fermat.BinomialTheorem` | primes.c:36 | (a + 1)^n equals the sum of C(n, k) * a^k for k = 0..n. |
| `Fermat.SquareRootOfOne` | primes.c:102-115 | For a prime p and x < p, x*x mod p == 1 implies x == 1 or x == p - 1. |
| `Fermat.Euclid` | primes.c:107-108 | A prime dividing a*b divides a or divides b. |
| `Primes.WitnessBasesArePrime` | primes.c:88-91 | The witness bases 2, 7 and 61 are prime. The soundness argument needs this. |
| `Primes.IsPrimeU32` | primes.c:70-92 | The result equals `PrimalityVerdict(n)`. For n <= 2 it is exactly n == 2. For even n > 2 it is false. Otherwise trial division by the odd numbers 3..61 comes first. It answers true on reaching n itself and false on the first i < n dividing n. Then it needs bases 2, 7 and 61 in that order, stopping at the first failure. |
| `Primes.PrimesPassVerdict` | primes.c:70-92 | Every prime n is accepted. Equivalently, every "not prime" answer is correct. |
| `Primes.TrialDivisionDecidesBelow4489` | primes.c:79-86 | Below 67 * 67 = 4489, an accepted n is prime. Trial division alone is decisive there. Together with `PrimesPassVerdict`, the answer is exactly IsPrime(n) for every n < 4489. This includes every odd n in [3, 61]. |
| `Primes.VerdictIsPrimality` | primes.c:88-91 | Assume `NoStrongPseudoprime32`: no odd u32 above 2 is a strong pseudoprime to all of 2, 7 and 61 (Jaeschke). Then for every n < 2^32 the verdict holds exactly when n is prime, in both directions. |
| `Primes.KnownComposites` | primes.c:79-86 | 9, 15, 49 and 4294967295 are rejected. |
| `Primes.TrialDivisionStep` | primes.c:80-86 | For odd n and odd i < n with n % i != 0, the excluded odd divisors extend from [3, i) to [3, i + 2). Also i + 2 <= n, and i + 2 stays odd. |
| `Primes.TrialFactorFound` | primes.c:84-85 | An odd factor i <= 61 below odd n makes the verdict "not prime". |
| `Primes.SurvivorUpToLimit` | primes.c:81-82 | An odd n <= 61 with no odd factor in [3, n) is accepted. |
| `Primes.SurvivorAboveLimit` | primes.c:88-91 | For odd n > 61 with no odd factor in [3, 63), the verdict is exactly the conjunction of the tests for bases 2, 7 and 61. |

## Left out

- `main` (primes.c:94-100) is not modelled. It is a counting driver with
  `printf` output and compile-time range macros.
- PrimesPassVerdict: proves one direction for every u32, that a prime is
  accepted. The other direction, that an accepted n is prime, is proved
  unconditionally only for n < 4489 (`TrialDivisionDecidesBelow4489`).
  For larger n it rests on Jaeschke's result that no u32 is a strong
  pseudoprime to 2, 7 and 61 at once. That result is a computation over
  about 2^32 candidates. The model states it as the predicate
  `NoStrongPseudoprime32` but does not prove it.
- IsPrimeU32: its contract ties the answer to `PrimalityVerdict`.
  `VerdictIsPrimality` turns that into "the answer is exactly IsPrime(n)"
  for every u32, with `NoStrongPseudoprime32` as its only hypothesis. Without
  that hypothesis, agreement in both directions is proved only below 4489.
- PowMod: `requires m >= 1` leaves out m == 0. In C, `base % 0` is a
  division by zero, which is undefined behaviour, and no caller passes it.
- IsStrongProbablePrime: requires only `base > 0` because the C code
  divides by the base. Whether the base is prime is not checked, as in the
  source. Soundness (`PrimePassesStrongTest`) takes primality of the base
  as a hypothesis.
- The reference URLs and licence text (primes.c:118-134) are not behaviour.
