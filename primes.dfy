/** The deterministic primality test for 32-bit unsigned integers:
    modular exponentiation (`powmod`), the Miller-Rabin strong probable-prime
    check for one prime base (`is_strong_probable_prime`) and the decision
    procedure that combines trial division by the odd numbers up to 61 with
    that check for the bases 2, 7 and 61 (`is_prime`). */
module Primes {
  import opened Arith
  import opened Fermat

  /** The C types `u32` (uint32_t) and `u64` (uint64_t). Arithmetic on these
      newtypes is checked to stay in range, so every widened product below
      carries its own proof that it does not overflow. */
  newtype u32 = x: int | 0 <= x < 0x1_0000_0000
  newtype u64 = x: int | 0 <= x < 0x1_0000_0000_0000_0000

  /** Trial division covers the odd numbers 3 through this bound. */
  const TrialDivisionLimit: u32 := 61

  /** Bases 2, 7 and 61 leave no strong pseudoprime below 4,759,123,141
      (Jaeschke, 1993), which covers every u32. */
  const WitnessBases: seq<u32> := [2, 7, 61]

  // ---------------------------------------------------------------------
  // Trailing zeros (the compiler intrinsic `__builtin_ctzl`)

  /** The number of trailing zero bits of a positive number: the exponent of
      the largest power of 2 that divides it, leaving an odd quotient. */
  function TrailingZeros(x: nat): (e: nat)
    requires x > 0
    ensures Pow(2, e) > 0
    ensures Pow(2, e) * (x / Pow(2, e)) == x
    ensures (x / Pow(2, e)) % 2 == 1
    decreases x
  {
    if x % 2 == 1 then 0
    else
      var e := TrailingZeros(x / 2);
      DoublingKeepsOddPart(x, Pow(2, e));
      1 + e
  }

  /** If x/2 == p * z with z odd, then x == (2 * p) * z: one more factor 2. */
  lemma DoublingKeepsOddPart(x: nat, p: nat)
    requires x % 2 == 0 && p > 0
    requires p * ((x / 2) / p) == x / 2 && ((x / 2) / p) % 2 == 1
    ensures 2 * p > 0 && (2 * p) * (x / (2 * p)) == x && (x / (2 * p)) % 2 == 1
  {
    var z := (x / 2) / p;
    assert x == z * (2 * p);
    ModUnique(x, z, 0, 2 * p);
  }

  /** A number below 2^k has fewer than k trailing zeros. */
  lemma {:induction false} TrailingZerosBelow(x: nat, k: nat)
    requires 0 < x < Pow(2, k)
    ensures TrailingZeros(x) < k
    decreases x
  {
    if x % 2 == 0 {
      TrailingZerosBelow(x / 2, k - 1);
    }
  }

  /** A u32 has fewer than 32 trailing zeros, so `e` fits an `unsigned` and
      2^e is at most 2^31. */
  lemma TrailingZerosOfU32(x: nat)
    requires 0 < x < 0x1_0000_0000
    ensures TrailingZeros(x) < 32
  {
    assert Pow(2, 1) == 2;
    assert Pow(2, 2) == 4 by {
      PowAdd(2, 1, 1);
    }
    assert Pow(2, 4) == 16 by {
      PowAdd(2, 2, 2);
    }
    assert Pow(2, 8) == 256 by {
      PowAdd(2, 4, 4);
    }
    assert Pow(2, 16) == 0x1_0000 by {
      PowAdd(2, 8, 8);
    }
    assert Pow(2, 32) == 0x1_0000_0000 by {
      PowAdd(2, 16, 16);
    }
    TrailingZerosBelow(x, 32);
  }

  /** The odd part d of x == d * 2^e, which `(n - 1) >> e` computes. */
  function OddPart(x: nat): nat
    requires x > 0
  {
    x / Pow(2, TrailingZeros(x))
  }

  lemma OddPartAtMost(x: nat)
    requires x > 0
    ensures OddPart(x) <= x
  {
    MulAtLeast(Pow(2, TrailingZeros(x)), OddPart(x));
  }

  /** For odd n > 2 the decomposition n - 1 == d * 2^e has e >= 1 and d odd. */
  lemma Decomposition(n: nat)
    requires n > 2 && n % 2 == 1
    ensures TrailingZeros(n - 1) >= 1
    ensures OddPart(n - 1) % 2 == 1 && OddPart(n - 1) * Pow(2, TrailingZeros(n - 1)) == n - 1
  {
    var x := n - 1;
    var e := TrailingZeros(x);
    assert e >= 1 by {
      assert x % 2 == 0;
    }
    assert OddPart(x) == x / Pow(2, e);
  }

  // ---------------------------------------------------------------------
  // Modular exponentiation (`powmod`)

  /** Both operands of every widened multiplication are u32 values, so their
      product fits a u64; the remainder by a u32 modulus fits a u32 again. */
  lemma WideProductFits(a: nat, b: nat, m: nat)
    requires a < 0x1_0000_0000 && b < 0x1_0000_0000 && 0 < m < 0x1_0000_0000
    ensures a * b < 0x1_0000_0000_0000_0000
    ensures (a * b) % m < 0x1_0000_0000
  {
    MulMonotone(a, 0xFFFF_FFFF, b);
    MulMonotone(b, 0xFFFF_FFFF, 0xFFFF_FFFF);
  }

  /** The C expression `(u64)a * b % m`: the product is formed in 64 bits, so
      it never wraps, and the remainder fits 32 bits again. */
  method MulMod(a: u32, b: u32, m: u32) returns (r: u32)
    requires m > 0
    ensures r as nat == (a as nat * b as nat) % m as nat
    ensures r < m
  {
    WideProductFits(a as nat, b as nat, m as nat);
    r := ((a as u64) * (b as u64) % (m as u64)) as u32;
  }

  /** One round of square-and-multiply keeps result * power^exponent fixed
      modulo m. */
  lemma SquareAndMultiplyStep(result: nat, power: nat, e: nat, m: nat)
    requires m > 0 && e > 0
    ensures var result' := if e % 2 == 1 then (result * power) % m else result;
      (result' * Pow((power * power) % m, e / 2)) % m == (result * Pow(power, e)) % m
  {
    var k := e / 2;
    var pp := power * power;
    var x, y := Pow(pp, k), Pow(pp % m, k);
    assert y % m == x % m by {
      PowModBase(pp, k, m);
    }
    assert Pow(power, 2 * k) == x by {
      PowOfSquare(power, k);
    }
    if e % 2 == 1 {
      var rp := result * power;
      assert (rp % m * y) % m == (rp * x) % m by {
        ModUnique(rp % m, 0, rp % m, m);
        MulCongruent(rp % m, rp, y, x, m);
      }
      assert rp * x == result * Pow(power, e) by {
        assert Pow(power, e) == power * x;
        MulAssociates(result, power, x);
      }
    } else {
      assert e == 2 * k;
      MulCongruent(result, result, y, x, m);
    }
  }

  /** base^exponent mod m by binary exponentiation, every product widened to
      64 bits before it is reduced. An exponent of 0 yields the literal 1,
      even when m == 1. */
  method PowMod(base: u32, exponent: u32, m: u32) returns (r: u32)
    requires m >= 1
    ensures exponent > 0 || m > 1 ==> r as nat == Pow(base as nat, exponent as nat) % m as nat
    ensures exponent == 0 ==> r == 1
  {
    ghost var b, e0, mm := base as nat, exponent as nat, m as nat;
    var power: u32 := base % m;
    var result: u32 := 1;
    var e := exponent;
    PowModBase(b, e0, mm);
    while e != 0
      invariant power < m
      invariant result < m || result == 1
      invariant (result as nat * Pow(power as nat, e as nat)) % mm == Pow(b, e0) % mm
      invariant e0 == 0 ==> result == 1
      invariant e0 > 0 && e == 0 ==> result < m
    {
      SquareAndMultiplyStep(result as nat, power as nat, e as nat, mm);
      if e % 2 == 1 {
        result := MulMod(result, power, m);
      }
      power := MulMod(power, power, m);
      e := e / 2;
    }
    if e0 > 0 || mm > 1 {
      ModUnique(result as nat, 0, result as nat, mm);
    }
    r := result;
  }

  // ---------------------------------------------------------------------
  // The strong probable-prime test (`is_strong_probable_prime`)

  /** The i-th value of the squaring chain for odd n > 2: base^(d * 2^i) mod n,
      where n - 1 == d * 2^e with d odd. The e-th value is base^(n-1) mod n. */
  function ChainValue(base: nat, n: nat, i: nat): (x: nat)
    requires n > 2
    ensures x < n
  {
    Pow(base, OddPart(n - 1) * Pow(2, i)) % n
  }

  lemma ChainStart(base: nat, n: nat)
    requires n > 2
    ensures ChainValue(base, n, 0) == Pow(base, OddPart(n - 1)) % n
  {
    assert Pow(2, 0) == 1;
  }

  /** Each value of the chain is the square of the previous one, mod n. */
  lemma ChainSquares(base: nat, n: nat, i: nat)
    requires n > 2
    ensures ChainValue(base, n, i + 1) == (ChainValue(base, n, i) * ChainValue(base, n, i)) % n
  {
    PowerOfDoubledExponent(base, OddPart(n - 1), i, n);
  }

  /** base^(d * 2^(i+1)) is the square of base^(d * 2^i), also modulo n. */
  lemma PowerOfDoubledExponent(base: nat, d: nat, i: nat, n: nat)
    requires n > 0
    ensures Pow(base, d * Pow(2, i + 1)) % n ==
      ((Pow(base, d * Pow(2, i)) % n) * (Pow(base, d * Pow(2, i)) % n)) % n
  {
    var p := Pow(2, i);
    var t := d * p;
    assert d * Pow(2, i + 1) == t + t by {
      DoubledFactor(d, p, Pow(2, i + 1));
    }
    var y := Pow(base, t);
    assert Pow(base, t + t) == y * y by {
      PowAdd(base, t, t);
    }
    ModMulMod(y, y, n);
  }

  /** d * (2 * p) == d * p + d * p, on plain integers. */
  lemma DoubledFactor(d: int, p: int, q: int)
    requires q == 2 * p
    ensures d * q == d * p + d * p
  {
  }

  /** What `is_strong_probable_prime` decides: the early answers for n <= 2,
      even n and n divisible by the base; otherwise base^d == 1 (mod n) or some
      base^(d * 2^i) with i < e is n - 1. */
  predicate StrongProbablePrime(base: nat, n: nat)
    requires base > 0
  {
    if n <= 2 then n == 2
    else if n % 2 == 0 then false
    else if n % base == 0 then n == base
    else (ChainValue(base, n, 0) == 1 ||
          ChainMeetsMinusOne(base, n, TrailingZeros(n - 1)))
  }

  /** Some chain value before step k is n - 1. */
  predicate ChainMeetsMinusOne(base: nat, n: nat, k: nat)
    requires n > 2
  {
    exists i: nat :: i < k && ChainValue(base, n, i) == n - 1
  }

  /** Looking one step further adds exactly the value at step k. */
  lemma ChainMeetsMinusOneStep(base: nat, n: nat, k: nat)
    requires n > 2
    ensures ChainMeetsMinusOne(base, n, k + 1) <==>
      ChainMeetsMinusOne(base, n, k) || ChainValue(base, n, k) == n - 1
  {
    if ChainMeetsMinusOne(base, n, k + 1) && ChainValue(base, n, k) != n - 1 {
      var i: nat :| i < k + 1 && ChainValue(base, n, i) == n - 1;
      assert i < k;
    }
  }

  /** If the chain does not start at 1 and never meets n - 1 before step k,
      then modulo a prime n it never reaches 1 up to step k: the only square
      roots of 1 are 1 and n - 1. */
  lemma {:induction false} ChainAvoidsOne(base: nat, n: nat, k: nat)
    requires IsPrime(n) && n > 2
    requires ChainValue(base, n, 0) != 1
    requires !ChainMeetsMinusOne(base, n, k)
    ensures ChainValue(base, n, k) != 1
    decreases k
  {
    if k > 0 {
      ChainMeetsMinusOneStep(base, n, k - 1);
      ChainAvoidsOne(base, n, k - 1);
      ChainSquares(base, n, k - 1);
      var x := ChainValue(base, n, k - 1);
      if (x * x) % n == 1 {
        SquareRootOfOne(n, x);
      }
    }
  }

  /** A divisor of a positive number is at most that number. */
  lemma DivisorAtMost(d: nat, n: nat)
    requires Divides(d, n) && n > 0
    ensures d <= n
  {
    var k := n / d;
    assert n == k * d;
    MulAtLeast(k, d);
  }

  /** Soundness of the witness test: every prime n passes it for every prime
      base. This is Fermat's little theorem plus the square-root-of-one lemma. */
  lemma PrimePassesStrongTest(base: nat, n: nat)
    requires IsPrime(base) && IsPrime(n)
    ensures StrongProbablePrime(base, n)
  {
    if n > 2 {
      assert !Divides(2, n);
      if n % base == 0 {
        DivisorAtMost(base, n);
        assert Divides(base, n);
      } else {
        assert !Divides(n, base) by {
          if Divides(n, base) {
            DivisorAtMost(n, base);
          }
        }
        var e := TrailingZeros(n - 1);
        FermatLittle(n, base);
        assert ChainValue(base, n, e) == 1 by {
          Decomposition(n);
        }
        if ChainValue(base, n, 0) != 1 {
          if !ChainMeetsMinusOne(base, n, e) {
            ChainAvoidsOne(base, n, e);
          }
        }
      }
    }
  }

  /** Miller-Rabin witness check of n for one base (assumed prime by the
      callers; the division by the base needs it non-zero). */
  method IsStrongProbablePrime(base: u32, n: u32) returns (r: bool)
    requires base > 0
    ensures r == StrongProbablePrime(base as nat, n as nat)
    ensures n <= 2 ==> r == (n == 2)
    ensures n > 2 && n % 2 == 0 ==> !r
    ensures n > 2 && n % 2 == 1 && n % base == 0 ==> r == (n == base)
  {
    if n <= 2 {
      return n == 2;
    }
    if n % 2 == 0 {
      return false;
    }
    if n % base == 0 {
      return n == base;
    }
    ghost var nn, bb := n as nat, base as nat;
    assert TrailingZeros(nn - 1) < 32 by {
      TrailingZerosOfU32(nn - 1);
    }
    var e: u32 := TrailingZeros((n - 1) as nat) as u32;
    assert OddPart(nn - 1) <= nn - 1 by {
      OddPartAtMost(nn - 1);
    }
    var d: u32 := ((n - 1) as nat / Pow(2, e as nat)) as u32;
    var power := PowMod(base, d, n);
    assert power as nat == ChainValue(bb, nn, 0) by {
      ChainStart(bb, nn);
    }
    if power == 1 {
      return true;
    }
    for i := 0 to e
      invariant power as nat == ChainValue(bb, nn, i as nat)
      invariant !ChainMeetsMinusOne(bb, nn, i as nat)
    {
      if power == n - 1 {
        return true;
      }
      ChainMeetsMinusOneStep(bb, nn, i as nat);
      ChainSquares(bb, nn, i as nat);
      power := MulMod(power, power, n);
    }
    return false;
  }

  // ---------------------------------------------------------------------
  // The decision procedure (`is_prime`)

  /** Trial division finds an odd factor i, 3 <= i <= 61, below n. */
  predicate HasTrialFactor(n: nat)
  {
    exists i: nat :: 3 <= i <= TrialDivisionLimit as nat && i % 2 == 1 && i < n && Divides(i, n)
  }

  /** No odd number in [3, k) divides n. */
  predicate NoOddFactorBelow(n: nat, k: nat)
  {
    forall j: nat :: 3 <= j < k && j % 2 == 1 ==> !Divides(j, n)
  }

  /** n passes the strong probable-prime test for every witness base. */
  predicate PassesWitnessBases(n: nat)
  {
    StrongProbablePrime(WitnessBases[0] as nat, n) &&
    StrongProbablePrime(WitnessBases[1] as nat, n) &&
    StrongProbablePrime(WitnessBases[2] as nat, n)
  }

  /** What `is_prime` decides for n. */
  predicate PrimalityVerdict(n: nat)
  {
    if n <= 2 then n == 2
    else if n % 2 == 0 then false
    else if HasTrialFactor(n) then false
    else if n <= TrialDivisionLimit as nat then true
    else PassesWitnessBases(n)
  }

  /** Jaeschke's result (1993) for the witness bases: no odd u32 above 2 is a
      strong pseudoprime to all of them. It is a computation over every odd
      u32, so the model takes it as a hypothesis and does not prove it. */
  predicate NoStrongPseudoprime32()
  {
    forall n: nat :: 2 < n < 0x1_0000_0000 && n % 2 == 1 && PassesWitnessBases(n) ==> IsPrime(n)
  }

  /** The three witness bases are prime. */
  lemma WitnessBasesArePrime()
    ensures IsPrime(WitnessBases[0] as nat) && IsPrime(WitnessBases[1] as nat)
    ensures IsPrime(WitnessBases[2] as nat)
  {
    assert IsPrime(2);
    PrimeBySmallDivisors(7, 2);
    assert forall d :: 1 < d <= 7 ==> !Divides(d, 61) by {
      forall d | 1 < d <= 7
        ensures !Divides(d, 61)
      {
        assert d in {2, 3, 4, 5, 6, 7};
      }
    }
    PrimeBySmallDivisors(61, 7);
  }

  /** Every "not prime" answer is correct: a prime always passes. */
  lemma PrimesPassVerdict(n: nat)
    requires IsPrime(n)
    ensures PrimalityVerdict(n)
  {
    if n > 2 {
      assert !Divides(2, n);
      assert !HasTrialFactor(n);
      if n > TrialDivisionLimit as nat {
        WitnessBasesArePrime();
        PrimePassesStrongTest(WitnessBases[0] as nat, n);
        PrimePassesStrongTest(WitnessBases[1] as nat, n);
        PrimePassesStrongTest(WitnessBases[2] as nat, n);
      }
    }
  }

  /** Given Jaeschke's result, the verdict is exactly primality for every
      u32: primes are accepted unconditionally, survivors up to 61 are prime
      by trial division, and survivors above 61 by the hypothesis. */
  lemma VerdictIsPrimality(n: nat)
    requires n < 0x1_0000_0000 && NoStrongPseudoprime32()
    ensures PrimalityVerdict(n) <==> IsPrime(n)
  {
    if IsPrime(n) {
      PrimesPassVerdict(n);
    }
    if PrimalityVerdict(n) && n <= TrialDivisionLimit as nat {
      TrialDivisionDecidesBelow4489(n);
    }
  }

  /** Below 67 * 67 trial division alone is decisive: a composite that
      survives it would need an odd divisor d with d*d <= n, so d <= 65, and
      63 and 65 have the smaller divisors 7 and 5. */
  lemma TrialDivisionDecidesBelow4489(n: nat)
    requires n < 67 * 67 && PrimalityVerdict(n)
    ensures IsPrime(n)
  {
    if n > 2 {
      assert n % 2 == 1 && !HasTrialFactor(n);
      TrialSurvivorIsPrime(n);
    }
  }

  /** The arithmetic behind TrialDivisionDecidesBelow4489. */
  lemma TrialSurvivorIsPrime(n: nat)
    requires 2 < n < 67 * 67 && n % 2 == 1 && !HasTrialFactor(n)
    ensures IsPrime(n)
  {
    if !IsPrime(n) {
      var d := SmallDivisor(n);
      assert d < 67 by {
        if d >= 67 {
          MulMonotone(67, d, d);
          MulMonotone(67, d, 67);
        }
      }
      if d % 2 == 0 {
        DividesTransitive(2, d, n);
      } else if d == 63 {
        DividesTransitive(7, 63, n);
      } else if d == 65 {
        DividesTransitive(5, 65, n);
      }
      assert false;
    }
  }

  /** One round of the trial-division loop: an odd i below the odd n that
      does not divide n extends the range of excluded odd divisors by 2. */
  lemma TrialDivisionStep(n: nat, i: nat)
    requires n % 2 == 1 && i % 2 == 1 && 3 <= i < n && n % i != 0
    requires NoOddFactorBelow(n, i)
    ensures i + 2 <= n && (i + 2) % 2 == 1
    ensures NoOddFactorBelow(n, i + 2)
  {
    assert (n - i) % 2 == 0;
  }

  /** The first odd factor i <= 61 below n decides "not prime". */
  lemma TrialFactorFound(n: nat, i: nat)
    requires n > 2 && n % 2 == 1
    requires 3 <= i <= TrialDivisionLimit as nat && i % 2 == 1 && i < n && n % i == 0
    ensures !PrimalityVerdict(n)
  {
    assert Divides(i, n);
  }

  /** An odd n <= 61 without an odd factor in [3, n) is accepted. */
  lemma SurvivorUpToLimit(n: nat)
    requires 2 < n <= TrialDivisionLimit as nat && n % 2 == 1
    requires NoOddFactorBelow(n, n)
    ensures PrimalityVerdict(n)
  {
    assert !HasTrialFactor(n);
  }

  /** An odd n above 61 that survives trial division is left to the three
      witness bases. */
  lemma SurvivorAboveLimit(n: nat)
    requires n > TrialDivisionLimit as nat && n % 2 == 1
    requires NoOddFactorBelow(n, TrialDivisionLimit as nat + 2)
    ensures PrimalityVerdict(n) == PassesWitnessBases(n)
  {
    assert !HasTrialFactor(n);
  }

  /** Trial division rejects 9, 15, 49 and 2^32 - 1 == 3 * 5 * 17 * 257 * 65537. */
  lemma KnownComposites()
    ensures !PrimalityVerdict(9) && !PrimalityVerdict(15) && !PrimalityVerdict(49)
    ensures !PrimalityVerdict(0xFFFF_FFFF)
  {
    assert Divides(3, 9) && Divides(3, 15) && Divides(7, 49);
    assert Divides(3, 0xFFFF_FFFF);
  }

  /** Primality of a u32: trial division by the odd numbers 3..61, then the
      strong probable-prime test for the bases 2, 7 and 61, short-circuiting
      on the first failure. */
  method IsPrimeU32(n: u32) returns (r: bool)
    ensures r == PrimalityVerdict(n as nat)
    ensures n <= 2 ==> r == (n == 2)
    ensures n > 2 && n % 2 == 0 ==> !r
  {
    if n <= 2 {
      return n == 2;
    }
    if n % 2 == 0 {
      return false;
    }
    var i: u32 := 3;
    while i <= TrialDivisionLimit
      invariant 3 <= i <= TrialDivisionLimit + 2
      invariant i % 2 == 1
      invariant i <= n
      invariant NoOddFactorBelow(n as nat, i as nat)
    {
      if n == i {
        SurvivorUpToLimit(n as nat);
        return true;
      }
      if n % i == 0 {
        TrialFactorFound(n as nat, i as nat);
        return false;
      }
      TrialDivisionStep(n as nat, i as nat);
      i := i + 2;
    }
    SurvivorAboveLimit(n as nat);
    var pass := IsStrongProbablePrime(WitnessBases[0], n);
    if !pass {
      return false;
    }
    pass := IsStrongProbablePrime(WitnessBases[1], n);
    if !pass {
      return false;
    }
    r := IsStrongProbablePrime(WitnessBases[2], n);
  }
}
