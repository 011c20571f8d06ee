/** The number theory behind the strong probable-prime test: Euclid's lemma,
    Fermat's little theorem (through the binomial theorem) and the fact that
    modulo a prime the only square roots of 1 are 1 and -1. */
module Fermat {
  import opened Arith

  /** Euclid's lemma for a factor below p, by strong induction on that
      factor: if p divides a*b with 0 < a < p then p divides (p % a)*b too,
      and p % a is a smaller non-zero factor. */
  lemma {:induction false} EuclidBelow(p: nat, a: nat, b: nat)
    requires IsPrime(p) && 0 < a < p && (a * b) % p == 0
    ensures b % p == 0
    decreases a
  {
    if a > 1 {
      var q, r := p / a, p % a;
      assert !Divides(a, p);
      assert 0 < r < a;
      var k := (a * b) / p;
      assert a * b == k * p;
      assert p == q * a + r;
      assert r * b == (b - q * k) * p by {
        calc {
          r * b;
          (p - q * a) * b;
          p * b - q * (a * b);
          p * b - q * (k * p);
          (b - q * k) * p;
        }
      }
      assert b - q * k >= 0 by {
        if b - q * k < 0 {
          MulMonotone(b - q * k, -1, p);
        }
      }
      ModOfMultiple(b - q * k, p);
      EuclidBelow(p, r, b);
    }
  }

  /** Euclid's lemma: a prime dividing a product divides one of its factors. */
  lemma Euclid(p: nat, a: nat, b: nat)
    requires IsPrime(p) && (a * b) % p == 0
    ensures a % p == 0 || b % p == 0
  {
    if a % p != 0 {
      var r := a % p;
      ModUnique(r, 0, r, p);
      MulCongruent(r, a, b, b, p);
      EuclidBelow(p, r, b);
    }
  }

  /** Binomial coefficients, by Pascal's rule. */
  function Binom(n: nat, k: nat): nat
    decreases n
  {
    if k == 0 then 1
    else if n == 0 then 0
    else Binom(n - 1, k - 1) + Binom(n - 1, k)
  }

  lemma {:induction false} BinomAbove(n: nat, k: nat)
    requires k > n
    ensures Binom(n, k) == 0
    decreases n
  {
    if n > 0 {
      BinomAbove(n - 1, k - 1);
      BinomAbove(n - 1, k);
    }
  }

  lemma {:induction false} BinomDiagonal(n: nat)
    ensures Binom(n, n) == 1
    decreases n
  {
    if n > 0 {
      BinomDiagonal(n - 1);
      BinomAbove(n - 1, n);
    }
  }

  /** The absorption identity k * C(n, k) == n * C(n-1, k-1). */
  lemma {:induction false} Absorption(n: nat, k: nat)
    requires n >= 1 && k >= 1
    ensures k * Binom(n, k) == n * Binom(n - 1, k - 1)
    decreases n
  {
    if n == 1 {
      if k > 1 {
        BinomAbove(1, k);
        BinomAbove(0, k - 1);
      }
    } else if k == 1 {
      Absorption(n - 1, 1);
    } else {
      Absorption(n - 1, k);
      Absorption(n - 1, k - 1);
      AbsorptionAlgebra(n, k, Binom(n - 1, k - 1), Binom(n - 1, k),
                        Binom(n - 2, k - 2), Binom(n - 2, k - 1));
    }
  }

  /** The ring arithmetic of one step of Absorption, on plain integers. */
  lemma AbsorptionAlgebra(n: int, k: int, c: int, d: int, c1: int, c2: int)
    requires k * d == (n - 1) * c2 && (k - 1) * c == (n - 1) * c1 && c == c1 + c2
    ensures k * (c + d) == n * c
  {
    calc {
      k * (c + d);
      k * c + k * d;
      c + (k - 1) * c + (n - 1) * c2;
      c + (n - 1) * c1 + (n - 1) * c2;
      c + (n - 1) * (c1 + c2);
      n * c;
    }
  }

  /** A prime p divides every C(p, k) with 0 < k < p. */
  lemma PrimeDividesBinom(p: nat, k: nat)
    requires IsPrime(p) && 0 < k < p
    ensures Binom(p, k) % p == 0
  {
    var c, c' := Binom(p, k), Binom(p - 1, k - 1);
    Absorption(p, k);
    assert k * c == c' * p;
    ModOfMultiple(c', p);
    Euclid(p, k, c);
    ModUnique(k, 0, k, p);
  }

  /** The first m terms of the binomial expansion of (a + 1)^n. */
  function BinomSum(n: nat, a: nat, m: nat): nat
    decreases m
  {
    if m == 0 then 0 else BinomSum(n, a, m - 1) + Binom(n, m - 1) * Pow(a, m - 1)
  }

  lemma {:induction false} BinomSumStep(n: nat, a: nat, m: nat)
    ensures BinomSum(n + 1, a, m + 1) == BinomSum(n, a, m + 1) + a * BinomSum(n, a, m)
    decreases m
  {
    if m > 0 {
      BinomSumStep(n, a, m - 1);
      BinomSumAlgebra(a, BinomSum(n + 1, a, m), BinomSum(n, a, m), BinomSum(n, a, m - 1),
                      Binom(n + 1, m), Binom(n, m - 1), Binom(n, m), Pow(a, m), Pow(a, m - 1));
    }
  }

  /** The ring arithmetic of one step of BinomSumStep, on plain integers. */
  lemma BinomSumAlgebra(a: int, x: int, s: int, s': int, c: int, c1: int, c2: int, q: int, q': int)
    requires x == s + a * s' && c == c1 + c2 && q == a * q'
    ensures x + c * q == (s + c2 * q) + a * (s' + c1 * q')
  {
    calc {
      x + c * q;
      s + a * s' + c1 * q + c2 * q;
      s + a * s' + c1 * (a * q') + c2 * q;
      s + c2 * q + a * (s' + c1 * q');
    }
  }

  /** The binomial theorem for (a + 1)^n. */
  lemma {:induction false} BinomialTheorem(n: nat, a: nat)
    ensures Pow(a + 1, n) == BinomSum(n, a, n + 1)
    decreases n
  {
    if n > 0 {
      BinomialTheorem(n - 1, a);
      BinomSumStep(n - 1, a, n);
      BinomAbove(n - 1, n);
      var s := BinomSum(n - 1, a, n);
      calc {
        Pow(a + 1, n);
        (a + 1) * s;
        s + a * s;
        BinomSum(n - 1, a, n + 1) + a * s;
        BinomSum(n, a, n + 1);
      }
    }
  }

  /** Modulo p, the first m <= p terms of the expansion of (a + 1)^p add up
      to 1: every middle coefficient is a multiple of p. */
  lemma {:induction false} MiddleTermsVanish(p: nat, a: nat, m: nat)
    requires IsPrime(p) && 1 <= m <= p
    ensures BinomSum(p, a, m) % p == 1
    decreases m
  {
    if m == 1 {
      ModUnique(1, 0, 1, p);
    } else {
      MiddleTermsVanish(p, a, m - 1);
      PrimeDividesBinom(p, m - 1);
      ModAddScaledMultiple(BinomSum(p, a, m - 1), Binom(p, m - 1), Pow(a, m - 1), p);
    }
  }

  /** The "freshman's dream" modulo a prime: (a + 1)^p == a^p + 1. */
  lemma FreshmansDream(p: nat, a: nat)
    requires IsPrime(p)
    ensures Pow(a + 1, p) % p == (Pow(a, p) + 1) % p
  {
    var s, y := BinomSum(p, a, p), Pow(a, p);
    assert Pow(a + 1, p) == s + y by {
      BinomialTheorem(p, a);
      BinomDiagonal(p);
      assert BinomSum(p, a, p + 1) == s + Binom(p, p) * y;
    }
    MiddleTermsVanish(p, a, p);
    ModUnique(1, 0, 1, p);
    ModAddCongruent(s, 1, y, p);
  }

  /** Fermat's little theorem in the form a^p == a (mod p), by induction on a. */
  lemma {:induction false} FermatPow(p: nat, a: nat)
    requires IsPrime(p)
    ensures Pow(a, p) % p == a % p
    decreases a
  {
    if a == 0 {
      PowZeroBase(p);
    } else {
      FermatPow(p, a - 1);
      FreshmansDream(p, a - 1);
      ModAddCongruent(Pow(a - 1, p), a - 1, 1, p);
    }
  }

  /** Fermat's little theorem: a^(p-1) == 1 (mod p) when p does not divide a. */
  lemma FermatLittle(p: nat, a: nat)
    requires IsPrime(p) && a % p != 0
    ensures Pow(a, p - 1) % p == 1
  {
    var y := Pow(a, p - 1);
    assert y > 0 by {
      PowPositive(a, p - 1);
    }
    assert (a * y) % p == a % p by {
      FermatPow(p, a);
      assert Pow(a, p) == a * y;
    }
    assert (a * (y - 1)) % p == 0 by {
      ModSubCongruent(a * y, a, p);
      MulPredecessor(a, y);
    }
    assert (y - 1) % p == 0 by {
      Euclid(p, a, y - 1);
    }
    ModAddCongruent(y - 1, 0, 1, p);
    ModUnique(1, 0, 1, p);
  }

  /** a * y - a == a * (y - 1), on plain integers. */
  lemma MulPredecessor(a: int, y: int)
    ensures a * y - a == a * (y - 1)
  {
  }

  /** Modulo a prime, a residue whose square is 1 is 1 or p - 1. */
  lemma SquareRootOfOne(p: nat, x: nat)
    requires IsPrime(p) && x < p && (x * x) % p == 1
    ensures x == 1 || x == p - 1
  {
    assert x > 0;
    var q := (x * x) / p;
    assert x * x == q * p + 1;
    assert (x - 1) * (x + 1) == q * p;
    ModOfMultiple(q, p);
    Euclid(p, x - 1, x + 1);
    if (x - 1) % p == 0 {
      ModUnique(x - 1, 0, x - 1, p);
    } else {
      if x + 1 < p {
        ModUnique(x + 1, 0, x + 1, p);
      }
    }
  }
}
