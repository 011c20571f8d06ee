/** Natural-number arithmetic the primality test rests on: powers,
    divisibility, primality, and the facts about `%` that let a modular
    computation reduce its operands early. */
module Arith {

  /** b raised to the e-th power, on unbounded naturals. */
  function Pow(b: nat, e: nat): nat
    decreases e
  {
    if e == 0 then 1 else b * Pow(b, e - 1)
  }

  /** d divides n (0 divides nothing here, which is all the model needs). */
  predicate Divides(d: nat, n: nat)
  {
    d > 0 && n % d == 0
  }

  /** n is prime: at least 2 and without a divisor strictly between 1 and n. */
  predicate IsPrime(n: nat)
  {
    n >= 2 && forall d :: 1 < d < n ==> !Divides(d, n)
  }

  lemma {:induction false} PowAdd(b: nat, e1: nat, e2: nat)
    ensures Pow(b, e1 + e2) == Pow(b, e1) * Pow(b, e2)
    decreases e1
  {
    if e1 > 0 {
      var x, y := Pow(b, e1 - 1), Pow(b, e2);
      PowAdd(b, e1 - 1, e2);
      assert Pow(b, e1 + e2) == b * (x * y);
      MulAssociates(b, x, y);
    }
  }

  /** (a * b) * c == a * (b * c), on plain integers. */
  lemma MulAssociates(a: int, b: int, c: int)
    ensures (a * b) * c == a * (b * c)
  {
  }

  /** Squaring the base halves the exponent: b^(2k) == (b*b)^k. */
  lemma {:induction false} PowOfSquare(b: nat, k: nat)
    ensures Pow(b, 2 * k) == Pow(b * b, k)
    decreases k
  {
    if k > 0 {
      PowOfSquare(b, k - 1);
      calc {
        Pow(b, 2 * k);
        b * (b * Pow(b, 2 * (k - 1)));
        (b * b) * Pow(b * b, k - 1);
        Pow(b * b, k);
      }
    }
  }

  lemma {:induction false} PowPositive(b: nat, e: nat)
    requires b > 0
    ensures Pow(b, e) > 0
    decreases e
  {
    if e > 0 {
      PowPositive(b, e - 1);
    }
  }

  /** 0 raised to a positive power is 0. */
  lemma PowZeroBase(e: nat)
    requires e > 0
    ensures Pow(0, e) == 0
  {
  }

  /** A product of a positive factor with m is at least m. */
  lemma MulAtLeast(a: int, m: int)
    requires a >= 1 && m > 0
    ensures a * m >= m
  {
    assert a * m == (a - 1) * m + m;
    assert (a - 1) * m >= 0;
  }

  /** The remainder of q*m + r is r whenever r is a remainder. */
  lemma ModUnique(y: int, q: int, r: int, m: int)
    requires m > 0 && 0 <= r < m && y == q * m + r
    ensures y % m == r && y / m == q
  {
    var q' := y / m;
    var r' := y % m;
    assert y == q' * m + r';
    assert (q - q') * m == r' - r;
    if q > q' {
      MulAtLeast(q - q', m);
    } else if q < q' {
      MulAtLeast(q' - q, m);
    }
  }

  lemma ModAddMultiple(x: int, k: int, m: int)
    requires m > 0
    ensures (x + k * m) % m == x % m
  {
    ModUnique(x + k * m, x / m + k, x % m, m);
  }

  lemma ModOfMultiple(k: int, m: int)
    requires m > 0
    ensures (k * m) % m == 0
  {
    ModUnique(k * m, k, 0, m);
  }

  /** Adding the same amount to congruent numbers keeps them congruent. */
  lemma ModAddCongruent(x: int, y: int, c: int, m: int)
    requires m > 0 && x % m == y % m
    ensures (x + c) % m == (y + c) % m
  {
    assert x + c == (y + c) + (x / m - y / m) * m;
    ModAddMultiple(y + c, x / m - y / m, m);
  }

  /** The difference of congruent numbers is a multiple of m. */
  lemma ModSubCongruent(x: int, y: int, m: int)
    requires m > 0 && x % m == y % m
    ensures (x - y) % m == 0
  {
    assert x - y == (x / m - y / m) * m;
    ModOfMultiple(x / m - y / m, m);
  }

  /** Adding a multiple of a multiple of m does not change the remainder. */
  lemma ModAddScaledMultiple(s: int, c: int, w: int, m: int)
    requires m > 0 && c % m == 0
    ensures (s + c * w) % m == s % m
  {
    var q := c / m;
    assert c == q * m;
    assert c * w == (q * w) * m;
    ModAddMultiple(s, q * w, m);
  }

  /** Reducing both factors first does not change the product modulo m. */
  lemma ModMulMod(a: int, b: int, m: int)
    requires m > 0
    ensures (a * b) % m == ((a % m) * (b % m)) % m
  {
    var qa, ra := a / m, a % m;
    var qb, rb := b / m, b % m;
    var k := qa * qb * m + qa * rb + ra * qb;
    ProductOfQuotients(a, b, qa, ra, qb, rb, m);
    ModAddMultiple(ra * rb, k, m);
  }

  /** The ring arithmetic behind ModMulMod, on plain integers. */
  lemma ProductOfQuotients(a: int, b: int, qa: int, ra: int, qb: int, rb: int, m: int)
    requires a == qa * m + ra && b == qb * m + rb
    ensures a * b == ra * rb + (qa * qb * m + qa * rb + ra * qb) * m
  {
    calc {
      (qa * m + ra) * (qb * m + rb);
      (qa * m) * (qb * m) + (qa * m) * rb + ra * (qb * m) + ra * rb;
      ra * rb + (qa * qb * m + qa * rb + ra * qb) * m;
    }
  }

  /** Products of congruent factors are congruent. */
  lemma MulCongruent(a: int, a': int, b: int, b': int, m: int)
    requires m > 0 && a % m == a' % m && b % m == b' % m
    ensures (a * b) % m == (a' * b') % m
  {
    ModMulMod(a, b, m);
    ModMulMod(a', b', m);
  }

  /** Reducing the base first does not change a power modulo m. */
  lemma {:induction false} PowModBase(b: nat, e: nat, m: nat)
    requires m > 0
    ensures Pow(b % m, e) % m == Pow(b, e) % m
    decreases e
  {
    if e > 0 {
      var r := b % m;
      var x, y := Pow(r, e - 1), Pow(b, e - 1);
      PowModBase(b, e - 1, m);
      ModUnique(r, 0, r, m);
      MulCongruent(r, b, x, y, m);
      assert Pow(r, e) == r * x;
      assert Pow(b, e) == b * y;
    }
  }

  lemma DividesTransitive(a: nat, b: nat, c: nat)
    requires Divides(a, b) && Divides(b, c)
    ensures Divides(a, c)
  {
    var k := c / b;
    var j := b / a;
    assert c == k * b;
    assert b == j * a;
    assert c == (k * j) * a;
    ModOfMultiple(k * j, a);
  }

  lemma MulMonotone(a: int, b: int, c: int)
    requires a <= b && c >= 0
    ensures a * c <= b * c
  {
    assert b * c - a * c == (b - a) * c;
    assert (b - a) * c >= 0;
  }

  /** A composite number has a divisor d > 1 with d*d <= n. */
  lemma SmallDivisor(n: nat) returns (d: nat)
    requires n >= 2 && !IsPrime(n)
    ensures 1 < d < n && d * d <= n && Divides(d, n)
  {
    var a :| 1 < a < n && Divides(a, n);
    var b := n / a;
    assert n == a * b;
    assert b > 1;
    assert b < n by {
      MulMonotone(2, a, b);
    }
    assert Divides(b, n) by {
      ModOfMultiple(a, b);
    }
    if a <= b {
      MulMonotone(a, b, a);
      d := a;
    } else {
      MulMonotone(b, a, b);
      d := b;
    }
  }

  /** To show n prime it suffices to rule out divisors up to k when
      n < (k + 1)^2. */
  lemma PrimeBySmallDivisors(n: nat, k: nat)
    requires 2 <= n < (k + 1) * (k + 1)
    requires forall d :: 1 < d <= k ==> !Divides(d, n)
    ensures IsPrime(n)
  {
    if !IsPrime(n) {
      var d := SmallDivisor(n);
      if d > k {
        MulMonotone(k + 1, d, d);
        MulMonotone(k + 1, d, k + 1);
      }
      assert false;
    }
  }
}
