// Integer facts shared by the field, inversion and encoding models: powers
// of two, bit lengths, Euclidean division and divisibility.
module Arith {

  function Pow2(n: nat): (r: nat)
    ensures r >= 1
  {
    if n == 0 then 1 else 2 * Pow2(n - 1)
  }

  /** b^e over the integers (the value BigInteger.ModPow reduces). */
  function Pow(b: int, e: nat): int
  {
    if e == 0 then 1 else b * Pow(b, e - 1)
  }

  lemma {:induction false} Pow2Add(a: nat, b: nat)
    ensures Pow2(a + b) == Pow2(a) * Pow2(b)
  {
    if a > 0 {
      Pow2Add(a - 1, b);
      assert Pow2(a + b) == 2 * Pow2(a - 1 + b);
    }
  }

  lemma {:induction false} Pow2Monotone(a: nat, b: nat)
    requires a <= b
    ensures Pow2(a) <= Pow2(b)
  {
    if a < b {
      Pow2Monotone(a, b - 1);
    }
  }

  lemma Pow2Strict(a: nat, b: nat)
    requires a < b
    ensures 2 * Pow2(a) <= Pow2(b)
  {
    Pow2Monotone(a + 1, b);
  }

  /** Number of bits in the binary form of n (BigInteger.BitLength for n >= 0). */
  function BitLength(n: nat): nat
  {
    if n == 0 then 0 else 1 + BitLength(n / 2)
  }

  lemma {:induction false} BitLengthBounds(n: nat)
    ensures n < Pow2(BitLength(n))
    ensures n > 0 ==> BitLength(n) >= 1 && Pow2(BitLength(n) - 1) <= n
  {
    if n > 0 {
      BitLengthBounds(n / 2);
    }
  }

  /** The bit length is the unique k with 2^(k-1) <= n < 2^k. */
  lemma {:induction false} BitLengthOf(n: nat, k: nat)
    requires k >= 1 && Pow2(k - 1) <= n < Pow2(k)
    ensures BitLength(n) == k
  {
    if k > 1 {
      BitLengthOf(n / 2, k - 1);
    }
  }

  lemma BitLengthAbove(n: nat, m: nat)
    ensures BitLength(n) > m <==> n >= Pow2(m)
  {
    BitLengthBounds(n);
    if BitLength(n) > m {
      Pow2Monotone(m, BitLength(n) - 1);
    } else {
      Pow2Monotone(BitLength(n), m);
    }
  }

  // ---------------------------------------------------------------------
  // Euclidean division

  lemma MulNonNegative(a: int, b: int)
    requires a >= 0 && b >= 0
    ensures a * b >= 0
  {
  }

  lemma DivModUnique(x: int, m: int, q: int, r: int)
    requires m > 0 && 0 <= r < m && x == q * m + r
    ensures x / m == q && x % m == r
  {
    var q', r' := x / m, x % m;
    assert x == q' * m + r';
    var d := q - q';
    assert d * m == r' - r;
  }

  lemma ModAddMultiple(c: int, k: int, m: int)
    requires m > 0
    ensures (c + k * m) % m == c % m
  {
    DivModUnique(c + k * m, m, c / m + k, c % m);
  }

  lemma ModMulLeft(a: int, b: int, m: int)
    requires m > 0
    ensures ((a % m) * b) % m == (a * b) % m
  {
    assert a * b == (a % m) * b + ((a / m) * b) * m;
    ModAddMultiple((a % m) * b, (a / m) * b, m);
  }

  lemma ModMulBoth(a: int, b: int, m: int)
    requires m > 0
    ensures ((a % m) * (b % m)) % m == (a * b) % m
  {
    ModMulLeft(a, b % m, m);
    ModMulLeft(b, a, m);
    assert (a * (b % m)) == (b % m) * a;
    assert b * a == a * b;
  }

  lemma ModAddBoth(a: int, b: int, m: int)
    requires m > 0
    ensures ((a % m) + (b % m)) % m == (a + b) % m
  {
    assert a + b == (a % m) + (b % m) + (a / m + b / m) * m;
    ModAddMultiple((a % m) + (b % m), a / m + b / m, m);
  }

  /** Two values are congruent exactly when their difference is a multiple. */
  lemma ModEqDiff(a: int, b: int, m: int)
    requires m > 0
    ensures a % m == b % m <==> (a - b) % m == 0
  {
    if a % m == b % m {
      assert a - b == (a / m - b / m) * m + 0;
      DivModUnique(a - b, m, a / m - b / m, 0);
    }
    if (a - b) % m == 0 {
      var k := (a - b) / m;
      assert a == b + k * m;
      ModAddMultiple(b, k, m);
    }
  }

  lemma ModOfSmall(x: int, m: int)
    requires 0 <= x < m
    ensures x % m == x
  {
    DivModUnique(x, m, 0, x);
  }

  // ---------------------------------------------------------------------
  // Divisibility

  predicate Divides(d: int, n: int)
  {
    d > 0 && n % d == 0
  }

  /** a and b have no common divisor above 1. */
  ghost predicate Coprime(a: int, b: int)
  {
    forall d: int :: d > 1 ==> !(Divides(d, a) && Divides(d, b))
  }

  ghost predicate IsPrime(p: int)
  {
    p > 1 && forall d: int :: 1 < d < p ==> !Divides(d, p)
  }

  /** An odd modulus can be cancelled from a factor of two. */
  lemma OddCancelTwo(p: int, t: int)
    requires p > 0 && p % 2 == 1 && (2 * t) % p == 0
    ensures t % p == 0
  {
    var k, s := t / p, t % p;
    assert 2 * t == 2 * s + (2 * k) * p;
    ModAddMultiple(2 * s, 2 * k, p);
    if 2 * s < p {
      ModOfSmall(2 * s, p);
    } else {
      DivModUnique(2 * s, p, 1, 2 * s - p);
    }
  }

  lemma {:induction false} OddCancelPow2(p: int, t: int, c: nat)
    requires p > 0 && p % 2 == 1 && (Pow2(c) * t) % p == 0
    ensures t % p == 0
  {
    if c > 0 {
      assert Pow2(c) * t == 2 * (Pow2(c - 1) * t);
      OddCancelTwo(p, Pow2(c - 1) * t);
      OddCancelPow2(p, t, c - 1);
    }
  }

  lemma PrimeCoprime(p: int, x: int)
    requires IsPrime(p) && 0 < x < p
    ensures Coprime(x, p)
  {
    forall d: int | d > 1 && Divides(d, x)
      ensures !Divides(d, p)
    {
      if d >= p {
        if d > x {
          ModOfSmall(x, d);
        }
      }
    }
  }

  /** Extended Euclid: g = gcd(a, b) written as a * x + b * y. */
  ghost function ExtGcd(a: nat, b: nat): (r: (int, int, nat))
    decreases b
  {
    if b == 0 then (1, 0, a)
    else
      var t := ExtGcd(b, a % b);
      (t.1, t.0 - (a / b) * t.1, t.2)
  }

  lemma BezoutStep(a: int, b: int, q: int, r: int, x: int, y: int)
    requires a == q * b + r
    ensures a * y + b * (x - q * y) == b * x + r * y
  {
  }

  lemma MultipleOf(n: int, k: int, g: int)
    requires g > 0 && n == k * g
    ensures n % g == 0
  {
    ModAddMultiple(0, k, g);
  }

  lemma DividesCombination(a: int, b: int, q: int, r: int, g: int)
    requires g > 0 && a == q * b + r && b % g == 0 && r % g == 0
    ensures a % g == 0
  {
    var k1, k2 := b / g, r / g;
    assert b == k1 * g;
    assert r == k2 * g;
    assert a == (q * k1 + k2) * g;
    MultipleOf(a, q * k1 + k2, g);
  }

  lemma {:induction false} ExtGcdBezout(a: nat, b: nat)
    ensures var r := ExtGcd(a, b); a * r.0 + b * r.1 == r.2
    ensures var r := ExtGcd(a, b); r.2 > 0 ==> Divides(r.2, a) && Divides(r.2, b)
    ensures (a > 0 || b > 0) ==> ExtGcd(a, b).2 > 0
    decreases b
  {
    if b > 0 {
      var t := ExtGcd(b, a % b);
      ExtGcdBezout(b, a % b);
      BezoutStep(a, b, a / b, a % b, t.0, t.1);
      if t.2 > 0 {
        DividesCombination(a, b, a / b, a % b, t.2);
      }
    }
  }

  lemma GcdWithPrime(p: int, c: int)
    requires IsPrime(p) && 0 < c < p
    ensures ExtGcd(c, p).2 == 1
  {
    ExtGcdBezout(c, p);
    var g := ExtGcd(c, p).2;
    if g >= p {
      ModOfSmall(c, g);
    }
  }

  /** Euclid's lemma: a prime dividing a product divides a factor. */
  lemma EuclidPrime(p: int, a: int, b: int)
    requires IsPrime(p) && (a * b) % p == 0
    ensures a % p == 0 || b % p == 0
  {
    if a % p != 0 {
      var c := a % p;
      GcdWithPrime(p, c);
      ExtGcdBezout(c, p);
      var x, y := ExtGcd(c, p).0, ExtGcd(c, p).1;
      ModMulLeft(a, b, p);
      var k := (c * b) / p;
      assert c * b == k * p;
      BezoutIdentityScaled(c, p, x, y, b, k);
      MultipleOf(b, k * x + b * y, p);
    }
  }

  lemma BezoutIdentityScaled(c: int, p: int, x: int, y: int, b: int, k: int)
    requires c * x + p * y == 1 && c * b == k * p
    ensures b == (k * x + b * y) * p
  {
    calc {
      b;
      (c * x + p * y) * b;
      (c * b) * x + (b * y) * p;
      (k * p) * x + (b * y) * p;
      (k * x + b * y) * p;
    }
  }

  // ---------------------------------------------------------------------
  // Multiples of a modulus

  lemma MultipleSum(x: int, y: int, m: int)
    requires m > 0 && x % m == 0 && y % m == 0
    ensures (x + y) % m == 0 && (x - y) % m == 0
  {
    var kx, ky := x / m, y / m;
    assert x == kx * m && y == ky * m;
    MultipleOf(x + y, kx + ky, m);
    MultipleOf(x - y, kx - ky, m);
  }

  lemma MultipleScale(x: int, y: int, m: int)
    requires m > 0 && x % m == 0
    ensures (x * y) % m == 0
  {
    var k := x / m;
    assert x == k * m;
    assert x * y == (k * y) * m;
    MultipleOf(x * y, k * y, m);
  }
}
