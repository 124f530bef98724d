// Mod: binary extended-GCD inversion modulo an odd p over fixed-width Nat
// buffers. A buffer of len 32-bit words is modelled by its value, a natural
// below W = 2^(32 len); the signed carry beside a coefficient buffer extends
// it, so the coefficient is A + carry * W.
module Mod {
  import opened Wrappers
  import opened Arith

  /** The value range of a buffer of len words. */
  function Span(len: nat): nat
  {
    Pow2(32 * len)
  }

  /** The range of one 32-bit word. */
  const WordBase: nat := 0x1_0000_0000

  lemma WordBaseIsPow2()
    ensures Pow2(32) == WordBase
  {
    assert Pow2(4) == 16;
    Pow2Add(4, 4);
    Pow2Add(8, 8);
    Pow2Add(16, 16);
  }

  /** Word k of a buffer (u[k]). */
  function Word(u: nat, k: nat): nat
  {
    (u / Pow2(32 * k)) % WordBase
  }

  /** The signed coefficient held by buffer A and its carry c. */
  function Coef(w: nat, a: nat, c: int): int
  {
    a + c * w
  }

  // ---------------------------------------------------------------------
  // The Nat primitives used here, on buffer values.

  /** Nat.Sub: (x - y) mod W and the borrow, 0 or -1. */
  function NatSub(w: nat, x: nat, y: nat): (r: (nat, int))
    requires x < w && y < w
    ensures r.0 < w && r.0 == x - y - r.1 * w && (r.1 == 0 || r.1 == -1)
  {
    if x >= y then (x - y, 0) else (x - y + w, -1)
  }

  /** Nat.Add: (x + y) mod W and the carry, 0 or 1. */
  function NatAdd(w: nat, x: nat, y: nat): (r: (nat, int))
    requires x < w && y < w
    ensures r.0 < w && r.0 == x + y - r.1 * w && (r.1 == 0 || r.1 == 1)
  {
    if x + y >= w then (x + y - w, 1) else (x + y, 0)
  }

  /** Nat.ShiftDownBit: shift right by one, bit 0 of c entering at the top. */
  function ShiftDownBit(w: nat, x: nat, c: int): nat
    requires w % 2 == 0
  {
    if c % 2 == 0 then x / 2 else x / 2 + w / 2
  }

  lemma SpanFacts(len: nat)
    requires len >= 1
    ensures Span(len) % 2 == 0 && Span(len) >= Pow2(32)
  {
    var e := 32 * len;
    Pow2Monotone(32, e);
    var half := Pow2(e - 1);
    assert Span(len) == Pow2(e) == half + half;
    DivModUnique(half + half, 2, half, 0);
  }

  /** A coefficient in (-p, p) with p <= W has carry 0 or -1. */
  lemma CarryRange(w: nat, a: nat, c: int, p: int)
    requires a < w && 0 < p <= w && -p < Coef(w, a, c) < p
    ensures c == 0 || c == -1
  {
    if c >= 1 {
      MulNonNegative(c - 1, w);
    } else if c <= -2 {
      MulNonNegative(-c - 2, w);
    }
  }

  // ---------------------------------------------------------------------
  // Invert

  /**
   * Mod.Invert: the inverse of x modulo the modulus p held in len words,
   * by the binary extended Euclidean algorithm. Zero is rejected with
   * ArgumentException and one is its own inverse; otherwise the result z is
   * below p and x * z is 1 modulo p. Past those two shortcuts the algorithm
   * halves modulo p, so p must be odd there (an even p, such as 2, only
   * reaches the shortcuts for x below 2), and it only terminates when x and
   * p have no common factor, which the prime field guarantees.
   */
  method Invert(len: nat, p: int, x: nat) returns (r: Result<nat>)
    requires len >= 1 && 2 <= p < Span(len) && x < Span(len) && (p % 2 == 1 || x <= 1)
    requires x == 0 || Coprime(x, p)
    ensures r.Err? <==> x == 0
    ensures r.Err? ==> r.error == ArgumentException
    ensures x == 1 ==> r == Ok(1)
    ensures r.Ok? ==> r.value < p && (x * r.value) % p == 1
  {
    SpanFacts(len);
    if x == 0 {
      return Err(ArgumentException);
    }
    if x == 1 {
      ModOfSmall(1, p);
      return Ok(x);
    }

    var u, a, ac := InitialStep(len, p, x);
    if u == 1 {
      var z := InversionResult(len, p, ac, a);
      ResultIsInverse(len, p, x, a, ac);
      return Ok(z);
    }

    var z := Euclid(len, p, x, u, a, ac);
    return Ok(z);
  }

  /**
   * The loop of Invert, from the first odd u with coefficient a against
   * v = p with coefficient 0: it subtracts the smaller from the larger until
   * one of them is one, and reads the inverse from that one's coefficient.
   */
  method Euclid(len: nat, p: int, x: nat, u0: nat, a0: nat, ac0: int) returns (z: nat)
    requires len >= 1 && 3 <= p < Span(len) && p % 2 == 1
    requires 1 < u0 < Span(len) && u0 % 2 == 1 && Coprime(u0, p)
    requires Bounded(Span(len), p, a0, ac0) && Tracks(Span(len), p, x, a0, ac0, u0)
    ensures z < p && (x * z) % p == 1
  {
    var w := Span(len);
    var u, a, ac := u0, a0, ac0;
    var v: nat := p;
    var b: nat := 0;
    var bc := 0;
    TracksModulus(w, p, x);
    var uvLen := len;

    while true
      invariant 1 <= uvLen <= len
      invariant 1 < u < Span(uvLen) && 1 < v < Span(uvLen)
      invariant Pair(w, p, x, u, a, ac, v, b, bc)
      decreases u + v
    {
      while Word(u, uvLen - 1) == 0 && Word(v, uvLen - 1) == 0
        invariant 1 <= uvLen <= len
        invariant u < Span(uvLen) && v < Span(uvLen)
        decreases uvLen
      {
        TopWordZero(u, uvLen);
        TopWordZero(v, uvLen);
        uvLen := uvLen - 1;
      }

      CoprimeDistinct(u, v);
      var found: Option<nat>;
      if u >= v {
        found, u, a, ac := Round(len, p, x, uvLen, u, a, ac, v, b, bc);
      } else {
        CoprimeSymmetric(u, v);
        found, v, b, bc := Round(len, p, x, uvLen, v, b, bc, u, a, ac);
        if found.None? {
          CoprimeSymmetric(v, u);
        }
      }
      if found.Some? {
        return found.value;
      }
    }
  }

  /**
   * One turn of the loop in Invert, for the larger value u: subtract v and
   * step; when u reaches one, the inverse read from u's coefficient.
   */
  method Round(len: nat, p: int, ghost x: int, uvLen: nat,
               u: nat, a: nat, ac: int, v: nat, b: nat, bc: int)
    returns (z: Option<nat>, u': nat, a': nat, ac': int)
    requires len >= 1 && 1 <= uvLen <= len
    requires 3 <= p < Span(len) && p % 2 == 1
    requires v < u < Span(uvLen) && u % 2 == 1 && v % 2 == 1 && Coprime(u, v)
    requires Bounded(Span(len), p, a, ac) && Bounded(Span(len), p, b, bc)
    requires Tracks(Span(len), p, x, a, ac, u) && Tracks(Span(len), p, x, b, bc, v)
    ensures z.Some? ==> z.value < p && (x * z.value) % p == 1
    ensures z.None? ==> 1 < u' < u && u' % 2 == 1 && Coprime(u', v)
    ensures z.None? ==> Bounded(Span(len), p, a', ac') && Tracks(Span(len), p, x, a', ac', u')
  {
    u', a', ac' := SubtractAndStep(len, p, x, uvLen, u, a, ac, v, b, bc);
    if u' == 1 {
      var r := InversionResult(len, p, ac', a');
      ResultIsInverse(len, p, x, a', ac');
      z := Some(r);
    } else {
      z := None;
    }
  }

  /**
   * The start of Invert: u = x with coefficient a = 1, and one InversionStep
   * when x is even, so that u is odd and a x = u (mod p).
   */
  method InitialStep(len: nat, p: int, x: nat) returns (u: nat, a: nat, ac: int)
    requires len >= 1 && 3 <= p < Span(len) && p % 2 == 1 && 0 < x < Span(len)
    requires Coprime(x, p)
    ensures 0 < u <= x && u % 2 == 1 && Coprime(u, p)
    ensures Bounded(Span(len), p, a, ac) && Tracks(Span(len), p, x, a, ac, u)
  {
    var w := Span(len);
    SpanFacts(len);
    u := x;
    a := 1;
    ac := 0;
    assert Coef(w, a, ac) == 1;
    ModOfSmall(0, p);
    if u % 2 == 0 {
      var u', a', ac', count := InversionStep(len, p, u, len, a, ac);
      EvenStart(w, p, x, a', ac', u', count);
      u, a, ac := u', a', ac';
    } else {
      assert (Coef(w, a, ac) * x - u) == 0;
    }
  }

  /** An even x starts from its odd part u', whose coefficient a' times x is u'. */
  lemma EvenStart(w: nat, p: int, x: nat, a': nat, ac': int, u': nat, count: nat)
    requires p >= 3 && p % 2 == 1 && x > 0 && Coprime(x, p)
    requires x == u' * Pow2(count) && u' % 2 == 1 && count >= 1
    requires a' < w && -p < 2 * Coef(w, a', ac') < p
    requires (Coef(w, a', ac') * Pow2(count) - 1) % p == 0
    ensures 0 < u' <= x && Coprime(u', p)
    ensures Bounded(w, p, a', ac') && Tracks(w, p, x, a', ac', u')
  {
    ModOfSmall(0, p);
    StepCongruence(p, x, 1, 0, x, 0, Coef(w, a', ac'), u', count);
    CoprimeFactor(x, u', Pow2(count), p);
    FactorBound(x, u', Pow2(count));
  }

  /**
   * One turn of the Invert loop for the larger of the two values, u: u
   * becomes u - v with its trailing zeroes removed, and its coefficient
   * a - b, halved modulo p as often.
   */
  method SubtractAndStep(len: nat, p: int, ghost x: int, uvLen: nat,
                         u: nat, a: nat, ac: int, v: nat, b: nat, bc: int)
    returns (u': nat, a': nat, ac': int)
    requires len >= 1 && 1 <= uvLen <= len
    requires 3 <= p < Span(len) && p % 2 == 1
    requires v < u < Span(uvLen) && u % 2 == 1 && v % 2 == 1 && Coprime(u, v)
    requires Bounded(Span(len), p, a, ac) && Bounded(Span(len), p, b, bc)
    requires Tracks(Span(len), p, x, a, ac, u) && Tracks(Span(len), p, x, b, bc, v)
    ensures 0 < u' < u && u' % 2 == 1 && Coprime(u', v)
    ensures Bounded(Span(len), p, a', ac') && Tracks(Span(len), p, x, a', ac', u')
  {
    var w := Span(len);
    var d := u - v;
    OddDifference(u, v);
    var s := NatSub(w, a, b);
    SubCoefficients(w, a, ac, b, bc, s);
    var dc := ac + s.1 - bc;
    var count;
    u', a', ac', count := InversionStep(len, p, d, uvLen, s.0, dc);
    StepCongruence(p, x, Coef(w, a, ac), Coef(w, b, bc), u, v, Coef(w, a', ac'), u', count);
    CoprimeSub(u, v);
    CoprimeFactor(d, u', Pow2(count), v);
    ShiftedSmaller(d, u', count);
  }

  lemma OddDifference(u: int, v: int)
    requires u % 2 == 1 && v % 2 == 1
    ensures (u - v) % 2 == 0
  {
    DivModParts2(u);
    DivModParts2(v);
    DivModUnique(u - v, 2, u / 2 - v / 2, 0);
  }

  lemma DivModParts2(u: int)
    ensures u == (u / 2) * 2 + u % 2
  {
  }

  lemma FactorBound(n: nat, n': nat, k: nat)
    requires n == n' * k && k >= 1
    ensures n' <= n
  {
    MulNonNegative(n', k - 1);
  }

  lemma ShiftedSmaller(d: nat, u': nat, count: nat)
    requires d % 2 == 0 && d > 0 && d == u' * Pow2(count) && count >= 1
    ensures 0 < u' < d
  {
    Pow2Monotone(1, count);
    MulNonNegative(u', Pow2(count) - 2);
  }

  /** (u - v) = u' 2^c keeps a x = u (mod p) for A' = (A - B) / 2^c. */
  lemma StepCongruence(p: int, x: int, A: int, B: int, u: int, v: int, A': int, u': int, c: nat)
    requires p > 0 && p % 2 == 1
    requires (A * x - u) % p == 0 && (B * x - v) % p == 0
    requires u - v == u' * Pow2(c)
    requires (A' * Pow2(c) - (A - B)) % p == 0
    ensures (A' * x - u') % p == 0
  {
    var e1, e2, e3 := A * x - u, B * x - v, A' * Pow2(c) - (A - B);
    MultipleSum(e1, e2, p);
    MultipleScale(e3, x, p);
    MultipleSum(e3 * x, e1 - e2, p);
    StepIdentity(A, B, A', x, u, v, u', Pow2(c));
    OddCancelPow2(p, A' * x - u', c);
  }

  lemma StepIdentity(A: int, B: int, A': int, x: int, u: int, v: int, u': int, P: int)
    requires u - v == u' * P
    ensures P * (A' * x - u') == (A' * P - (A - B)) * x + ((A * x - u) - (B * x - v))
  {
  }

  /**
   * The invariant of the Invert loop: u and v are odd and coprime, and
   * each is congruent to x times its coefficient, which lies within
   * (-p/2, p/2).
   */
  ghost predicate Pair(w: nat, p: int, x: int, u: int, a: nat, ac: int, v: int, b: nat, bc: int)
    requires p > 0
  {
    && u % 2 == 1 && v % 2 == 1 && Coprime(u, v)
    && Bounded(w, p, a, ac) && Bounded(w, p, b, bc)
    && Tracks(w, p, x, a, ac, u) && Tracks(w, p, x, b, bc, v)
  }

  /** a is a buffer value whose coefficient lies strictly within (-p/2, p/2). */
  predicate Bounded(w: nat, p: int, a: nat, ac: int)
  {
    a < w && -p < 2 * Coef(w, a, ac) < p
  }

  /** The coefficient held by (a, ac) times x is congruent to u modulo p. */
  predicate Tracks(w: nat, p: int, x: int, a: nat, ac: int, u: int)
    requires p > 0
  {
    (Coef(w, a, ac) * x - u) % p == 0
  }

  /** v = p starts with coefficient 0: 0 x = p (mod p). */
  lemma TracksModulus(w: nat, p: int, x: int)
    requires p > 0
    ensures Tracks(w, p, x, 0, 0, p)
  {
    assert Coef(w, 0, 0) == 0;
    assert Coef(w, 0, 0) * x - p == 0 + (-1) * p;
    ModAddMultiple(0, -1, p);
  }

  /** Once u = 1, the reduced coefficient is the inverse of x. */
  lemma ResultIsInverse(len: nat, p: int, x: int, a: nat, ac: int)
    requires len >= 1 && 1 < p < Span(len)
    requires Bounded(Span(len), p, a, ac) && Tracks(Span(len), p, x, a, ac, 1)
    ensures (x * InversionResult(len, p, ac, a)) % p == 1
  {
    FinalInverse(x, Coef(Span(len), a, ac), p);
  }

  lemma FinalInverse(x: int, A: int, p: int)
    requires p > 1 && (A * x - 1) % p == 0
    ensures (x * (A % p)) % p == 1
  {
    ModMulLeft(A, x, p);
    ModEqDiff(A * x, 1, p);
    ModOfSmall(1, p);
    assert x * (A % p) == (A % p) * x;
  }

  /** Subtracting the coefficient buffers with their carries subtracts the coefficients. */
  lemma SubCoefficients(w: nat, a: nat, ac: int, b: nat, bc: int, s: (nat, int))
    requires a < w && b < w && s == NatSub(w, a, b)
    ensures Coef(w, s.0, ac + s.1 - bc) == Coef(w, a, ac) - Coef(w, b, bc)
  {
  }

  /** A factor of w keeps w's coprimality with v. */
  lemma CoprimeFactor(n: int, n': int, k: int, v: int)
    requires n == n' * k && Coprime(n, v)
    ensures Coprime(n', v)
  {
    forall d: int | d > 1 && Divides(d, n') && Divides(d, v)
      ensures false
    {
      MultipleScale(n', k, d);
    }
  }

  lemma CoprimeSub(u: int, v: int)
    requires Coprime(u, v)
    ensures Coprime(u - v, v)
  {
    forall d: int | d > 1 && Divides(d, u - v) && Divides(d, v)
      ensures false
    {
      MultipleSum(u - v, v, d);
    }
  }

  lemma CoprimeSymmetric(u: int, v: int)
    requires Coprime(u, v)
    ensures Coprime(v, u)
  {
  }

  /** Two coprime numbers above one are different. */
  lemma CoprimeDistinct(u: int, v: int)
    requires u > 1 && Coprime(u, v)
    ensures u != v
  {
    if u == v {
      ModOfSmall(0, u);
      assert u % u == 0 by {
        ModAddMultiple(0, 1, u);
      }
      assert Divides(u, u) && Divides(u, v);
    }
  }

  /** A zero top word can be dropped from the buffer. */
  lemma TopWordZero(u: nat, n: nat)
    requires n >= 1 && u < Span(n) && Word(u, n - 1) == 0
    ensures u < Span(n - 1)
  {
    var low := Span(n - 1);
    WordBaseIsPow2();
    Pow2Add(32 * (n - 1), 32);
    assert Span(n) == low * WordBase;
    var q := u / low;
    DivModParts(u, low);
    if q >= WordBase {
      MulNonNegative(q - WordBase, low);
      assert false;
    }
    ModOfSmall(q, WordBase);
  }

  // ---------------------------------------------------------------------
  // GetTrailingZeroes

  /** Number of trailing zero bits of a non-zero 32-bit word. */
  method GetTrailingZeroes(x: nat) returns (count: nat)
    requires 0 < x < WordBase
    ensures count < 32
    ensures x % Pow2(count) == 0 && (x / Pow2(count)) % 2 == 1
  {
    var y := x;
    count := 0;
    while y % 2 == 0
      invariant 0 < y && x == y * Pow2(count)
      decreases y
    {
      y := y / 2;
      count := count + 1;
    }
    ShiftBelowWord(x, y, count);
    DivModUnique(x, Pow2(count), y, 0);
  }

  /** A word cannot hold 2^count times a positive number once count reaches 32. */
  lemma ShiftBelowWord(x: nat, y: nat, count: nat)
    requires 0 < x < WordBase && 0 < y && x == y * Pow2(count)
    ensures count < 32
  {
    if count >= 32 {
      Pow2Monotone(32, count);
      WordBaseIsPow2();
      MulNonNegative(y - 1, Pow2(count));
    }
  }

  // ---------------------------------------------------------------------
  // Subtract and InversionResult

  /** Mod.Subtract: x - y mod p, adding p back when the subtraction borrows. */
  function Subtract(len: nat, p: int, x: nat, y: nat): (z: nat)
    requires len >= 1 && 0 < p < Span(len) && x < p && y < p
    ensures z < p && z == (x - y) % p
  {
    var d := NatSub(Span(len), x, y);
    if d.1 != 0 then
      var s := NatAdd(Span(len), d.0, p);
      DivModUnique(x - y, p, -1, s.0);
      s.0
    else
      DivModUnique(x - y, p, 0, d.0);
      d.0
  }

  /** Mod.InversionResult: the coefficient brought into [0, p). */
  function InversionResult(len: nat, p: int, ac: int, a: nat): (z: nat)
    requires len >= 1 && 0 < p < Span(len) && a < Span(len)
    requires -p < Coef(Span(len), a, ac) < p
    ensures z < p && z == Coef(Span(len), a, ac) % p
  {
    CarryRange(Span(len), a, ac, p);
    if ac < 0 then
      DivModUnique(Coef(Span(len), a, ac), p, -1, a + p - Span(len));
      NatAdd(Span(len), a, p).0
    else
      DivModUnique(Coef(Span(len), a, ac), p, 0, a);
      a
  }

  // ---------------------------------------------------------------------
  // InversionStep

  /**
   * The first half of InversionStep: whole zero words of u are shifted out
   * first, then the trailing zero bits of the lowest word; count is the
   * number of bits removed.
   */
  method ShiftOutZeroes(u: nat) returns (u': nat, count: nat)
    requires u > 0
    ensures u == u' * Pow2(count) && u' % 2 == 1
    ensures u % 2 == 0 ==> count >= 1
  {
    u' := u;
    count := 0;
    while u' % WordBase == 0
      invariant 0 < u' && u == u' * Pow2(count)
      decreases u'
    {
      DropZeroWord(u, u', count);
      u' := u' / WordBase;
      count := count + 32;
    }
    var zeroes := GetTrailingZeroes(u' % WordBase);
    if zeroes > 0 {
      ShiftOutTrailingZeroes(u', zeroes);
      DropZeroBits(u, u', count, zeroes);
      u' := u' / Pow2(zeroes);
      count := count + zeroes;
    } else {
      LowBitOfWord(u');
      assert Pow2(0) == 1;
    }
  }

  /**
   * Mod.InversionStep: removes all trailing zero bits of u and halves the
   * paired coefficient modulo p once per removed bit, keeping it in (-p, p)
   * with a carry of 0 or -1.
   */
  method InversionStep(len: nat, p: int, u: nat, uLen: nat, x: nat, xc: int)
    returns (u': nat, x': nat, xc': int, count: nat)
    requires len >= 1 && 1 <= uLen <= len
    requires p > 0 && p % 2 == 1 && p < Span(len)
    requires 0 < u < Span(uLen) && x < Span(len)
    requires -p < Coef(Span(len), x, xc) < p
    ensures u == u' * Pow2(count) && u' % 2 == 1
    ensures u % 2 == 0 ==> count >= 1
    ensures x' < Span(len) && (xc' == 0 || xc' == -1)
    ensures (Coef(Span(len), x', xc') * Pow2(count) - Coef(Span(len), x, xc)) % p == 0
    ensures -p < Coef(Span(len), x', xc') < p
    ensures count >= 1 ==> -p < 2 * Coef(Span(len), x', xc') < p
  {
    u', count := ShiftOutZeroes(u);
    x', xc' := HalveCoefficient(len, p, x, xc, count);
  }

  /**
   * The second half of InversionStep: count halvings of the coefficient
   * modulo p, each preceded by adding or subtracting p when it is odd.
   */
  method HalveCoefficient(len: nat, p: int, x: nat, xc: int, count: nat)
    returns (x': nat, xc': int)
    requires len >= 1 && p > 0 && p % 2 == 1 && p < Span(len) && x < Span(len)
    requires -p < Coef(Span(len), x, xc) < p
    ensures x' < Span(len) && (xc' == 0 || xc' == -1)
    ensures (Coef(Span(len), x', xc') * Pow2(count) - Coef(Span(len), x, xc)) % p == 0
    ensures -p < Coef(Span(len), x', xc') < p
    ensures count >= 1 ==> -p < 2 * Coef(Span(len), x', xc') < p
  {
    var w := Span(len);
    SpanFacts(len);
    x' := x;
    xc' := xc;
    ghost var c0 := Coef(w, x, xc);
    HalvingStart(w, p, x, xc);
    var i := 0;
    while i < count
      invariant i <= count && Halving(w, p, c0, x', xc', i)
    {
      var f := EvenCoefficient(w, p, x', xc');
      HalvingInvariant(w, p, x', xc', c0, i);
      x' := ShiftDownBit(w, f.0, f.1);
      xc' := f.1;
      i := i + 1;
    }
  }

  /**
   * The invariant of the halving loop after i turns: the coefficient (x, xc)
   * times 2^i is congruent to the starting coefficient c0, it lies in
   * (-p, p) with a carry of 0 or -1, and after a halving within (-p/2, p/2).
   */
  predicate Halving(w: nat, p: int, c0: int, x: nat, xc: int, i: nat)
    requires p > 0
  {
    && x < w && (xc == 0 || xc == -1)
    && -p < Coef(w, x, xc) < p
    && (Coef(w, x, xc) * Pow2(i) - c0) % p == 0
    && (i >= 1 ==> -p < 2 * Coef(w, x, xc) < p)
  }

  lemma HalvingStart(w: nat, p: int, x: nat, xc: int)
    requires 0 < p < w && x < w && -p < Coef(w, x, xc) < p
    ensures Halving(w, p, Coef(w, x, xc), x, xc, 0)
  {
    CarryRange(w, x, xc, p);
    assert Pow2(0) == 1;
    ModOfSmall(0, p);
  }

  /** One turn of the halving loop keeps its invariant. */
  lemma HalvingInvariant(w: nat, p: int, x: nat, xc: int, c0: int, i: nat)
    requires w % 2 == 0 && 0 < p < w && p % 2 == 1
    requires Halving(w, p, c0, x, xc, i)
    ensures var f := EvenCoefficient(w, p, x, xc);
      Halving(w, p, c0, ShiftDownBit(w, f.0, f.1), f.1, i + 1)
  {
    var f := EvenCoefficient(w, p, x, xc);
    HalveStep(w, f.0, f.1);
    var y := ShiftDownBit(w, f.0, f.1);
    HalvingKeepsCongruence(Coef(w, x, xc), Coef(w, f.0, f.1), Coef(w, y, f.1), c0, p, i);
  }

  /** Bit 0 of u is bit 0 of its lowest word. */
  lemma LowBitOfWord(u: nat)
    requires ((u % WordBase) / Pow2(0)) % 2 == 1
    ensures u % 2 == 1
  {
    assert Pow2(0) == 1;
    DivModParts(u, WordBase);
    ModAddMultiple(u % WordBase, (u / WordBase) * (WordBase / 2), 2);
  }

  /**
   * The correction before each halving: an odd coefficient gets p added
   * (negative carry) or subtracted, which makes it even and keeps it in
   * (-p, p) with a carry of 0 or -1.
   */
  function EvenCoefficient(w: nat, p: int, x: nat, xc: int): (r: (nat, int))
    requires w % 2 == 0 && 0 < p < w && p % 2 == 1
    requires x < w && (xc == 0 || xc == -1) && -p < Coef(w, x, xc) < p
    ensures r.0 < w && (r.1 == 0 || r.1 == -1)
    ensures -p < Coef(w, r.0, r.1) < p && Coef(w, r.0, r.1) % 2 == 0
    ensures var c := Coef(w, x, xc); var d := Coef(w, r.0, r.1);
      d == c || d == c + p || d == c - p
  {
    CoefParity(w, x, xc);
    if x % 2 == 1 then
      if xc < 0 then
        var s := NatAdd(w, x, p);
        AddModulusEven(w, p, x, s);
        (s.0, xc + s.1)
      else
        var s := NatSub(w, x, p);
        SubModulusEven(w, p, x, s);
        (s.0, xc + s.1)
    else
      (x, xc)
  }

  lemma AddModulusEven(w: nat, p: int, x: nat, s: (nat, int))
    requires w % 2 == 0 && 0 < p < w && p % 2 == 1 && x < w && x % 2 == 1
    requires -p < x - w && s == NatAdd(w, x, p)
    ensures s.1 == 1 && Coef(w, s.0, -1 + s.1) == x - w + p
    ensures -p < x - w + p < p && (x - w + p) % 2 == 0
  {
    var k := w / 2;
    ModAddMultiple(x + p, 0 - k, 2);
    assert (x + p) % 2 == 0 by {
      ModAddBoth(x, p, 2);
    }
  }

  lemma SubModulusEven(w: nat, p: int, x: nat, s: (nat, int))
    requires w % 2 == 0 && 0 < p < w && p % 2 == 1 && x < w && x % 2 == 1
    requires x < p && s == NatSub(w, x, p)
    ensures s.1 == -1 && Coef(w, s.0, s.1) == x - p
    ensures -p < x - p < p && (x - p) % 2 == 0
  {
    ModAddMultiple(x - p, 1, 2);
    assert (x - p + 2) % 2 == 0 by {
      ModAddBoth(x, 2 - p, 2);
      ModAddMultiple(1, 0 - 1, 2);
      assert 2 - p == 1 + (1 - p);
    }
  }

  lemma CoefParity(w: nat, a: nat, c: int)
    requires w % 2 == 0
    ensures Coef(w, a, c) % 2 == a % 2
  {
    var k := w / 2;
    assert c * w == (c * k) * 2;
    ModAddMultiple(a, c * k, 2);
  }

  lemma DropZeroWord(u: nat, u': nat, count: nat)
    requires u' % WordBase == 0 && u == u' * Pow2(count)
    ensures u == (u' / WordBase) * Pow2(count + 32)
  {
    WordBaseIsPow2();
    Pow2Add(count, 32);
    var h := u' / WordBase;
    assert u' == h * WordBase;
    calc {
      u;
      (h * WordBase) * Pow2(count);
      h * (Pow2(count) * Pow2(32));
    }
  }

  lemma DropZeroBits(u: nat, u': nat, count: nat, z: nat)
    requires u' == (u' / Pow2(z)) * Pow2(z) && u == u' * Pow2(count)
    ensures u == (u' / Pow2(z)) * Pow2(count + z)
  {
    Pow2Add(count, z);
    var h := u' / Pow2(z);
    calc {
      u;
      (h * Pow2(z)) * Pow2(count);
      h * (Pow2(count) * Pow2(z));
    }
  }

  lemma ShiftOutTrailingZeroes(u: nat, z: nat)
    requires 0 < z < 32 && u % WordBase != 0
    requires (u % WordBase) % Pow2(z) == 0 && ((u % WordBase) / Pow2(z)) % 2 == 1
    ensures u == (u / Pow2(z)) * Pow2(z) && (u / Pow2(z)) % 2 == 1 && u / Pow2(z) > 0
  {
    var t := WordSplit(z);
    var lo := u % WordBase;
    DivModParts(u, WordBase);
    DivExact(lo, Pow2(z));
    ShiftOutCore(u, u / WordBase, lo, lo / Pow2(z), WordBase, Pow2(z), t);
  }

  /** A word is 2^z times an even number 2t, for 0 < z < 32. */
  lemma WordSplit(z: nat) returns (t: nat)
    requires 0 < z < 32
    ensures WordBase == 2 * t * Pow2(z)
  {
    WordBaseIsPow2();
    Pow2Add(32 - z, z);
    t := Pow2(32 - z - 1);
  }

  lemma ShiftOutCore(u: int, hi: int, lo: int, lo': int, b: int, pz: int, t: int)
    requires u == hi * b + lo && lo == lo' * pz && b == 2 * t * pz
    requires pz > 0 && t >= 0 && hi >= 0 && lo' >= 0 && lo' % 2 == 1
    ensures u == (u / pz) * pz && (u / pz) % 2 == 1 && u / pz > 0
  {
    var q := lo' + (hi * t) * 2;
    RegroupWord(u, hi, lo, lo', b, pz, t);
    MulNonNegative(hi, t);
    DivModUnique(u, pz, q, 0);
    ModAddMultiple(lo', hi * t, 2);
  }

  lemma DivModParts(x: nat, m: int)
    requires m > 0
    ensures x == (x / m) * m + x % m && x / m >= 0
  {
  }

  lemma DivExact(x: int, m: int)
    requires m > 0 && x % m == 0
    ensures x == (x / m) * m
  {
  }

  lemma RegroupWord(u: int, hi: int, lo: int, lo': int, b: int, pz: int, t: int)
    requires u == hi * b + lo && lo == lo' * pz && b == 2 * t * pz
    ensures u == (lo' + (hi * t) * 2) * pz
  {
  }

  /** ShiftDownBit with the carry bit halves an even coefficient exactly. */
  lemma HalveStep(w: nat, a: nat, c: int)
    requires w % 2 == 0 && a < w && (c == 0 || c == -1) && Coef(w, a, c) % 2 == 0
    ensures ShiftDownBit(w, a, c) < w
    ensures 2 * Coef(w, ShiftDownBit(w, a, c), c) == Coef(w, a, c)
  {
    if c == -1 {
      assert a % 2 == 0;
      assert c % 2 == 1;
    } else {
      assert c % 2 == 0;
    }
  }

  lemma HalvingKeepsCongruence(before: int, fixed: int, after: int, c0: int, p: int, i: nat)
    requires p > 0 && (before * Pow2(i) - c0) % p == 0
    requires fixed == before || fixed == before + p || fixed == before - p
    requires 2 * after == fixed
    ensures (after * Pow2(i + 1) - c0) % p == 0
  {
    assert after * Pow2(i + 1) == fixed * Pow2(i) by {
      assert Pow2(i + 1) == 2 * Pow2(i);
    }
    if fixed == before + p {
      assert fixed * Pow2(i) - c0 == (before * Pow2(i) - c0) + Pow2(i) * p;
      ModAddMultiple(before * Pow2(i) - c0, Pow2(i), p);
    } else if fixed == before - p {
      assert fixed * Pow2(i) - c0 == (before * Pow2(i) - c0) + (0 - Pow2(i)) * p;
      ModAddMultiple(before * Pow2(i) - c0, 0 - Pow2(i), p);
    }
  }
}
