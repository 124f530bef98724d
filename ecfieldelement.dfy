// ECFieldElement: elements of the prime field F_q (FpFieldElement) with
// the reduction routine ModReduce, the modular add/subtract/double helpers,
// inversion through Mod.Invert, square roots and the fixed-width encoding.
module ECFieldElement {
  import opened Wrappers
  import opened Arith
  import opened BigIntegers
  import Mod

  // ---------------------------------------------------------------------
  // The reduction constant

  /** The Barrett constant floor(2^(2L) / p) for L = BitLength(p). */
  function BarrettMu(p: nat): nat
    requires p > 0
  {
    FloorFacts(Pow2(2 * BitLength(p)), p);
    Pow2(2 * BitLength(p)) / p
  }

  /** 2^64 - 1: a 64-bit word with every bit set (the long value -1). */
  const WordMask: nat := 0xFFFF_FFFF_FFFF_FFFF

  /**
   * The top 64 bits of p are all ones. The shifted value has exactly 64
   * bits, so its long value is -1 exactly when it equals 2^64 - 1.
   */
  predicate TopWordAllOnes(p: nat)
    requires BitLength(p) >= 64
  {
    ShiftRight(p, BitLength(p) - 64) == WordMask
  }

  /** BigInteger.ShiftRight for a non-negative value: n halvings. */
  function ShiftRight(p: nat, n: nat): nat
  {
    if n == 0 then p else ShiftRight(p / 2, n - 1)
  }

  /** Shifting right by n divides by 2^n. */
  lemma {:induction false} ShiftRightDivides(p: nat, n: nat)
    ensures ShiftRight(p, n) == p / Pow2(n)
  {
    if n > 0 {
      ShiftRightDivides(p / 2, n - 1);
      DivDiv(p, 2, Pow2(n - 1));
    }
  }

  lemma DivDiv(p: nat, a: nat, b: nat)
    requires a > 0 && b > 0
    ensures (p / a) / b == p / (a * b)
  {
    var k, m := p / a, p % a;
    var k2, m2 := k / b, k % b;
    assert p == k2 * (a * b) + (m2 * a + m) by {
      assert p == k * a + m;
      assert k == k2 * b + m2;
    }
    assert m2 * a + m < a * b by {
      MulLeq(m2, b - 1, a);
    }
    MulNonNegative(m2, a);
    DivModUnique(p, a * b, k2, m2 * a + m);
  }

  /** 2^64, the modulus of a 64-bit word. */
  const TwoTo64: nat := 0x1_0000_0000_0000_0000

  /**
   * FpFieldElement.CalculateResidue: the constant that selects ModReduce's
   * strategy. Below 96 bits there is none; a pseudo-Mersenne p = 2^L - r
   * whose top 64 bits are ones gets r > 0; otherwise a bit length that is a
   * multiple of 8 gets the negated Barrett constant -(2^(2L) div p).
   * A chosen residue is never zero, so its sign always names a strategy.
   */
  function CalculateResidue(p: nat): (r: Option<int>)
    ensures r.Some? ==> BitLength(p) >= 96 && r.value != 0
  {
    var bitLength := BitLength(p);
    if bitLength >= 96 then
      BitLengthBounds(p);
      if TopWordAllOnes(p) then Some(Pow2(bitLength) - p)
      else if bitLength % 8 == 0 then
        Pow2Monotone(bitLength, 2 * bitLength);
        QuotientPositive(Pow2(2 * bitLength), p);
        Some(-(BarrettMu(p) as int))
      else None
    else None
  }

  /**
   * What the residue means: a positive r is 2^L - p for a p within
   * 2^(L-64) of 2^L, a negative one is minus floor(2^(2L) / p) for a bit
   * length that is a multiple of 8, and none is chosen below 96 bits.
   */
  lemma ResidueMeaning(p: nat)
    requires p > 0
    ensures var r := CalculateResidue(p); var L := BitLength(p);
      && (L < 96 ==> r.None?)
      && (r.Some? ==> L >= 96 && r.value != 0)
      && (r.Some? && r.value > 0 ==>
            r.value == Pow2(L) - p && Pow2(L) - Pow2(L - 64) <= p)
      && (r.Some? && r.value < 0 ==>
            L % 8 == 0 && -r.value == Pow2(2 * L) / p && -r.value * p <= Pow2(2 * L))
  {
    PseudoMersenneResidue(p);
    BarrettResidue(p);
    var r := CalculateResidue(p);
    if r.Some? && r.value < 0 {
      DivModParts(Pow2(2 * BitLength(p)), p);
    }
  }

  /** A positive residue is 2^L - p, with p within 2^(L-64) of 2^L. */
  lemma PseudoMersenneResidue(p: nat)
    requires p > 0
    ensures var r := CalculateResidue(p); var L := BitLength(p);
      r.Some? && r.value > 0 ==> L >= 96 && r.value == Pow2(L) - p && Pow2(L) - Pow2(L - 64) <= p
  {
    var L := BitLength(p);
    if L >= 96 && TopWordAllOnes(p) {
      TopWordBound(p, L);
    } else {
      OtherResidue(p);
    }
  }

  /** Any other residue is the negated Barrett constant, which is not zero. */
  lemma BarrettResidue(p: nat)
    requires p > 0
    ensures var r := CalculateResidue(p); var L := BitLength(p);
      r.Some? && r.value <= 0 ==>
        L >= 96 && L % 8 == 0 && r.value < 0 && -r.value == Pow2(2 * L) / p
  {
    var L := BitLength(p);
    BitLengthBounds(p);
    if !(L >= 96 && TopWordAllOnes(p)) {
      OtherResidue(p);
      if L >= 96 && L % 8 == 0 {
        Pow2Monotone(L, 2 * L);
        QuotientPositive(Pow2(2 * L), p);
      }
    }
  }

  /** Without an all-ones top word the residue is the Barrett one or none. */
  lemma OtherResidue(p: nat)
    requires p > 0
    requires !(BitLength(p) >= 96 && TopWordAllOnes(p))
    ensures var L := BitLength(p);
      CalculateResidue(p) == if L >= 96 && L % 8 == 0 then Some(-(BarrettMu(p) as int)) else None
  {
  }

  lemma QuotientPositive(a: int, b: int)
    requires 0 < b <= a
    ensures a / b >= 1
  {
    DivModParts(a, b);
    if a / b <= 0 {
      MulLeq(a / b, 0, b);
    }
  }

  /** All-ones top word puts p within 2^(L-64) of 2^L. */
  lemma TopWordBound(p: nat, L: nat)
    requires L == BitLength(p) && L >= 96 && TopWordAllOnes(p)
    ensures Pow2(L) - Pow2(L - 64) <= p < Pow2(L)
  {
    BitLengthBounds(p);
    var s := Pow2(L - 64);
    ShiftRightDivides(p, L - 64);
    DivModParts(p, s);
    Pow2Add(L - 64, 64);
    WordMaskIsPow2();
    assert Pow2(L) == (WordMask + 1) * s;
  }

  lemma WordMaskIsPow2()
    ensures Pow2(64) == WordMask + 1
  {
    Mod.WordBaseIsPow2();
    Pow2Add(32, 32);
  }

  // ---------------------------------------------------------------------
  // Elements

  /** A value of the field F_q with the curve's reduction constant r. */
  datatype FpFieldElement = FpFieldElement(q: int, r: Option<int>, x: int)
  {
    /** A value of the field: reduced modulo q. */
    predicate Valid()
    {
      0 <= x < q
    }

    /** The element carries the residue its curve computed for q. */
    predicate ResidueMatches()
    {
      q >= 0 && r == CalculateResidue(q)
    }

    function ToBigInteger(): int
    {
      x
    }

    /** FieldSize: the bit length of q. */
    function FieldSize(): nat
      requires q >= 0
    {
      BitLength(q)
    }

    // -------------------------------------------------------------------
    // ModAdd, ModSubtract, ModDouble: one correction by q.

    /**
     * ModAdd: x1 + x2, less q when that reaches q. The result is congruent
     * to the sum, and reduced when both inputs are.
     */
    function ModAdd(x1: int, x2: int): (z: int)
      requires q > 0
      ensures (z - (x1 + x2)) % q == 0
      ensures 0 <= x1 < q && 0 <= x2 < q ==> 0 <= z < q && z == (x1 + x2) % q
    {
      var x3 := x1 + x2;
      var z := if x3 >= q then x3 - q else x3;
      CongruentReduced(z, x1 + x2, q);
      CongruentInRange(z, x1 + x2, q);
      z
    }

    /** ModSubtract: x1 - x2, plus q when that is negative. */
    function ModSubtract(x1: int, x2: int): (z: int)
      requires q > 0
      ensures (z - (x1 - x2)) % q == 0
      ensures 0 <= x1 < q && 0 <= x2 < q ==> 0 <= z < q && z == (x1 - x2) % q
    {
      var x3 := x1 - x2;
      var z := if x3 < 0 then x3 + q else x3;
      CongruentReduced(z, x1 - x2, q);
      CongruentInRange(z, x1 - x2, q);
      z
    }

    /** ModDouble: 2 x, less q when that reaches q. */
    function ModDouble(x1: int): (z: int)
      requires q > 0
      ensures (z - 2 * x1) % q == 0
      ensures 0 <= x1 < q ==> 0 <= z < q && z == (2 * x1) % q
    {
      var x2 := 2 * x1;
      var z := if x2 >= q then x2 - q else x2;
      CongruentReduced(z, 2 * x1, q);
      CongruentInRange(z, 2 * x1, q);
      z
    }

    // -------------------------------------------------------------------
    // ModReduce

    /**
     * ModReduce: x mod q for any sign of x. Without a residue it is the
     * plain modulus; with r > 0 it folds the bits above 2^L back in as
     * multiples of r = 2^L - q; with r < 0 it subtracts a Barrett estimate
     * of the quotient, which needs |x| < 2^(2L) (a product of two reduced
     * values). A negative input is reduced by magnitude and mirrored.
     */
    method ModReduce(x0: int) returns (z: nat)
      requires q > 0 && ResidueMatches()
      requires r.Some? && r.value < 0 ==> -ReductionBound(q) < x0 < ReductionBound(q)
      ensures z < q && z == x0 % q
    {
      if r.None? {
        return x0 % q;
      }
      var negative := x0 < 0;
      var y: nat := if negative then -x0 else x0;
      ghost var y0 := y;
      if r.value > 0 {
        y := FoldHighBits(y);
      } else {
        BarrettResidue(q);
        y := BarrettReduce(y);
      }
      ghost var y1 := y;
      y := SubtractModulus(y);
      MultipleSum(y0 - y1, y1 - y, q);
      MirroredReduction(x0, y, q);
      if negative && y != 0 {
        y := q - y;
      }
      z := y;
    }

    /** The final loop of ModReduce: subtract q until the value is below q. */
    method SubtractModulus(y0: nat) returns (y: nat)
      requires q > 0
      ensures y < q && (y0 - y) % q == 0
    {
      y := y0;
      ModOfSmall(0, q);
      while y >= q
        invariant (y0 - y) % q == 0
        decreases y
      {
        ModAddMultiple(y0 - y, 1, q);
        y := y - q;
      }
    }

    /**
     * The r > 0 branch of ModReduce: while y has more than L + 1 bits, the
     * part above bit L is multiplied by r (skipped when r is one) and added
     * to the low L bits. Each step removes a multiple of q = 2^L - r.
     */
    method FoldHighBits(y0: nat) returns (y: nat)
      requires q > 0 && ResidueMatches() && r.Some? && r.value > 0
      ensures (y0 - y) % q == 0 && BitLength(y) <= BitLength(q) + 1
    {
      PseudoMersenneResidue(q);
      var qLen := BitLength(q);
      var qMod := Pow2(qLen);
      var rIsOne := r.value == 1;
      y := y0;
      ModOfSmall(0, q);
      while BitLength(y) > qLen + 1
        invariant (y0 - y) % q == 0
        decreases y
      {
        y := FoldOnce(y, qLen, qMod, rIsOne, y0);
      }
    }

    /**
     * One round of the folding loop: the bits above L, times r, added to the
     * low L bits.
     */
    method FoldOnce(y: nat, qLen: nat, qMod: nat, rIsOne: bool, ghost y0: int) returns (y': nat)
      requires q > 0 && r.Some? && r.value > 0 && r.value + q == Pow2(qLen)
      requires qMod == Pow2(qLen) && rIsOne == (r.value == 1)
      requires BitLength(y) > qLen + 1 && (y0 - y) % q == 0
      ensures y' < y && (y0 - y') % q == 0
    {
      var u := y / Pow2(qLen);
      var v := y % qMod;
      if !rIsOne {
        u := u * r.value;
      }
      FoldStep(y, u, v, qLen, r.value, q, y0);
      y' := u + v;
    }

    /**
     * The r < 0 branch of ModReduce (Barrett): with d = ((L - 1) mod 32) + 1
     * and mu = -r, the quotient estimate is (mu (y >> (L - d))) >> (L + d);
     * y minus the estimate times q is computed modulo 2^(L + d), corrected
     * once when negative.
     */
    method BarrettReduce(y: nat) returns (t: nat)
      requires q > 0 && ResidueMatches() && r.Some? && r.value < 0
      requires y < ReductionBound(q)
      ensures (y - t) % q == 0
    {
      BarrettResidue(q);
      var qLen := BitLength(q);
      var d := (qLen - 1) % 32 + 1;
      BarrettWidth(qLen);
      var mu := -r.value;
      var u := mu * (y / Pow2(qLen - d));
      var quot := u / Pow2(qLen + d);
      var v := quot * q;
      var bk1 := Pow2(qLen + d);
      v := v % bk1;
      var t' := y % bk1 - v;
      if t' < 0 {
        t' := t' + bk1;
      }
      BarrettStep(q, qLen, d, y, quot, t');
      t := t';
    }

    /** ModMult: the product reduced by ModReduce. */
    method ModMult(x1: int, x2: int) returns (z: nat)
      requires q > 0 && ResidueMatches() && 0 <= x1 < q && 0 <= x2 < q
      ensures z < q && z == (x1 * x2) % q
    {
      ProductFits(q, x1, x2, 0);
      z := ModReduce(x1 * x2);
    }

    /** ModReduce(a b - c), the shape of each step of the Lucas ladder. */
    method ModMultSubtract(a: int, b: int, c: int) returns (z: nat)
      requires q > 0 && ResidueMatches() && 0 <= a < q && 0 <= b < q && 0 <= c <= q * q
      ensures z < q && z == (a * b - c) % q
    {
      ProductFits(q, a, b, c);
      z := ModReduce(a * b - c);
    }

    /**
     * ModInverse: converts q and x to BitLength(q) / 32 rounded up words
     * and inverts with Mod.Invert; zero raises ArgumentException.
     */
    method ModInverse(x1: int) returns (z: Result<nat>)
      requires Valid() && IsPrime(q) && 0 <= x1 < q
      ensures z.Err? <==> x1 == 0
      ensures z.Err? ==> z.error == ArgumentException
      ensures z.Ok? ==> z.value < q && (x1 * z.value) % q == 1
    {
      var len := (FieldSize() + 31) / 32;
      WordsHoldField(q, len);
      if q >= 3 {
        PrimeOdd(q);
      }
      if x1 != 0 {
        PrimeCoprime(q, x1);
      }
      z := Mod.Invert(len, q, x1);
    }

    // -------------------------------------------------------------------
    // Arithmetic on elements

    /**
     * Add: the sum, built with the range-checking constructor. Adding a
     * value of the same field always succeeds.
     */
    function Add(b: FpFieldElement): (e: Result<FpFieldElement>)
      requires Valid() && b.x >= 0
      ensures e.Err? ==> e.error == ArgumentException && b.x >= q
      ensures e.Ok? ==> e.value.Valid() && e.value.q == q && e.value.r == r
      ensures e.Ok? ==> e.value.x == (x + b.x) % q
      ensures b.x < q ==> e.Ok?
    {
      var s := ModAdd(x, b.x);
      CongruentInRange(s, x + b.x, q);
      Create(q, r, Some(s))
    }

    /** AddOne: x + 1, wrapping q - 1 to zero. */
    function AddOne(): (e: FpFieldElement)
      requires Valid()
      ensures e.Valid() && e.q == q && e.r == r && e.x == (x + 1) % q
    {
      var x2 := x + 1;
      var v := if x2 == q then 0 else x2;
      CongruentReduced(v, x + 1, q);
      FpFieldElement(q, r, v)
    }

    /** Subtract: the difference, built with the range-checking constructor. */
    function Subtract(b: FpFieldElement): (e: Result<FpFieldElement>)
      requires Valid() && b.x >= 0
      ensures e.Err? ==> e.error == ArgumentException && b.x > x + q
      ensures e.Ok? ==> e.value.Valid() && e.value.q == q && e.value.r == r
      ensures e.Ok? ==> e.value.x == (x - b.x) % q
      ensures b.x < q ==> e.Ok?
    {
      var s := ModSubtract(x, b.x);
      CongruentInRange(s, x - b.x, q);
      Create(q, r, Some(s))
    }

    /** Negate: zero is its own negation; otherwise q - x. */
    function Negate(): (e: FpFieldElement)
      requires Valid()
      ensures e.Valid() && e.q == q && e.r == r
      ensures (x + e.x) % q == 0
      ensures x == 0 ==> e == this
    {
      if x == 0 then
        ModOfSmall(0, q);
        this
      else
        ModAddMultiple(0, 1, q);
        FpFieldElement(q, r, q - x)
    }

    method Multiply(b: FpFieldElement) returns (e: FpFieldElement)
      requires Valid() && ResidueMatches() && 0 <= b.x < q
      ensures e.Valid() && e.q == q && e.r == r && e.x == (x * b.x) % q
    {
      var z := ModMult(x, b.x);
      e := FpFieldElement(q, r, z);
    }

    method Square() returns (e: FpFieldElement)
      requires Valid() && ResidueMatches()
      ensures e.Valid() && e.q == q && e.r == r && e.x == (x * x) % q
    {
      var z := ModMult(x, x);
      e := FpFieldElement(q, r, z);
    }

    /** Invert: the multiplicative inverse; zero raises ArgumentException. */
    method Invert() returns (e: Result<FpFieldElement>)
      requires Valid() && IsPrime(q)
      ensures e.Err? <==> x == 0
      ensures e.Err? ==> e.error == ArgumentException
      ensures e.Ok? ==> e.value.Valid() && e.value.q == q && e.value.r == r
      ensures e.Ok? ==> (x * e.value.x) % q == 1
    {
      var z := ModInverse(x);
      if z.Err? {
        return Err(z.error);
      }
      e := Ok(FpFieldElement(q, r, z.value));
    }

    /**
     * Divide: x times the inverse of b; a zero divisor raises
     * ArgumentException. The quotient times b gives x back.
     */
    method Divide(b: FpFieldElement) returns (e: Result<FpFieldElement>)
      requires Valid() && ResidueMatches() && IsPrime(q) && 0 <= b.x < q
      ensures e.Err? <==> b.x == 0
      ensures e.Err? ==> e.error == ArgumentException
      ensures e.Ok? ==> e.value.Valid() && e.value.q == q && e.value.r == r
      ensures e.Ok? ==> (e.value.x * b.x) % q == x
    {
      var inv := ModInverse(b.x);
      if inv.Err? {
        return Err(inv.error);
      }
      var z := ModMult(x, inv.value);
      QuotientTimesDivisor(x, b.x, inv.value, z, q);
      e := Ok(FpFieldElement(q, r, z));
    }

    // -------------------------------------------------------------------
    // Square root

    /**
     * Sqrt: NotImplementedException for even q. For q = 3 (mod 4) the
     * candidate x^((q >> 2) + 1) is returned when it squares to x. Otherwise
     * x must pass Euler's criterion, and random candidates P (taken from
     * draws) with P^2 - 4x a non-residue feed the Lucas sequence until
     * V^2 = 4x, when V / 2 mod q is the root; a U other than 1 or q - 1
     * means there is none.
     */
    method Sqrt(draws: seq<nat>) returns (res: Result<Root>)
      requires Valid() && ResidueMatches()
      ensures res.Err? <==> q % 2 == 0
      ensures res.Err? ==> res.error == NotImplementedException
      ensures q % 4 == 3 ==> res.Ok? && PowerRootOutcome(res.value)
      ensures q % 4 == 1 ==> res.Ok? && LucasRootOutcome(res.value)
    {
      OddResidues(q);
      if q % 2 == 0 {
        return Err(NotImplementedException);
      }
      var root;
      if q % 4 == 3 {
        root := SqrtByPower();
      } else {
        root := SqrtByLucas(draws);
      }
      res := Ok(root);
    }

    /** z is a square root of this element in the same field. */
    predicate IsSquareRoot(z: FpFieldElement)
    {
      z.Valid() && z.q == q && z.r == r && (z.x * z.x) % q == x
    }

    /**
     * The outcome for q = 3 (mod 4): with c = x^((q >> 2) + 1) mod q, the
     * root c exactly when c^2 = x, and no root otherwise.
     */
    predicate PowerRootOutcome(root: Root)
      requires q > 0
    {
      var c := ModPow(x, q / 4 + 1, q);
      && root != DrawsExhausted
      && (root.Found? <==> (c * c) % q == x)
      && (root.Found? ==> root.z == FpFieldElement(q, r, c) && IsSquareRoot(root.z))
    }

    /**
     * The outcome for q = 1 (mod 4): no root when Euler's criterion fails
     * (in particular for x = 0), and any root found squares to x.
     */
    predicate LucasRootOutcome(root: Root)
      requires q > 0
    {
      && (ModPow(x, (q - 1) / 2, q) != 1 ==> root == NoRoot)
      && (q > 1 && x == 0 ==> root == NoRoot)
      && (root.Found? ==> IsSquareRoot(root.z))
    }

    /**
     * Sqrt for q = 3 (mod 4): the candidate x^((q >> 2) + 1), returned when
     * its square is x.
     */
    method SqrtByPower() returns (root: Root)
      requires Valid() && ResidueMatches() && q % 4 == 3
      ensures PowerRootOutcome(root)
    {
      var z := FpFieldElement(q, r, ModPow(x, q / 4 + 1, q));
      var z2 := z.Square();
      if z2.x == x {
        return Found(z);
      }
      return NoRoot;
    }

    /**
     * Sqrt for q = 1 (mod 4): Euler's criterion x^((q - 1) / 2) = 1 first,
     * then the Lucas-sequence search.
     */
    method SqrtByLucas(draws: seq<nat>) returns (root: Root)
      requires Valid() && ResidueMatches() && q % 4 == 1
      ensures LucasRootOutcome(root)
    {
      var qMinusOne := q - 1;
      var legendreExponent := qMinusOne / 2;
      if x == 0 && q > 1 {
        ZeroPower(legendreExponent, q);
      }
      if ModPow(x, legendreExponent, q) != 1 {
        return NoRoot;
      }
      var fourX := ModDouble(ModDouble(x));
      QuadrupleCongruent(x, ModDouble(x), fourX, q);
      OddResidues(q);
      root := LucasRoot(draws, fourX);
    }

    /**
     * The search loop of Sqrt for q = 1 (mod 4): draw P below q until
     * P^2 - 4x is a quadratic non-residue, run the Lucas sequence with
     * P and x at k = (q - 1) / 2 + 1, and halve V when V^2 = 4x. When U is
     * neither 1 nor q - 1, x has no root; otherwise draw again. The draws
     * stand in for the random source, and their end for its endlessness.
     */
    method LucasRoot(draws: seq<nat>, fourX: int) returns (root: Root)
      requires Valid() && ResidueMatches() && q % 2 == 1
      requires 0 <= fourX < q && (fourX - 4 * x) % q == 0
      ensures root.Found? ==> IsSquareRoot(root.z)
    {
      var qMinusOne := q - 1;
      var legendreExponent := qMinusOne / 2;
      var k := 2 * (qMinusOne / 4) + 1;
      var i := 0;
      while true
        invariant i <= |draws|
        decreases |draws| - i
      {
        ghost var i0 := i;
        var P: nat;
        while true
          invariant i0 <= i <= |draws|
          decreases |draws| - i
        {
          if i >= |draws| {
            return DrawsExhausted;
          }
          P := draws[i];
          i := i + 1;
          if P < q {
            var pp := ModMult(P, P);
            if ModPow(pp - fourX, legendreExponent, q) == qMinusOne {
              break;
            }
          }
        }
        var U, V := LucasSequence(P, x, k);
        var vv := ModMult(V, V);
        if vv == fourX {
          var h := if V % 2 == 1 then V + q else V;
          h := h / 2;
          HalfRoot(q, x, V, h, fourX);
          return Found(FpFieldElement(q, r, h));
        }
        if !(U == 1 || U == qMinusOne) {
          return NoRoot;
        }
      }
    }

    /**
     * LucasSequence: the terms U_k and V_k of the Lucas sequences with
     * parameters P and Q, reduced mod q, by a left-to-right ladder over the
     * bits of k.
     */
    method LucasSequence(P: nat, Q: nat, k: nat) returns (U: nat, V: nat)
      requires Valid() && ResidueMatches() && P < q && Q < q && k >= 1
      ensures U < q && V < q
    {
      var n := BitLength(k);
      var s := LowestSetBit(k);
      LowestSetBitBelow(k);

      var Uh: nat := 1 % q;
      var Vl: nat := 2 % q;
      var Vh: nat := P;
      var Ql: nat := 1 % q;
      var Qh: nat := 1 % q;

      var j := n - 1;
      while j >= s + 1
        invariant Uh < q && Vl < q && Vh < q && Ql < q && Qh < q
      {
        Ql := ModMult(Ql, Qh);
        if TestBit(k, j) {
          Qh := ModMult(Ql, Q);
          Uh := ModMult(Uh, Vh);
          ProductBelow(P, Ql, q);
          Vl := ModMultSubtract(Vh, Vl, P * Ql);
          TwiceBelowSquare(Qh, q);
          Vh := ModMultSubtract(Vh, Vh, 2 * Qh);
        } else {
          Qh := Ql;
          TwiceBelowSquare(Ql, q);
          Uh := ModMultSubtract(Uh, Vl, Ql);
          ProductBelow(P, Ql, q);
          Vh := ModMultSubtract(Vh, Vl, P * Ql);
          TwiceBelowSquare(Ql, q);
          Vl := ModMultSubtract(Vl, Vl, 2 * Ql);
        }
        j := j - 1;
      }

      Ql := ModMult(Ql, Qh);
      Qh := ModMult(Ql, Q);
      TwiceBelowSquare(Ql, q);
      Uh := ModMultSubtract(Uh, Vl, Ql);
      ProductBelow(P, Ql, q);
      Vl := ModMultSubtract(Vh, Vl, P * Ql);
      Ql := ModMult(Ql, Qh);

      var i := 1;
      while i <= s
        invariant Uh < q && Vl < q && Ql < q
      {
        Uh := ModMult(Uh, Vl);
        TwiceBelowSquare(Ql, q);
        Vl := ModMultSubtract(Vl, Vl, 2 * Ql);
        Ql := ModMult(Ql, Ql);
        i := i + 1;
      }
      U, V := Uh, Vl;
    }

    // -------------------------------------------------------------------
    // Encoding and predicates

    /**
     * GetEncoded: the value in exactly (FieldSize + 7) / 8 big-endian
     * bytes, left-padded with zeros; a value too long for that raises
     * ArgumentException, which a reduced value never is.
     */
    function GetEncoded(): (bytes: Result<seq<Byte>>)
      requires x >= 0 && q >= 0
      ensures bytes.Ok? ==> |bytes.value| == (FieldSize() + 7) / 8 && BigEndianValue(bytes.value) == x
      ensures bytes.Err? ==> bytes.error == ArgumentException
      ensures x < q ==> bytes.Ok?
    {
      var length := (FieldSize() + 7) / 8;
      if x < q then
        FieldFitsBytes(q, x, length);
        AsUnsignedByteArrayOfLength(length, x)
      else
        AsUnsignedByteArrayOfLength(length, x)
    }

    /** Equals: the same field and the same value; the residue is not compared. */
    predicate Equals(other: FpFieldElement)
      ensures Equals(other) <==> this.(r := other.r) == other
    {
      q == other.q && x == other.x
    }

    predicate IsZero()
      ensures IsZero() <==> x == 0
    {
      x == 0
    }

    /** IsOne: the value has bit length one. */
    predicate IsOne()
      requires x >= 0
      ensures IsOne() <==> x == 1
    {
      BitLengthOne(x);
      BitLength(x) == 1
    }

    /** TestBitZero: the value is odd. */
    predicate TestBitZero()
      requires x >= 0
    {
      x % 2 == 1
    }
  }

  /** Outcome of a square root: a root, none, or (model only) no draws left. */
  datatype Root = Found(z: FpFieldElement) | NoRoot | DrawsExhausted

  /**
   * The constructor FpFieldElement(q, r, x): a missing, negative or too
   * large value raises ArgumentException.
   */
  function Create(q: int, r: Option<int>, x: Option<int>): (e: Result<FpFieldElement>)
    ensures e.Ok? <==> x.Some? && 0 <= x.value < q
    ensures e.Err? ==> e.error == ArgumentException
    ensures e.Ok? ==> e.value == FpFieldElement(q, r, x.value)
  {
    if x.None? || x.value < 0 || x.value >= q then Err(ArgumentException)
    else Ok(FpFieldElement(q, r, x.value))
  }

  /** BigInteger.ModPow for a positive modulus: b^e reduced into [0, m). */
  function ModPow(b: int, e: nat, m: int): (z: int)
    requires m > 0
    ensures 0 <= z < m
  {
    Pow(b, e) % m
  }

  /** A positive power of zero is zero, which is not 1 modulo q > 1. */
  lemma ZeroPower(e: nat, q: int)
    requires e >= 1 && q > 1
    ensures ModPow(0, e, q) != 1
  {
    assert Pow(0, e) == 0;
    ModOfSmall(0, q);
  }

  /** BigInteger.TestBit for a non-negative value. */
  predicate TestBit(k: nat, j: nat)
  {
    (k / Pow2(j)) % 2 == 1
  }

  /** BigInteger.GetLowestSetBit for a positive value. */
  function LowestSetBit(k: nat): nat
    requires k > 0
  {
    if k % 2 == 1 then 0 else 1 + LowestSetBit(k / 2)
  }

  // ---------------------------------------------------------------------
  // Lemmas

  lemma DivModParts(x: int, m: int)
    requires m > 0
    ensures x == (x / m) * m + x % m && 0 <= x % m < m
  {
  }

  lemma MulLeq(a: int, b: int, c: int)
    requires a <= b && c >= 0
    ensures a * c <= b * c
  {
    MulNonNegative(b - a, c);
  }

  lemma CancelLeq(a: int, b: int, c: int)
    requires c > 0 && a * c <= b * c
    ensures a <= b
  {
    if a > b {
      MulNonNegative(a - b - 1, c);
    }
  }

  lemma CancelLess(a: int, b: int, c: int)
    requires c > 0 && a * c < b * c
    ensures a < b
  {
    if a >= b {
      MulNonNegative(a - b, c);
    }
  }

  lemma CancelStrict(a: int, b: int, c: int)
    requires a > b && c > 0
    ensures a * c > b * c
  {
    MulNonNegative(a - b - 1, c);
  }

  /** A value within one q of v and congruent to it is v mod q. */
  lemma CongruentReduced(z: int, v: int, q: int)
    requires q > 0 && (z == v || z == v - q || z == v + q)
    ensures (z - v) % q == 0
  {
    if z == v {
      ModOfSmall(0, q);
    } else if z == v - q {
      ModAddMultiple(0, 0 - 1, q);
    } else {
      ModAddMultiple(0, 1, q);
    }
  }

  /** A reduced value congruent to v is v mod q. */
  lemma CongruentInRange(z: int, v: int, q: int)
    requires q > 0
    ensures (z - v) % q == 0 && 0 <= z < q ==> z == v % q
  {
    if (z - v) % q == 0 && 0 <= z < q {
      ModEqDiff(z, v, q);
      ModOfSmall(z, q);
    }
  }

  /** The bound ModReduce's Barrett branch needs: 2^(2 BitLength(q)). */
  function ReductionBound(q: nat): int
  {
    Pow2(2 * BitLength(q))
  }

  /**
   * Reducing |x0| to y and mirroring a non-zero y for negative x0 gives
   * x0 mod q.
   */
  lemma MirroredReduction(x0: int, y: int, q: int)
    requires q > 0 && 0 <= y < q
    requires ((if x0 < 0 then -x0 else x0) - y) % q == 0
    ensures (if x0 < 0 && y != 0 then q - y else y) == x0 % q
  {
    var y0 := if x0 < 0 then -x0 else x0;
    ModEqDiff(y0, y, q);
    ModOfSmall(y, q);
    NegatedMod(y0, q);
  }

  /** The mirror image of a reduced magnitude is the reduction of the negation. */
  lemma NegatedMod(y: int, q: int)
    requires q > 0
    ensures (-y) % q == (if y % q == 0 then 0 else q - y % q)
  {
    var k, m := y / q, y % q;
    DivModParts(y, q);
    if m == 0 {
      DivModUnique(-y, q, -k, 0);
    } else {
      DivModUnique(-y, q, -k - 1, q - m);
    }
  }

  /** One folding step replaces u 2^L by u r, a multiple of q = 2^L - r less. */
  lemma FoldStep(y: nat, u: int, v: int, L: nat, r: int, q: int, y0: int)
    requires q > 0 && r > 0 && r + q == Pow2(L) && BitLength(y) > L + 1
    requires u == (y / Pow2(L)) * r && v == y % Pow2(L)
    requires (y0 - y) % q == 0
    ensures 0 <= u + v < y && (y0 - (u + v)) % q == 0
  {
    BitLengthAbove(y, L + 1);
    var t := Pow2(L);
    var h := y / t;
    DivModParts(y, t);
    if h < 1 {
      MulLeq(h, 0, t);
    }
    FoldArith(h, t, r, q);
    MultipleOf(h * q, h, q);
    MultipleSum(y0 - y, h * q, q);
  }

  lemma FoldArith(h: int, t: int, r: int, q: int)
    requires t == r + q && h >= 1 && r > 0 && q > 0
    ensures h * t - h * r == h * q && h * q > 0 && h * r >= 0
  {
    MulNonNegative(h, r);
    MulNonNegative(h - 1, q);
  }

  /** The Barrett word offset d is at least 2 for a bit length that is a multiple of 8. */
  lemma BarrettWidth(L: nat)
    requires L >= 96 && L % 8 == 0
    ensures 2 <= (L - 1) % 32 + 1 <= 32
  {
  }

  /**
   * The Barrett branch: for y < 2^(2L), subtracting the estimated quotient
   * leaves a value in [0, 2^(L+d)), which the wrapped subtraction t therefore
   * equals, so t is congruent to y.
   */
  lemma BarrettStep(q: int, L: nat, d: nat, y: nat, quot: int, t: int)
    requires q > 0 && L == BitLength(q) && 2 <= d <= 32 && L >= 96
    requires y < Pow2(2 * L)
    requires quot == ((Pow2(2 * L) / q) * (y / Pow2(L - d))) / Pow2(L + d)
    requires var b := Pow2(L + d);
      t == (if y % b - (quot * q) % b < 0 then y % b - (quot * q) % b + b else y % b - (quot * q) % b)
    ensures t >= 0 && (y - t) % q == 0
  {
    BarrettEstimate(q, L, d, y, quot);
    WrappedDifference(y, quot * q, Pow2(L + d), t);
    MultipleOf(y - t, quot, q);
  }

  /** The estimated quotient leaves a remainder in [0, 2^(L+d)). */
  lemma BarrettEstimate(q: int, L: nat, d: nat, y: nat, quot: int)
    requires q > 0 && L == BitLength(q) && 2 <= d <= 32 && L >= 96
    requires y < Pow2(2 * L)
    requires quot == ((Pow2(2 * L) / q) * (y / Pow2(L - d))) / Pow2(L + d)
    ensures 0 <= y - quot * q < Pow2(L + d)
  {
    var a, b, m := Pow2(L - d), Pow2(L + d), Pow2(2 * L);
    Pow2Add(L - d, L + d);
    BitLengthBounds(q);
    Pow2Monotone(L - d, L - 1);
    BarrettLower(m, a, b, q, m / q, y, quot);
    BarrettUpper(m, a, b, q, m / q, y, quot);
    FourFieldsFit(q, L, d);
  }

  /** 4 q < 2^(L+2) <= 2^(L+d). */
  lemma FourFieldsFit(q: int, L: nat, d: nat)
    requires 0 < q < Pow2(L) && d >= 2
    ensures 4 * q < Pow2(L + d)
  {
    Pow2Monotone(L + 2, L + d);
    Pow2Add(L, 2);
    assert Pow2(2) == 4;
  }

  /** The subtraction of two residues mod b, corrected once, is the true difference. */
  lemma WrappedDifference(y: int, w: int, b: int, t: int)
    requires b > 0 && 0 <= y - w < b
    requires t == (if y % b - w % b < 0 then y % b - w % b + b else y % b - w % b)
    ensures t == y - w
  {
    DivModParts(y, b);
    DivModParts(w, b);
    var k := y / b - w / b;
    assert y - w == t + (k - (if y % b - w % b < 0 then 1 else 0)) * b;
    var k' := k - (if y % b - w % b < 0 then 1 else 0);
    if k' > 0 {
      MulNonNegative(k' - 1, b);
    } else if k' < 0 {
      MulNonNegative(-k' - 1, b);
    }
  }

  /** Floor division of a non-negative value brackets it between multiples. */
  lemma FloorFacts(n: int, d: int)
    requires n >= 0 && d > 0
    ensures n / d >= 0 && (n / d) * d <= n < (n / d) * d + d
  {
    DivModParts(n, d);
    if n / d < 0 {
      MulLeq(n / d, 0 - 1, d);
    }
  }

  /** The Barrett estimate never exceeds the true quotient. */
  lemma BarrettLower(m: int, a: int, b: int, q: int, mu: int, y: int, quot: int)
    requires a > 0 && b > 0 && q > 0 && y >= 0 && m == a * b
    requires mu == m / q && quot == (mu * (y / a)) / b
    ensures quot * q <= y
  {
    var y' := y / a;
    FloorFacts(y, a);
    FloorFacts(m, q);
    MulNonNegative(mu, y');
    FloorFacts(mu * y', b);
    BarrettLowerCore(m, a, b, q, mu, y, y', quot);
  }

  lemma BarrettLowerCore(m: int, a: int, b: int, q: int, mu: int, y: int, y': int, quot: int)
    requires a > 0 && b > 0 && q > 0 && m == a * b && y' >= 0 && mu >= 0
    requires y' * a <= y && mu * q <= m && quot * b <= mu * y'
    ensures quot * q <= y
  {
    MulLeq(quot * b, mu * y', q);
    MulLeq(mu * q, m, y');
    assert (quot * q) * b <= (a * y') * b by {
      assert (quot * b) * q == (quot * q) * b;
      assert (mu * y') * q == (mu * q) * y';
      assert m * y' == (a * y') * b;
    }
    CancelLeq(quot * q, a * y', b);
  }

  /** ... and falls short of it by less than three multiples of q. */
  lemma BarrettUpper(m: int, a: int, b: int, q: int, mu: int, y: int, quot: int)
    requires a > 0 && b > 0 && q > 0 && 0 <= y < m && m == a * b && a <= q
    requires mu == m / q && quot == (mu * (y / a)) / b
    ensures y - quot * q < 3 * q
  {
    var y' := y / a;
    FloorFacts(y, a);
    FloorFacts(m, q);
    MulNonNegative(mu, y');
    FloorFacts(mu * y', b);
    BarrettUpperCore(m, a, b, q, mu, y, y', quot);
  }

  lemma BarrettUpperCore(m: int, a: int, b: int, q: int, mu: int, y: int, y': int, quot: int)
    requires a > 0 && b > 0 && q > 0 && m == a * b && a <= q && y' >= 0 && mu >= 0
    requires y < m && y' * a <= y < y' * a + a && m < mu * q + q && mu * y' < quot * b + b
    ensures y - quot * q < 3 * q
  {
    assert y' < b by {
      if y' >= b {
        MulLeq(b, y', a);
      }
    }
    MulLeq(m - q, mu * q, y');
    CancelStrict((quot + 1) * b, mu * y', q);
    MulLeq(y', b, q);
    UpperRegroup(m, a, b, q, mu, y', quot);
    CancelLess(a * y', (quot + 2) * q, b);
  }

  lemma UpperRegroup(m: int, a: int, b: int, q: int, mu: int, y': int, quot: int)
    requires m == a * b
    requires (m - q) * y' <= (mu * q) * y'
    requires ((quot + 1) * b) * q > (mu * y') * q
    requires y' * q <= b * q
    ensures (a * y') * b < ((quot + 2) * q) * b
  {
    var X1, X2, X3, X4, X5 := ((quot + 1) * b) * q, (mu * y') * q, (a * y') * b, y' * q, b * q;
    assert (mu * q) * y' == X2;
    assert (m - q) * y' == X3 - X4;
    assert ((quot + 2) * q) * b == X1 + X5;
  }

  /** a b - c for reduced a, b and 0 <= c <= q^2 lies within the Barrett bound. */
  lemma ProductFits(q: int, a: int, b: int, c: int)
    requires q > 0 && 0 <= a < q && 0 <= b < q && 0 <= c <= q * q
    ensures -ReductionBound(q) < a * b - c < ReductionBound(q)
  {
    var L := BitLength(q);
    var t := Pow2(L);
    BitLengthBounds(q);
    Pow2Add(L, L);
    assert ReductionBound(q) == t * t;
    ProductBelow(q, q, t);
    ProductBelow(a, b, q);
  }

  /** Two values below n multiply to less than n^2. */
  lemma ProductBelow(a: int, b: int, n: int)
    requires 0 <= a < n && 0 <= b < n
    ensures 0 <= a * b < n * n
  {
    MulNonNegative(a, b);
    MulLeq(a, n - 1, b);
    MulLeq(b, n, n - 1);
    assert (n - 1) * b == b * (n - 1);
  }

  /** Twice a reduced value is at most q^2. */
  lemma TwiceBelowSquare(v: int, q: int)
    requires 0 <= v < q
    ensures 2 * v <= q * q
  {
    if q >= 2 {
      MulLeq(2, q, q);
    }
  }

  /** An integer is odd exactly when it is 1 or 3 modulo 4. */
  lemma OddResidues(q: int)
    ensures q % 2 == 1 <==> q % 4 == 1 || q % 4 == 3
    ensures q % 2 == 0 || q % 2 == 1
  {
    var h, m := q / 4, q % 4;
    if m < 2 {
      DivModUnique(q, 2, 2 * h, m);
    } else {
      DivModUnique(q, 2, 2 * h + 1, m - 2);
    }
  }

  lemma PrimeOdd(q: int)
    requires IsPrime(q) && q >= 3
    ensures q % 2 == 1
  {
    assert 1 < 2 < q;
    assert !Divides(2, q);
  }

  /** len = ceil(L / 32) words hold q. */
  lemma WordsHoldField(q: int, len: nat)
    requires q >= 2 && len == (BitLength(q) + 31) / 32
    ensures len >= 1 && q < Mod.Span(len)
  {
    BitLengthBounds(q);
    Pow2Monotone(BitLength(q), 32 * len);
  }

  /** x (b^-1) times b is x again. */
  lemma QuotientTimesDivisor(x: int, b: int, inv: int, z: int, q: int)
    requires q > 1 && 0 <= x < q && (b * inv) % q == 1 && z == (x * inv) % q
    ensures (z * b) % q == x
  {
    ModMulLeft(x * inv, b, q);
    assert (x * inv) * b == x * (b * inv);
    ModMulLeft(b * inv, x, q);
    assert (b * inv) * x == x * (b * inv);
    assert 1 * x == x;
    ModOfSmall(x, q);
  }

  /** 2 (2 x), each doubling corrected by q, is congruent to 4 x. */
  lemma QuadrupleCongruent(x: int, twoX: int, fourX: int, q: int)
    requires q > 0 && (twoX - 2 * x) % q == 0 && (fourX - 2 * twoX) % q == 0
    ensures (fourX - 4 * x) % q == 0
  {
    MultipleScale(twoX - 2 * x, 2, q);
    MultipleSum(fourX - 2 * twoX, (twoX - 2 * x) * 2, q);
  }

  /** Halving V modulo odd q turns V^2 = 4x into h^2 = x. */
  lemma HalfRoot(q: int, x: int, V: int, h: int, fourX: int)
    requires q > 0 && q % 2 == 1 && 0 <= x < q && 0 <= V < q
    requires (fourX - 4 * x) % q == 0 && (V * V) % q == fourX
    requires h == (if V % 2 == 1 then V + q else V) / 2
    ensures 0 <= h < q && (h * h) % q == x
  {
    var w := if V % 2 == 1 then V + q else V;
    HalfExact(q, V, w, h);
    if V % 2 == 1 {
      ShiftedSquare(V, q);
    } else {
      ModOfSmall(0, q);
    }
    ResidueDifference(V * V, q);
    CongruenceChain(w * w, V * V, fourX, 4 * x, q);
    HalveCongruence(h, x, q);
  }

  /** Adding the odd q to an odd V makes it even; either way half of it is below q. */
  lemma HalfExact(q: int, V: int, w: int, h: int)
    requires q > 0 && q % 2 == 1 && 0 <= V < q
    requires w == (if V % 2 == 1 then V + q else V) && h == w / 2
    ensures w == 2 * h && 0 <= h < q
  {
    var a, b := V / 2, q / 2;
    DivModParts(V, 2);
    DivModParts(q, 2);
    if V % 2 == 1 {
      DivModUnique(w, 2, a + b + 1, 0);
    } else {
      DivModUnique(w, 2, a, 0);
    }
  }

  lemma CongruenceChain(a: int, b: int, c: int, d: int, q: int)
    requires q > 0 && (a - b) % q == 0 && (b - c) % q == 0 && (c - d) % q == 0
    ensures (a - d) % q == 0
  {
    MultipleSum(a - b, b - c, q);
    MultipleSum(a - c, c - d, q);
  }

  /** For odd q, (2h)^2 = 4x gives h^2 = x. */
  lemma HalveCongruence(h: int, x: int, q: int)
    requires q > 0 && q % 2 == 1 && 0 <= x < q
    requires ((2 * h) * (2 * h) - 4 * x) % q == 0
    ensures (h * h) % q == x
  {
    DoubledSquare(h, x, 2 * h);
    OddCancelPow2(q, h * h - x, 2);
    ModEqDiff(h * h, x, q);
    ModOfSmall(x, q);
  }

  lemma ShiftedSquare(V: int, q: int)
    requires q > 0
    ensures ((V + q) * (V + q) - V * V) % q == 0
  {
    assert (V + q) * (V + q) - V * V == (2 * V + q) * q;
    MultipleOf((V + q) * (V + q) - V * V, 2 * V + q, q);
  }

  lemma ResidueDifference(n: int, q: int)
    requires q > 0
    ensures (n - n % q) % q == 0
  {
    DivModParts(n, q);
    MultipleOf(n - n % q, n / q, q);
  }

  lemma DoubledSquare(h: int, x: int, w: int)
    requires w == 2 * h
    ensures w * w - 4 * x == Pow2(2) * (h * h - x)
  {
    assert Pow2(2) == 4;
  }

  lemma BitLengthOne(x: nat)
    ensures BitLength(x) == 1 <==> x == 1
  {
    if x >= 2 {
      assert BitLength(x / 2) >= 1;
    }
  }

  lemma LowestSetBitBelow(k: nat)
    requires k > 0
    ensures LowestSetBit(k) < BitLength(k)
  {
    if k % 2 == 0 {
      LowestSetBitBelow(k / 2);
    }
  }

  lemma Pow2Pow256(k: nat)
    ensures Pow2(8 * k) == Pow256(k)
  {
    if k > 0 {
      Pow2Pow256(k - 1);
      Pow2Add(8 * (k - 1), 8);
      assert Pow2(8) == 256;
    }
  }

  /** A reduced value always fits the field's byte length. */
  lemma FieldFitsBytes(q: int, x: int, length: nat)
    requires 0 <= x < q && length == (BitLength(q) + 7) / 8
    ensures |UnsignedEncoding(x)| <= length
  {
    BitLengthBounds(q);
    Pow2Monotone(BitLength(q), 8 * length);
    Pow2Pow256(length);
    EncodingFits(x, length);
  }
}
