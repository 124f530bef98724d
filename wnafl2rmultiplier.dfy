// WNafL2RMultiplier.MultiplyPositive: left-to-right scalar multiplication
// over a compact window-NAF of k. The precomputed odd multiples and the
// compact wNAF come from WNafUtilities, which is not part of this model:
// they are inputs here, with what the multiplier relies on stated as
// preconditions.
module WNafL2RMultiplier {
  import opened Arith
  import opened Groups

  /** The window width clamped to [2, 16], whatever the window-size rule returns. */
  function Width(windowSize: int): (w: int)
    ensures 2 <= w <= 16
    ensures 2 <= windowSize <= 16 ==> w == windowSize
    ensures windowSize < 2 ==> w == 2
    ensures windowSize > 16 ==> w == 16
  {
    var m := if windowSize < 16 then windowSize else 16;
    if m > 2 then m else 2
  }

  // ---------------------------------------------------------------------
  // Compact wNAF words

  predicate IsInt32(v: int)
  {
    -0x8000_0000 <= v < 0x8000_0000
  }

  /** wi >> 16: the signed digit in the upper half of a 32-bit word. */
  function Digit(wi: int): int
  {
    wi / 0x1_0000
  }

  /** wi & 0xFFFF: the run of zeroes in the lower half. */
  function Zeroes(wi: int): nat
  {
    wi % 0x1_0000
  }

  /** |digit|. */
  function Abs(d: int): nat
  {
    if d < 0 then -d else d
  }

  /** A word packs its digit and zero run back together. */
  lemma WordParts(wi: int)
    ensures wi == Digit(wi) * 0x1_0000 + Zeroes(wi) && Zeroes(wi) < 0x1_0000
    ensures IsInt32(wi) ==> -0x8000 <= Digit(wi) < 0x8000
  {
  }

  /**
   * The value of a compact wNAF, least significant word first: each word
   * contributes its digit, and the words above it are doubled once more
   * than their zero runs.
   */
  function WnafValue(wnaf: seq<int>): int
  {
    if wnaf == [] then 0
    else (2 * WnafValue(wnaf[1..]) + Digit(wnaf[0])) * Pow2(Zeroes(wnaf[0]))
  }

  /**
   * What GenerateCompactWindowNaf(width, k) promises: 32-bit words with odd
   * digits below 2^(width - 1) in magnitude, and every word above the
   * lowest with a zero run of at least width - 1.
   */
  predicate WellFormed(wnaf: seq<int>, width: int)
    requires 2 <= width
  {
    forall i :: 0 <= i < |wnaf| ==>
      && IsInt32(wnaf[i])
      && Digit(wnaf[i]) % 2 == 1
      && Abs(Digit(wnaf[i])) < Pow2(width - 1)
      && (i > 0 ==> Zeroes(wnaf[i]) >= width - 1)
  }

  /**
   * What WNafUtilities.Precompute(p, width) promises: at least 2^(width - 2)
   * odd multiples preComp[i] = (2i + 1) p and their negations.
   */
  ghost predicate TablesFor<T(!new)>(g: Group<T>, p: T, preComp: seq<T>, preCompNeg: seq<T>, width: int)
    requires 2 <= width
  {
    && |preComp| >= Pow2(width - 2)
    && |preCompNeg| == |preComp|
    && (forall i :: 0 <= i < |preComp| ==> preComp[i] == Mul(g, 2 * i + 1, p))
    && (forall i :: 0 <= i < |preCompNeg| ==> preCompNeg[i] == g.neg(preComp[i]))
  }

  // ---------------------------------------------------------------------
  // MultiplyPositive

  /**
   * k p for positive k, given the compact wNAF of k and the odd-multiple
   * tables for the clamped width. The top word is handled first: when its
   * magnitude n is in the lower half of the table (4n < 2^width), n 2^scale
   * is formed as the sum of two table entries and scale doublings are taken
   * off its zero run; otherwise the entry for n is used directly.
   */
  method MultiplyPositive<T(!new)>(g: Group<T>, p: T, k: int, windowSize: int,
                                   preComp: seq<T>, preCompNeg: seq<T>, wnaf: seq<int>)
    returns (R: T)
    requires IsAbelian(g) && k > 0
    requires TablesFor(g, p, preComp, preCompNeg, Width(windowSize))
    requires WellFormed(wnaf, Width(windowSize)) && WnafValue(wnaf) == k
    ensures R == Mul(g, k, p)
  {
    var width := Width(windowSize);
    R := g.zero;
    var i := |wnaf|;
    if i > 1 {
      i := i - 1;
      R := FirstWindow(g, p, width, preComp, preCompNeg, wnaf[i]);
      assert wnaf[i..] == [wnaf[i]];
    }
    while i > 0
      invariant 0 <= i <= |wnaf|
      invariant R == Mul(g, WnafValue(wnaf[i..]), p)
    {
      i := i - 1;
      R := NextWindow(g, p, width, preComp, preCompNeg, R, wnaf[i + 1..], wnaf[i]);
      assert wnaf[i..] == [wnaf[i]] + wnaf[i + 1..];
    }
  }

  /**
   * One step of the main loop: R, the multiple for the words above wi,
   * becomes the multiple for wi and those words, through TwicePlus with the
   * table entry for the digit of wi and the doublings of its zero run.
   */
  method NextWindow<T(!new)>(g: Group<T>, p: T, width: int, preComp: seq<T>, preCompNeg: seq<T>,
                             R: T, ghost rest: seq<int>, wi: int)
    returns (R': T)
    requires IsAbelian(g) && 2 <= width
    requires TablesFor(g, p, preComp, preCompNeg, width)
    requires Digit(wi) % 2 == 1 && Abs(Digit(wi)) < Pow2(width - 1)
    requires R == Mul(g, WnafValue(rest), p)
    ensures R' == Mul(g, WnafValue([wi] + rest), p)
  {
    ghost var v := WnafValue(rest);
    assert ([wi] + rest)[1..] == rest;
    var digit, zeroes := Digit(wi), Zeroes(wi);
    var n := Abs(digit);
    var table := if digit < 0 then preCompNeg else preComp;
    TableEntry(g, p, preComp, preCompNeg, width, digit);
    var r := table[n / 2];
    TwicePlusMul(g, v, digit, p);
    R' := TwicePlus(g, R, r);
    TimesPow2Mul(g, 2 * v + digit, p, zeroes);
    R' := TimesPow2(g, R', zeroes);
  }

  /**
   * The first window of MultiplyPositive: the top word (digit d, zeroes z)
   * becomes d 2^z p, with the table substitution when 4|d| < 2^width.
   */
  method FirstWindow<T(!new)>(g: Group<T>, p: T, width: int, preComp: seq<T>, preCompNeg: seq<T>, wi: int)
    returns (R: T)
    requires IsAbelian(g) && 2 <= width <= 16
    requires TablesFor(g, p, preComp, preCompNeg, width)
    requires Digit(wi) % 2 == 1 && Abs(Digit(wi)) < Pow2(width - 1)
    requires Zeroes(wi) >= width - 1
    ensures R == Mul(g, WnafValue([wi]), p)
  {
    assert WnafValue([wi]) == Digit(wi) * Pow2(Zeroes(wi));
    var digit, zeroes := Digit(wi), Zeroes(wi);
    var n := Abs(digit);
    AbsOdd(digit);
    var table := if digit < 0 then preCompNeg else preComp;
    if n * 4 < Pow2(width) {
      var (i1, i2, scale) := Substitution(n, width);
      SubstitutedEntries(g, p, preComp, preCompNeg, width, digit, i1, i2, scale);
      R := g.add(table[i1 / 2], table[i2 / 2]);
      ShiftedWindow(g, p, digit, scale, zeroes - scale);
      R := TimesPow2(g, R, zeroes - scale);
    } else {
      TableEntry(g, p, preComp, preCompNeg, width, digit);
      R := table[n / 2];
      TimesPow2Mul(g, digit, p, zeroes);
      R := TimesPow2(g, R, zeroes);
    }
  }

  /** The two substituted table entries add up to d 2^scale p. */
  lemma SubstitutedEntries<T(!new)>(g: Group<T>, p: T, preComp: seq<T>, preCompNeg: seq<T>, width: int,
                                    d: int, i1: int, i2: int, scale: nat)
    requires IsAbelian(g) && 2 <= width
    requires TablesFor(g, p, preComp, preCompNeg, width)
    requires i1 % 2 == 1 && i2 % 2 == 1 && 0 < i1 < Pow2(width - 1) && 0 < i2 < Pow2(width - 1)
    requires d % 2 == 1 && i1 + i2 == Abs(d) * Pow2(scale)
    ensures i1 / 2 < |preComp| && i2 / 2 < |preComp|
    ensures var table := if d < 0 then preCompNeg else preComp;
      g.add(table[i1 / 2], table[i2 / 2]) == Mul(g, d * Pow2(scale), p)
  {
    ghost var P := Pow2(scale);
    if d > 0 {
      TableEntry(g, p, preComp, preCompNeg, width, i1);
      TableEntry(g, p, preComp, preCompNeg, width, i2);
      MulAdd(g, i1, i2, p);
    } else {
      NegOdd(i1);
      NegOdd(i2);
      TableEntry(g, p, preComp, preCompNeg, width, -i1);
      TableEntry(g, p, preComp, preCompNeg, width, -i2);
      MulAdd(g, -i1, -i2, p);
      NegMul(d, P);
    }
  }

  /** Taking scale doublings off the zero run keeps d 2^zeroes. */
  lemma ShiftedWindow<T(!new)>(g: Group<T>, p: T, d: int, scale: nat, e: nat)
    requires IsAbelian(g)
    ensures TimesPow2(g, Mul(g, d * Pow2(scale), p), e) == Mul(g, d * Pow2(scale + e), p)
  {
    TimesPow2Mul(g, d * Pow2(scale), p, e);
    Pow2Add(scale, e);
    MulAssoc(d, Pow2(scale), Pow2(e));
  }

  lemma MulAssoc(a: int, b: int, c: int)
    ensures a * b * c == a * (b * c)
  {
  }

  lemma NegMul(a: int, b: int)
    ensures (-a) * b == -(a * b)
  {
  }

  /** The negation of a positive odd number is odd (Euclidean remainder). */
  lemma NegOdd(i: int)
    requires i > 0 && i % 2 == 1
    ensures (-i) % 2 == 1
  {
    DivModUnique(-i, 2, -(i / 2) - 1, 1);
  }

  /**
   * The indices of the first-window substitution for odd n with
   * 4n < 2^width: highest = BitLength(n), scale = width - highest, lowBits =
   * n without its top bit, i1 = 2^(width-1) - 1 and i2 = lowBits 2^scale + 1.
   * Both are odd and below 2^(width-1), so both index the table, and they
   * add up to n 2^scale; scale is at least 2 and at most width - 1.
   */
  function Substitution(n: nat, width: int): (r: (int, int, nat))
    requires 2 <= width && n % 2 == 1 && n * 4 < Pow2(width)
    ensures var (i1, i2, scale) := r;
      && 2 <= scale <= width - 1
      && i1 % 2 == 1 && i2 % 2 == 1
      && 0 < i1 < Pow2(width - 1) && 0 < i2 < Pow2(width - 1)
      && i1 + i2 == n * Pow2(scale)
  {
    var highest := BitLength(n);
    SubstitutionIndices(n, width);
    var scale := width - highest;
    // n ^ (1 << (highest - 1)): bit highest - 1 is set in n, so this clears it
    var lowBits := n - Pow2(highest - 1);
    var i1 := Pow2(width - 1) - 1;
    var i2 := lowBits * Pow2(scale) + 1;
    (i1, i2, scale)
  }

  lemma SubstitutionIndices(n: nat, width: int)
    requires 2 <= width && n % 2 == 1 && n * 4 < Pow2(width)
    ensures BitLength(n) >= 1 && 2 <= width - BitLength(n) <= width - 1
    ensures var highest := BitLength(n); var scale := width - highest;
      var lowBits := n - Pow2(highest - 1);
      var i1 := Pow2(width - 1) - 1; var i2 := lowBits * Pow2(scale) + 1;
      && i1 % 2 == 1 && i2 % 2 == 1
      && 0 < i1 < Pow2(width - 1) && 0 < i2 < Pow2(width - 1)
      && i1 + i2 == n * Pow2(scale)
  {
    var highest := BitLength(n);
    BitLengthBounds(n);
    assert highest <= width - 2 by {
      Pow2Add(width - 2, 2);
      assert Pow2(2) == 4;
      BitLengthAbove(n, width - 2);
    }
    var scale := width - highest;
    Pow2Add(highest - 1, scale);
    Pow2Add(1, scale - 1);
    Pow2Add(1, width - 2);
    IndexArith(n, n - Pow2(highest - 1), Pow2(highest - 1), Pow2(scale), Pow2(scale - 1),
               Pow2(width - 1), Pow2(width - 2));
  }

  /** SubstitutionIndices over the powers of two as plain numbers. */
  lemma IndexArith(n: int, lowBits: int, h: int, s: int, s': int, top: int, top': int)
    requires h >= 1 && s' >= 1 && s == 2 * s' && top == h * s && top == 2 * top'
    requires n == h + lowBits && 0 <= lowBits < h
    ensures var i1 := top - 1; var i2 := lowBits * s + 1;
      && i1 % 2 == 1 && i2 % 2 == 1
      && 0 < i1 < top && 0 < i2 < top
      && i1 + i2 == n * s
  {
    DivModUnique(top - 1, 2, top' - 1, 1);
    DivModUnique(lowBits * s + 1, 2, lowBits * s', 1);
    MulLeqRight(lowBits, h - 1, s);
    MulNonNegative(lowBits, s);
  }

  lemma AbsOdd(d: int)
    requires d % 2 == 1
    ensures Abs(d) % 2 == 1
  {
    if d < 0 {
      DivModUnique(-d, 2, -(d / 2) - 1, 1);
    }
  }

  lemma MulLeqRight(a: int, b: int, c: int)
    requires a <= b && c >= 0
    ensures a * c <= b * c
  {
    MulNonNegative(b - a, c);
  }

  /**
   * The table entry for a signed odd digit d: preComp[|d| >> 1] = d p for
   * d > 0, preCompNeg[|d| >> 1] = d p for d < 0.
   */
  lemma TableEntry<T(!new)>(g: Group<T>, p: T, preComp: seq<T>, preCompNeg: seq<T>, width: int, d: int)
    requires IsAbelian(g) && 2 <= width
    requires TablesFor(g, p, preComp, preCompNeg, width)
    requires d % 2 == 1 && Abs(d) < Pow2(width - 1)
    ensures Abs(d) / 2 < |preComp|
    ensures d > 0 ==> preComp[Abs(d) / 2] == Mul(g, d, p)
    ensures d < 0 ==> preCompNeg[Abs(d) / 2] == Mul(g, d, p)
  {
    var n := Abs(d);
    assert Pow2(width - 1) == 2 * Pow2(width - 2) by {
      Pow2Add(1, width - 2);
    }
    DivModUnique(n, 2, n / 2, 1);
    if d < 0 {
      MulNeg(g, n, p);
    }
  }
}
