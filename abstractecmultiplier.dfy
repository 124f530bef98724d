// AbstractECMultiplier.Multiply: the sign and zero dispatch in front of
// MultiplyPositive.
module AbstractECMultiplier {
  import opened Groups
  import opened WNafL2RMultiplier

  /**
   * k p. A zero scalar or the point at infinity gives the point at
   * infinity without touching the tables; otherwise MultiplyPositive runs
   * on |k| and the result is negated for negative k. The tables and the
   * compact wNAF that MultiplyPositive would compute for p and |k| are
   * inputs, required only on the path that uses them.
   */
  method Multiply<T(==,!new)>(g: Group<T>, p: T, k: int, windowSize: int,
                           preComp: seq<T>, preCompNeg: seq<T>, wnaf: seq<int>)
    returns (R: T)
    requires IsAbelian(g)
    requires k != 0 && p != g.zero ==>
      && TablesFor(g, p, preComp, preCompNeg, Width(windowSize))
      && WellFormed(wnaf, Width(windowSize)) && WnafValue(wnaf) == Abs(k)
    ensures R == Mul(g, k, p)
    ensures k == 0 || p == g.zero ==> R == g.zero
  {
    if k == 0 || p == g.zero {
      MulOfZero(g, k);
      return g.zero;
    }
    var positive := MultiplyPositive(g, p, Abs(k), windowSize, preComp, preCompNeg, wnaf);
    if k > 0 {
      R := positive;
    } else {
      MulNeg(g, -k, p);
      R := g.neg(positive);
    }
  }
}
