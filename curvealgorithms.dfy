// The ECAlgorithms entry points that work on curves and points: importing a
// point onto a curve, Shamir's trick and the sum of two multiples (both
// importing Q onto P's curve first), and IsFpCurve.
//
// Points are combined in an abstract commutative group over their raw
// coordinates; the doubling-and-adding of ECPoint is not part of this model.
module CurveAlgorithms {
  import opened Wrappers
  import opened Groups
  import opened ECAlgorithms
  import opened ECCurve

  /** IsFpCurve: the field has dimension one, which every prime field has. */
  function IsFpCurve(c: FpCurve): (b: bool)
    ensures b
  {
    c.field.Dimension() == 1
  }

  /**
   * ImportPoint(c, p): ArgumentException unless c equals p's curve, and
   * otherwise c.ImportPoint(p).
   */
  method ImportPoint(c: FpCurve, p: ECPoint) returns (res: Result<ECPoint>)
    requires c.Valid() && p.WellFormed() && p.curve.PrimeModulus()
    ensures !c.Equals(p.curve) ==> res == Err(ArgumentException)
    ensures res.Err? ==> res.error == ArgumentException
    ensures p.curve == c ==> res == Ok(p)
    ensures c.Equals(p.curve) && p.curve != c && p.IsInfinity() ==> res.Ok? && res.value == c.infinity
    ensures res.Ok? && p.curve != c ==> res.value.curve == c
    ensures res.Ok? && p.curve != c && !p.IsInfinity() ==>
      fresh(res.value) && !res.value.IsInfinity() && res.value.compressed == p.compressed
    ensures !(c.coord == CoordJacobian && p.curve.coord in {CoordJacobian, CoordJacobianChudnovsky, CoordJacobianModified})
            && p.curve != c && !p.IsInfinity() && res.Ok? ==>
      res.value.WellFormed() && p.RepresentsAffine(res.value.x.value.x, res.value.y.value.x)
  {
    if !c.Equals(p.curve) {
      return Err(ArgumentException);
    }
    res := c.ImportPoint(p);
  }

  /**
   * ShamirsTrick: Q is imported onto P's curve, then k P + l Q is formed by
   * ImplShamirsTrick from the joint sparse form of k and l. imported is the
   * point Q became: Q itself when both are on the same curve, and otherwise
   * a point of P's curve for the same affine point (outside the raw copy
   * between Jacobian-family systems).
   */
  method ShamirsTrick(g: Group<PointCoords>, P: ECPoint, k: int, Q: ECPoint, l: int, jsf: seq<int>)
    returns (res: Result<PointCoords>, ghost imported: ECPoint?)
    requires IsAbelian(g)
    requires P.curve.Valid() && Q.WellFormed() && Q.curve.PrimeModulus()
    requires JsfValid(jsf) && KValue(jsf) == k && LValue(jsf) == l
    ensures !P.curve.Equals(Q.curve) ==> res == Err(ArgumentException)
    ensures res.Err? ==> res.error == ArgumentException
    ensures Q.curve == P.curve ==> res.Ok? && imported == Q
    ensures res.Ok? ==> imported != null && imported.curve == P.curve
    ensures res.Ok? ==> res.value == g.add(Mul(g, k, P.Coords()), Mul(g, l, imported.Coords()))
    ensures res.Ok? && Q.curve != P.curve && !Q.IsInfinity()
            && !(P.curve.coord == CoordJacobian && Q.curve.coord in {CoordJacobian, CoordJacobianChudnovsky, CoordJacobianModified}) ==>
      imported.WellFormed() && !imported.IsInfinity() && Q.RepresentsAffine(imported.x.value.x, imported.y.value.x)
  {
    var Q' := ImportPoint(P.curve, Q);
    if Q'.Err? {
      return Err(Q'.error), null;
    }
    imported := Q'.value;
    var R := ImplShamirsTrick(g, P.Coords(), k, Q'.value.Coords(), l, jsf);
    res := Ok(R);
  }

  /**
   * SumOfTwoMultiplies: for prime-field curves the same steps as
   * ShamirsTrick, a P + b Q after importing Q onto P's curve.
   */
  method SumOfTwoMultiplies(g: Group<PointCoords>, P: ECPoint, a: int, Q: ECPoint, b: int, jsf: seq<int>)
    returns (res: Result<PointCoords>, ghost imported: ECPoint?)
    requires IsAbelian(g)
    requires P.curve.Valid() && Q.WellFormed() && Q.curve.PrimeModulus()
    requires JsfValid(jsf) && KValue(jsf) == a && LValue(jsf) == b
    ensures !P.curve.Equals(Q.curve) ==> res == Err(ArgumentException)
    ensures res.Err? ==> res.error == ArgumentException
    ensures Q.curve == P.curve ==> res.Ok? && imported == Q
    ensures res.Ok? ==> imported != null && imported.curve == P.curve
    ensures res.Ok? ==> res.value == g.add(Mul(g, a, P.Coords()), Mul(g, b, imported.Coords()))
    ensures res.Ok? && Q.curve != P.curve && !Q.IsInfinity()
            && !(P.curve.coord == CoordJacobian && Q.curve.coord in {CoordJacobian, CoordJacobianChudnovsky, CoordJacobianModified}) ==>
      imported.WellFormed() && !imported.IsInfinity() && Q.RepresentsAffine(imported.x.value.x, imported.y.value.x)
  {
    res, imported := ShamirsTrick(g, P, a, Q, b, jsf);
  }
}
