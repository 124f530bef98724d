// ECCurve and FpCurve: point decoding and decompression, batch
// normalisation, point import, curve equality, the per-point table of
// precomputations and the lazily created default multiplier.
//
// ECPoint is not part of this model beyond what these operations use: its
// coordinates, its compression flag, its precomputation table, and
// Normalize, whose formulas (scaling by zInv for homogeneous coordinates,
// by zInv^2 and zInv^3 for the Jacobian family) and initial z coordinates
// are Bouncy Castle's ECPoint conventions.
module ECCurve {
  import opened Wrappers
  import opened Arith
  import opened BigIntegers
  import opened FiniteFields
  import opened ECFieldElement
  import opened ECAlgorithms

  const CoordAffine := 0
  const CoordHomogeneous := 1
  const CoordJacobian := 2
  const CoordJacobianChudnovsky := 3
  const CoordJacobianModified := 4
  const CoordLambdaAffine := 5
  const CoordLambdaProjective := 6
  const CoordSkewed := 7

  /** FP_DEFAULT_COORDS: the coordinate system every FpCurve is built with. */
  const FpDefaultCoords := CoordJacobianModified

  /**
   * FpCurve.SupportsCoordinateSystem: affine, homogeneous, Jacobian and
   * modified Jacobian, and no other.
   */
  predicate SupportsCoordinateSystem(coord: int)
  {
    match coord
    case 0 => true
    case 1 => true
    case 2 => true
    case 4 => true
    case _ => false
  }

  /** The default system is one the curve supports; the other four are not. */
  lemma SupportedSystems()
    ensures SupportsCoordinateSystem(FpDefaultCoords)
    ensures forall c :: SupportsCoordinateSystem(c) <==>
      c in {CoordAffine, CoordHomogeneous, CoordJacobian, CoordJacobianModified}
  {
  }

  /** What a multiplier stores for a point under a name. */
  datatype PreCompInfo = WNafPreCompInfo(preComp: seq<ECPoint>, preCompNeg: seq<ECPoint>)

  /** A point's table of precomputations: absent until the first store. */
  type PreCompTable = Option<map<string, PreCompInfo>>

  /** Reading a name from a table: null for a missing table or name. */
  function Lookup(table: PreCompTable, name: string): Option<PreCompInfo>
  {
    if table.Some? && name in table.value then Some(table.value[name]) else None
  }

  /** Storing under a name, creating the table on first use. */
  function Store(table: PreCompTable, name: string, info: PreCompInfo): (t: PreCompTable)
    ensures t.Some? && name in t.value
  {
    var m := if table.None? then map[] else table.value;
    Some(m[name := info])
  }

  /**
   * A stored value is read back under its name, other names read what they
   * did before, and nothing is found before the first store.
   */
  lemma LookupAfterStore(table: PreCompTable, name: string, other: string, info: PreCompInfo)
    ensures Lookup(Store(table, name, info), name) == Some(info)
    ensures other != name ==> Lookup(Store(table, name, info), other) == Lookup(table, other)
    ensures Lookup(None, other) == None
  {
  }

  /** The default multiplier object that GetMultiplier creates. */
  class WNafL2RMultiplierObject {
    constructor ()
    {
    }
  }

  /** The raw coordinates of a point, as the group of points sees them. */
  datatype PointCoords = PointCoords(x: Option<FpFieldElement>, y: Option<FpFieldElement>, zs: seq<FpFieldElement>)

  // ---------------------------------------------------------------------
  // Points

  class ECPoint {
    const curve: FpCurve
    const x: Option<FpFieldElement>
    const y: Option<FpFieldElement>
    const zs: seq<FpFieldElement>
    const compressed: bool
    var preCompTable: PreCompTable

    constructor (curve: FpCurve, x: Option<FpFieldElement>, y: Option<FpFieldElement>,
                 zs: seq<FpFieldElement>, compressed: bool)
      ensures this.curve == curve && this.x == x && this.y == y && this.zs == zs
      ensures this.compressed == compressed && preCompTable == None
    {
      this.curve := curve;
      this.x := x;
      this.y := y;
      this.zs := zs;
      this.compressed := compressed;
      preCompTable := None;
    }

    predicate IsInfinity()
    {
      x.None? && y.None?
    }

    function Coords(): PointCoords
    {
      PointCoords(x, y, zs)
    }

    /** e is a reduced element of this point's field. */
    predicate InCurveField(e: FpFieldElement)
    {
      e.q == curve.q && e.r == curve.r && e.Valid()
    }

    /**
     * The coordinates are elements of the curve's field, infinity has
     * neither x nor y, and a finite point on a projective curve has a z.
     */
    predicate WellFormed()
    {
      && curve.FieldOk()
      && (x.None? <==> y.None?)
      && (x.Some? ==> InCurveField(x.value) && InCurveField(y.value))
      && (forall i :: 0 <= i < |zs| ==> InCurveField(zs[i]))
      && (!IsInfinity() && curve.coord != CoordAffine ==> |zs| >= 1)
    }

    /**
     * IsNormalized: affine coordinates, infinity, or a first z coordinate
     * equal to one.
     */
    predicate IsNormalized()
    {
      var coord := curve.coord;
      coord == CoordAffine || coord == CoordLambdaAffine || IsInfinity() || (|zs| > 0 && zs[0].x == 1)
    }

    /**
     * The finite point has affine coordinates (X, Y): x = X z, y = Y z for
     * homogeneous coordinates, x = X z^2, y = Y z^3 for the Jacobian ones,
     * all modulo q.
     */
    predicate RepresentsAffine(X: int, Y: int)
      requires WellFormed() && !IsInfinity()
    {
      var q := curve.q;
      if curve.coord == CoordAffine then
        x.value.x == X && y.value.x == Y
      else
        var z := zs[0].x;
        if curve.coord == CoordHomogeneous then
          x.value.x == (X * z) % q && y.value.x == (Y * z) % q
        else
          x.value.x == (X * (z * z)) % q && y.value.x == (Y * (z * z * z)) % q
    }

    /**
     * ECPoint.Normalize(zInv): x and y scaled by zInv (homogeneous) or by
     * zInv^2 and zInv^3 (Jacobian), as a new point with the curve's initial
     * z coordinates. When zInv inverts z, the new point's x and y are the
     * affine coordinates this point represents.
     */
    method NormalizeBy(zInv: FpFieldElement) returns (p: ECPoint)
      requires WellFormed() && !IsInfinity() && curve.coord != CoordAffine && InCurveField(zInv)
      ensures fresh(p) && p.curve == curve && p.compressed == compressed
      ensures p.WellFormed() && !p.IsInfinity() && p.IsNormalized()
      ensures (zs[0].x * zInv.x) % curve.q == 1 ==> RepresentsAffine(p.x.value.x, p.y.value.x)
    {
      var q := curve.q;
      var X, Y;
      if curve.coord == CoordHomogeneous {
        X := x.value.Multiply(zInv);
        Y := y.value.Multiply(zInv);
        if (zs[0].x * zInv.x) % q == 1 {
          Unscale(x.value.x, zInv.x, zs[0].x, q);
          Unscale(y.value.x, zInv.x, zs[0].x, q);
        }
      } else {
        var zInv2 := zInv.Square();
        var zInv3 := zInv2.Multiply(zInv);
        X := x.value.Multiply(zInv2);
        Y := y.value.Multiply(zInv3);
        if (zs[0].x * zInv.x) % q == 1 {
          InversePowers(zs[0].x, zInv.x, q);
          Unscale(x.value.x, zInv2.x, zs[0].x * zs[0].x, q);
          Unscale(y.value.x, zInv3.x, zs[0].x * zs[0].x * zs[0].x, q);
        }
      }
      p := new ECPoint(curve, Some(X), Some(Y), curve.InitialZCoords(), compressed);
    }

    /**
     * ECPoint.Normalize(): the point itself when it is already normalized,
     * otherwise NormalizeBy the inverse of its z; a zero z raises
     * ArgumentException from the inversion.
     */
    method Normalize() returns (res: Result<ECPoint>)
      requires WellFormed() && curve.PrimeModulus()
      ensures IsNormalized() ==> res == Ok(this)
      ensures res.Err? <==> !IsNormalized() && zs[0].x == 0
      ensures res.Err? ==> res.error == ArgumentException
      ensures res.Ok? ==> res.value.WellFormed() && res.value.IsNormalized() && res.value.curve == curve
      ensures res.Ok? ==> res.value.IsInfinity() == IsInfinity() && res.value.compressed == compressed
      ensures res.Ok? && !IsInfinity() ==> RepresentsAffine(res.value.x.value.x, res.value.y.value.x)
      ensures res.Ok? && res.value != this ==> fresh(res.value)
    {
      if IsNormalized() {
        if !IsInfinity() && curve.coord != CoordAffine {
          assert zs[0].x == 1 by {
            assert curve.coord != CoordLambdaAffine;
          }
          UnitRepresents(x.value.x, y.value.x, curve.q);
        }
        return Ok(this);
      }
      var zInv := zs[0].Invert();
      if zInv.Err? {
        return Err(zInv.error);
      }
      var p := NormalizeBy(zInv.value);
      return Ok(p);
    }
  }

  /** Undoing a scaling: if s t = 1 then (v s) t = v, for reduced v. */
  lemma Unscale(v: int, s: int, t: int, q: int)
    requires q > 0 && 0 <= v < q && (t * s) % q == 1
    ensures v == (((v * s) % q) * t) % q
  {
    ModMulLeft(v * s, t, q);
    assert (v * s) * t == v * (t * s);
    ModMulLeft(t * s, v, q);
    assert (t * s) % q * v == v * ((t * s) % q);
    ModOfSmall(v, q);
  }

  /** If z zInv = 1 then z^2 zInv^2 = 1 and z^3 zInv^3 = 1 (reduced in steps). */
  lemma InversePowers(z: int, zInv: int, q: int)
    requires q > 0 && (z * zInv) % q == 1
    ensures ((z * z) * ((zInv * zInv) % q)) % q == 1
    ensures ((z * z * z) * ((((zInv * zInv) % q) * zInv) % q)) % q == 1
  {
    ProductOfInverses(z, zInv, z, zInv, q);
    ProductOfInverses(z * z, (zInv * zInv) % q, z, zInv, q);
  }

  /** If c c' = 1 and d d' = 1 then (c d) (c' d' reduced) = 1. */
  lemma ProductOfInverses(c: int, c': int, d: int, d': int, q: int)
    requires q > 0 && (c * c') % q == 1 && (d * d') % q == 1
    ensures ((c * d) * ((c' * d') % q)) % q == 1
  {
    var m := (c' * d') % q;
    var P, R := (c' * d') * (c * d), (c * c') * (d * d');
    ModMulLeft(c' * d', c * d, q);
    assert (c * d) * m == m * (c * d);
    assert ((c * d) * m) % q == P % q;
    assert P == R by {
      calc {
        P;
        c' * (d' * (c * d));
        c' * (c * (d' * d));
        (c * c') * (d * d');
      }
    }
    ModMulBoth(c * c', d * d', q);
    assert q > 1;
    ModOfSmall(1, q);
    assert R % q == (1 * 1) % q == 1;
  }

  /** With z = 1 the raw coordinates are the affine ones. */
  lemma UnitRepresents(x: int, y: int, q: int)
    requires q > 0 && 0 <= x < q && 0 <= y < q
    ensures x == (x * 1) % q && y == (y * 1) % q
    ensures x == (x * (1 * 1)) % q && y == (y * (1 * 1 * 1)) % q
  {
    ModOfSmall(x, q);
    ModOfSmall(y, q);
  }

  // ---------------------------------------------------------------------
  // Curves

  class FpCurve {
    const q: int
    const r: Option<int>
    const field: PrimeField
    const a: FpFieldElement
    const b: FpFieldElement
    const coord: int
    var infinity: ECPoint?
    var multiplier: WNafL2RMultiplierObject?

    /**
     * The curve's constants: q at least 2 with its residue, the field of
     * characteristic q, a and b reduced, a supported coordinate system.
     */
    predicate FieldOk()
    {
      && q >= 2 && r == CalculateResidue(q) && field.characteristic == q
      && a.q == q && a.r == r && a.Valid()
      && b.q == q && b.r == r && b.Valid()
      && SupportsCoordinateSystem(coord)
    }

    /** q is prime, which the inversions of normalisation rely on. */
    ghost predicate PrimeModulus()
    {
      FieldOk() && IsPrime(q)
    }

    ghost predicate Valid()
      reads this
    {
      && FieldOk()
      && infinity != null && infinity.curve == this && infinity.IsInfinity() && infinity.zs == []
    }

    /**
     * FpCurve(q, a, b): the field for q, the residue for q, infinity, a and
     * b, and the default coordinate system. The errors of GetPrimeField and
     * of the element constructor are in NewFpCurve.
     */
    constructor (field: PrimeField, q: int, a: int, b: int)
      requires q >= 2 && field.characteristic == q && 0 <= a < q && 0 <= b < q
      ensures Valid() && this.q == q && this.field == field && this.a.x == a && this.b.x == b
      ensures coord == FpDefaultCoords && multiplier == null && fresh(infinity)
    {
      var residue := CalculateResidue(q);
      this.q := q;
      this.r := residue;
      this.field := field;
      this.a := FpFieldElement(q, residue, a);
      this.b := FpFieldElement(q, residue, b);
      this.coord := FpDefaultCoords;
      multiplier := null;
      new;
      infinity := new ECPoint(this, None, None, [], false);
    }

    /** FieldSize: the bit length of q. */
    function FieldSize(): nat
      requires q >= 0
    {
      BitLength(q)
    }

    /** FromBigInteger: the element with value v; out of range raises ArgumentException. */
    function FromBigInteger(v: int): (e: Result<FpFieldElement>)
      ensures e.Ok? <==> 0 <= v < q
      ensures e.Err? ==> e.error == ArgumentException
      ensures e.Ok? ==> e.value == FpFieldElement(q, r, v)
    {
      Create(q, r, Some(v))
    }

    /** The element one of this field. */
    function One(): FpFieldElement
    {
      FpFieldElement(q, r, 1)
    }

    /**
     * The z coordinates of a new point: none for affine, one for the
     * homogeneous and Jacobian systems, (1, a) for modified Jacobian.
     */
    function InitialZCoords(): (zs: seq<FpFieldElement>)
      requires FieldOk()
      ensures coord == CoordAffine <==> zs == []
      ensures zs != [] ==> zs[0] == One()
      ensures forall i :: 0 <= i < |zs| ==> zs[i].q == q && zs[i].r == r && zs[i].Valid()
    {
      if coord == CoordAffine then []
      else if coord == CoordJacobianModified then [One(), a]
      else [One()]
    }

    /** CheckPoint: the point must be non-null and on this curve. */
    function CheckPoint(point: ECPoint?): (s: Status)
      ensures s.Done? <==> point != null && point.curve == this
      ensures s.Raised? ==> s.error == ArgumentException
    {
      if point == null || point.curve != this then Raised(ArgumentException) else Done
    }

    /** Every non-null entry is on this curve. */
    ghost predicate AllOnCurve(points: seq<ECPoint?>)
    {
      forall i :: 0 <= i < |points| ==> points[i] != null ==> points[i].curve == this
    }

    /**
     * CheckPoints: a null array raises ArgumentNullException, and a
     * non-null entry from another curve raises ArgumentException.
     */
    method CheckPoints(points: array?<ECPoint?>) returns (s: Status)
      ensures points == null ==> s == Raised(ArgumentNullException)
      ensures points != null ==> (s.Done? <==> AllOnCurve(points[..]))
      ensures points != null && s.Raised? ==> s.error == ArgumentException
    {
      if points == null {
        return Raised(ArgumentNullException);
      }
      var i := 0;
      while i < points.Length
        invariant 0 <= i <= points.Length
        invariant AllOnCurve(points[..i])
      {
        var point := points[i];
        if point != null && point.curve != this {
          assert !AllOnCurve(points[..]) by {
            assert points[..][i] == point;
          }
          return Raised(ArgumentException);
        }
        assert points[..i + 1] == points[..i] + [point];
        i := i + 1;
      }
      assert points[..i] == points[..];
      return Done;
    }

    /** GetPreCompInfo: what is stored for the point under name, after CheckPoint. */
    function GetPreCompInfo(point: ECPoint?, name: string): (res: Result<Option<PreCompInfo>>)
      reads point
      ensures res.Err? <==> point == null || point.curve != this
      ensures res.Err? ==> res.error == ArgumentException
      ensures res.Ok? ==> res.value == Lookup(point.preCompTable, name)
      ensures res.Ok? && point.preCompTable == None ==> res.value == None
    {
      if CheckPoint(point).Raised? then Err(ArgumentException)
      else
        var table := point.preCompTable;
        if table.None? then Ok(None)
        else if name in table.value then Ok(Some(table.value[name]))
        else Ok(None)
    }

    /** SetPreCompInfo: after CheckPoint, store info under name, creating the table on first use. */
    method SetPreCompInfo(point: ECPoint?, name: string, info: PreCompInfo) returns (s: Status)
      modifies point
      ensures s.Done? <==> point != null && point.curve == this
      ensures s.Raised? ==> s.error == ArgumentException && (point != null ==> point.preCompTable == old(point.preCompTable))
      ensures s.Done? ==> point.preCompTable == Store(old(point.preCompTable), name, info)
      ensures s.Done? ==> GetPreCompInfo(point, name) == Ok(Some(info))
    {
      s := CheckPoint(point);
      if s.Raised? {
        return;
      }
      var table := point.preCompTable;
      if table.None? {
        table := Some(map[]);
      }
      point.preCompTable := Some(table.value[name := info]);
    }

    /** GetMultiplier: the default multiplier, created on the first call only. */
    method GetMultiplier() returns (m: WNafL2RMultiplierObject)
      modifies this`multiplier
      ensures multiplier == m
      ensures old(multiplier) != null ==> m == old(multiplier)
      ensures old(multiplier) == null ==> fresh(m)
    {
      if multiplier == null {
        multiplier := new WNafL2RMultiplierObject();
      }
      return multiplier;
    }

    /**
     * Equals: the same object, or the same field (by characteristic) and
     * the same values of a and b. Null is never equal, and for well-formed
     * curves equality means the same equation y^2 = x^3 + a x + b over the
     * same q.
     */
    predicate Equals(other: FpCurve?)
      ensures Equals(other) ==> other != null && field.characteristic == other.field.characteristic
      ensures other != null && FieldOk() && other.FieldOk() ==>
        (Equals(other) <==> q == other.q && a.x == other.a.x && b.x == other.b.x)
    {
      this == other
      || (other != null && field.Equals(other.field) && a.x == other.a.x && b.x == other.b.x)
    }

    /** CreatePoint(x, y): the overload below without compression. */
    method CreatePoint(X: int, Y: int) returns (res: Result<ECPoint>)
      requires FieldOk()
      ensures res.Ok? <==> 0 <= X < q && 0 <= Y < q
      ensures res.Err? ==> res.error == ArgumentException
      ensures res.Ok? ==> fresh(res.value) && res.value.curve == this && res.value.WellFormed()
      ensures res.Ok? ==> res.value.x == Some(FpFieldElement(q, r, X)) && res.value.y == Some(FpFieldElement(q, r, Y))
      ensures res.Ok? ==> !res.value.compressed && res.value.IsNormalized()
    {
      res := CreatePointWithCompression(X, Y, false);
    }

    /**
     * CreatePoint(x, y, withCompression): both coordinates through
     * FromBigInteger, as a point with the curve's initial z coordinates and
     * the given compression flag.
     */
    method CreatePointWithCompression(X: int, Y: int, withCompression: bool) returns (res: Result<ECPoint>)
      requires FieldOk()
      ensures res.Ok? <==> 0 <= X < q && 0 <= Y < q
      ensures res.Err? ==> res.error == ArgumentException
      ensures res.Ok? ==> fresh(res.value) && res.value.curve == this && res.value.WellFormed()
      ensures res.Ok? ==> res.value.x == Some(FpFieldElement(q, r, X)) && res.value.y == Some(FpFieldElement(q, r, Y))
      ensures res.Ok? ==> res.value.compressed == withCompression && res.value.IsNormalized()
    {
      var x := FromBigInteger(X);
      var y := FromBigInteger(Y);
      if x.Err? || y.Err? {
        return Err(ArgumentException);
      }
      var p := new ECPoint(this, Some(x.value), Some(y.value), InitialZCoords(), withCompression);
      return Ok(p);
    }

    // -------------------------------------------------------------------
    // Point decoding

    /** The right-hand side of the curve equation, x^3 + a x + b mod q. */
    function CurveRhs(X: int): int
      requires q > 0
    {
      (X * X * X + a.x * X + b.x) % q
    }

    /**
     * How decompression at x = X1 turns out: ArgumentException outside
     * [0, q), NotImplementedException (from Sqrt) for even q, and otherwise
     * only the lack of a square root of x^3 + a x + b raises, as
     * ArithmeticException, or the draws run out. For q = 3 (mod 4) the point
     * exists exactly when c = rhs^((q >> 2) + 1) squares to rhs; for
     * q = 1 (mod 4) a right-hand side that fails Euler's criterion has none.
     */
    predicate DecompressionOutcome(X1: int, res: Result<ECPoint>)
      requires q > 0
    {
      var rhs := CurveRhs(X1);
      var c := ModPow(rhs, q / 4 + 1, q);
      && (!(0 <= X1 < q) ==> res == Err(ArgumentException))
      && (0 <= X1 < q && q % 2 == 0 ==> res == Err(NotImplementedException))
      && (0 <= X1 < q && q % 2 == 1 && res.Err? ==> res.error in {ArithmeticException, OutOfDraws})
      && (0 <= X1 < q && q % 4 == 3 ==>
            (res.Ok? <==> (c * c) % q == rhs) && (res.Err? ==> res.error == ArithmeticException))
      && (0 <= X1 < q && q % 4 == 1 && ModPow(rhs, (q - 1) / 2, q) != 1 ==> res == Err(ArithmeticException))
    }

    /**
     * DecompressPoint: alpha = (x^2 + a) x + b; no square root raises
     * ArithmeticException; the root is negated when its low bit is not
     * yTilde. The point returned lies on the curve, and its y has low bit
     * yTilde unless it is zero.
     */
    method DecompressPoint(yTilde: int, X1: int, draws: seq<nat>) returns (res: Result<ECPoint>)
      requires FieldOk()
      ensures DecompressionOutcome(X1, res)
      ensures res.Ok? ==> fresh(res.value) && res.value.curve == this && res.value.WellFormed()
      ensures res.Ok? ==> res.value.compressed && !res.value.IsInfinity()
      ensures res.Ok? ==> res.value.x == Some(FpFieldElement(q, r, X1))
      ensures res.Ok? ==> var Y := res.value.y.value.x; (Y * Y) % q == CurveRhs(X1)
      ensures res.Ok? && (yTilde == 0 || yTilde == 1) ==>
        var Y := res.value.y.value.x; Y == 0 || Y % 2 == yTilde
    {
      var xe := FromBigInteger(X1);
      if xe.Err? {
        return Err(xe.error);
      }
      var x := xe.value;
      var alpha := Alpha(x);
      var beta := alpha.Sqrt(draws);
      if beta.Err? {
        return Err(beta.error);
      }
      OddResidues(q);
      match beta.value
      case NoRoot =>
        return Err(ArithmeticException);
      case DrawsExhausted =>
        return Err(OutOfDraws);
      case Found(z) =>
        assert alpha.IsSquareRoot(z);
        var y := ChooseRoot(z, yTilde);
        var p := new ECPoint(this, Some(x), Some(y), InitialZCoords(), true);
        return Ok(p);
    }

    /** alpha = (x^2 + a) x + b, the right-hand side of the curve equation at x. */
    method Alpha(x: FpFieldElement) returns (alpha: FpFieldElement)
      requires FieldOk() && x.q == q && x.r == r && x.Valid()
      ensures alpha.q == q && alpha.r == r && alpha.Valid() && alpha.ResidueMatches()
      ensures alpha.x == CurveRhs(x.x)
    {
      ghost var X, A, B := x.x, a.x, b.x;
      var x2 := x.Square();
      var t := x2.Add(a).value;
      assert t.ResidueMatches();
      var t3 := t.Multiply(x);
      alpha := t3.Add(b).value;
      ghost var s2, s3 := x2.x, t3.x;
      assert s2 == (X * X) % q && t.x == (s2 + A) % q;
      assert s3 == (t.x * X) % q && alpha.x == (s3 + B) % q;
      HornerRhs(X, A, B, q);
    }

    /**
     * The root with low bit yTilde: z, or its negation when the low bit of
     * z is not yTilde. Both square to the same value, and for odd q the
     * result has the wanted low bit unless it is zero.
     */
    method ChooseRoot(z: FpFieldElement, yTilde: int) returns (y: FpFieldElement)
      requires FieldOk() && z.q == q && z.r == r && z.Valid()
      ensures y.q == q && y.r == r && y.Valid()
      ensures (y.x * y.x) % q == (z.x * z.x) % q
      ensures q % 2 == 1 && (yTilde == 0 || yTilde == 1) ==> y.x == 0 || y.x % 2 == yTilde
    {
      y := z;
      if y.TestBitZero() != (yTilde == 1) {
        if y.x != 0 {
          NegatedRoot(y.x, q);
          if q % 2 == 1 {
            NegatedParity(y.x, q);
          }
        }
        y := y.Negate();
      }
    }

    /**
     * DecodePoint (section 4.2.1 of ANSI X9.62, section 2.3.4 of SEC 1):
     * 0x00 is infinity and must stand alone; 0x02 and 0x03 carry x in
     * (FieldSize + 7) / 8 bytes and the parity of y in the prefix; 0x04,
     * 0x06 and 0x07 carry x and y in that many bytes each. Anything else
     * raises FormatException; an empty array has no prefix to read.
     */
    method DecodePoint(encoded: seq<Byte>, draws: seq<nat>) returns (res: Result<ECPoint>)
      requires Valid()
      ensures |encoded| == 0 ==> res == Err(IndexOutOfRangeException)
      ensures |encoded| > 0 && encoded[0] == 0x00 ==>
        (if |encoded| == 1 then res.Ok? && res.value == infinity else res == Err(ArgumentException))
      ensures |encoded| > 0 && encoded[0] in {0x02, 0x03} ==>
        var E := (FieldSize() + 7) / 8;
        && (|encoded| != E + 1 ==> res == Err(ArgumentException))
        && (|encoded| == E + 1 ==> DecompressionOutcome(BigEndianValue(encoded[1..E + 1]), res))
        && (res.Ok? ==>
              && res.value.curve == this && res.value.compressed && res.value.WellFormed()
              && res.value.x == Some(FpFieldElement(q, r, BigEndianValue(encoded[1..E + 1])))
              && var X, Y := res.value.x.value.x, res.value.y.value.x;
                 (Y * Y) % q == CurveRhs(X) && (Y == 0 || Y % 2 == encoded[0] % 2))
      ensures |encoded| > 0 && encoded[0] in {0x04, 0x06, 0x07} ==>
        var E := (FieldSize() + 7) / 8;
        && (|encoded| != 2 * E + 1 ==> res == Err(ArgumentException))
        && (|encoded| == 2 * E + 1 ==>
              var X, Y := BigEndianValue(encoded[1..E + 1]), BigEndianValue(encoded[E + 1..]);
              && (res.Ok? <==> X < q && Y < q)
              && (res.Err? ==> res.error == ArgumentException)
              && (res.Ok? ==>
                    && res.value.curve == this && !res.value.compressed && res.value.WellFormed()
                    && res.value.x == Some(FpFieldElement(q, r, X)) && res.value.y == Some(FpFieldElement(q, r, Y))))
      ensures |encoded| > 0 && encoded[0] !in {0x00, 0x02, 0x03, 0x04, 0x06, 0x07} ==> res == Err(FormatException)
    {
      if |encoded| == 0 {
        return Err(IndexOutOfRangeException);
      }
      var expectedLength := (FieldSize() + 7) / 8;
      var prefix := encoded[0];
      if prefix == 0x00 {
        if |encoded| != 1 {
          return Err(ArgumentException);
        }
        return Ok(infinity);
      } else if prefix == 0x02 || prefix == 0x03 {
        if |encoded| != expectedLength + 1 {
          return Err(ArgumentException);
        }
        var yTilde := prefix % 2;
        var X1 := BigEndianValue(encoded[1..expectedLength + 1]);
        res := DecompressPoint(yTilde, X1, draws);
      } else if prefix == 0x04 || prefix == 0x06 || prefix == 0x07 {
        if |encoded| != 2 * expectedLength + 1 {
          return Err(ArgumentException);
        }
        var X1 := BigEndianValue(encoded[1..expectedLength + 1]);
        var Y1 := BigEndianValue(encoded[1 + expectedLength..]);
        res := CreatePoint(X1, Y1);
      } else {
        return Err(FormatException);
      }
    }

    // -------------------------------------------------------------------
    // Import

    /**
     * ECCurve.ImportPoint: a point of this curve as it is, infinity as this
     * curve's infinity, and otherwise the normalized point's x and y
     * through CreatePoint.
     */
    method ImportPointBase(p: ECPoint) returns (res: Result<ECPoint>)
      requires Valid() && p.WellFormed() && p.curve.PrimeModulus()
      ensures p.curve == this ==> res == Ok(p)
      ensures p.curve != this && p.IsInfinity() ==> res.Ok? && res.value == infinity
      ensures p.curve != this && !p.IsInfinity() && res.Ok? ==>
        && fresh(res.value) && res.value.curve == this && res.value.WellFormed() && !res.value.IsInfinity()
        && p.RepresentsAffine(res.value.x.value.x, res.value.y.value.x)
        && res.value.compressed == p.compressed
      ensures p.curve != this && !p.IsInfinity() && p.IsNormalized() && p.curve.q <= q ==> res.Ok?
      ensures res.Err? ==> res.error == ArgumentException
    {
      if p.curve == this {
        return Ok(p);
      }
      if p.IsInfinity() {
        return Ok(infinity);
      }
      var n := p.Normalize();
      if n.Err? {
        return Err(n.error);
      }
      var np := n.value;
      res := CreatePointWithCompression(np.x.value.x, np.y.value.x, np.compressed);
    }

    /**
     * FpCurve.ImportPoint: onto a Jacobian curve, a finite point of another
     * curve in a Jacobian-family system keeps its raw x, y and z; anything
     * else goes through ECCurve.ImportPoint.
     */
    method ImportPoint(p: ECPoint) returns (res: Result<ECPoint>)
      requires Valid() && p.WellFormed() && p.curve.PrimeModulus()
      ensures p.curve == this ==> res == Ok(p)
      ensures p.curve != this && p.IsInfinity() ==> res.Ok? && res.value == infinity
      ensures p.curve != this && !p.IsInfinity() && res.Ok? ==>
        fresh(res.value) && res.value.curve == this && !res.value.IsInfinity()
        && res.value.compressed == p.compressed
      ensures !(coord == CoordJacobian && p.curve.coord in {CoordJacobian, CoordJacobianChudnovsky, CoordJacobianModified})
              && p.curve != this && !p.IsInfinity() && res.Ok? ==>
        res.value.WellFormed() && p.RepresentsAffine(res.value.x.value.x, res.value.y.value.x)
      ensures coord == CoordJacobian && p.curve != this && !p.IsInfinity()
              && p.curve.coord in {CoordJacobian, CoordJacobianChudnovsky, CoordJacobianModified} && res.Ok? ==>
        res.value.Coords() == PointCoords(Some(FpFieldElement(q, r, p.x.value.x)), Some(FpFieldElement(q, r, p.y.value.x)), [FpFieldElement(q, r, p.zs[0].x)])
      ensures res.Err? ==> res.error == ArgumentException
    {
      if p.curve != this && coord == CoordJacobian && !p.IsInfinity() {
        var pc := p.curve.coord;
        if pc == CoordJacobian || pc == CoordJacobianChudnovsky || pc == CoordJacobianModified {
          var x := FromBigInteger(p.x.value.x);
          var y := FromBigInteger(p.y.value.x);
          var z := FromBigInteger(p.zs[0].x);
          if x.Err? || y.Err? || z.Err? {
            return Err(ArgumentException);
          }
          var np := new ECPoint(this, Some(x.value), Some(y.value), [z.value], p.compressed);
          return Ok(np);
        }
      }
      res := ImportPointBase(p);
    }

    // -------------------------------------------------------------------
    // NormalizeAll

    /** The normalized replacement n of the point p. */
    predicate NormalizedFrom(n: ECPoint?, p: ECPoint)
      requires p.WellFormed() && !p.IsInfinity()
    {
      n != null && n.curve == p.curve && n.compressed == p.compressed && n.WellFormed()
      && !n.IsInfinity() && n.IsNormalized() && p.RepresentsAffine(n.x.value.x, n.y.value.x)
    }

    /**
     * NormalizeAll: after CheckPoints, and on a projective curve, the z of
     * every non-null point that is not normalized is inverted with one
     * MontgomeryTrick, and each such point is replaced by its normalized
     * version; all other slots keep their point. A zero z raises
     * ArgumentException before anything is replaced.
     */
    method NormalizeAll(points: array?<ECPoint?>) returns (status: Status)
      requires Valid() && PrimeModulus()
      requires points != null ==> forall i :: 0 <= i < points.Length && points[i] != null && points[i].curve == this ==> points[i].WellFormed()
      modifies points
      ensures points == null ==> status == Raised(ArgumentNullException)
      ensures points != null && !AllOnCurve(old(points[..])) ==> status == Raised(ArgumentException)
      ensures points != null && status.Raised? ==> points[..] == old(points[..])
      ensures points != null && coord == CoordAffine && AllOnCurve(old(points[..])) ==> status.Done? && points[..] == old(points[..])
      ensures points != null && status.Done? ==> forall i :: 0 <= i < points.Length ==>
        var p := old(points[i]);
        if p != null && !p.IsNormalized() then NormalizedFrom(points[i], p) else points[i] == p
      ensures points != null && AllOnCurve(old(points[..])) ==>
        (status.Done? <==> forall i :: 0 <= i < points.Length ==>
           var p := old(points[i]); p != null && p.curve == this && p.WellFormed() && !p.IsNormalized() ==> p.zs[0].x != 0)
    {
      status := CheckPoints(points);
      if status.Raised? {
        return;
      }
      if coord == CoordAffine {
        return;
      }
      var zs, indices, count, slot := PendingZs(points);
      if count == 0 {
        return;
      }
      var inverted, inversions := MontgomeryTrick(zs, 0, count);
      if inverted.Raised? {
        return inverted;
      }
      ReplaceNormalized(points, zs, indices, count, slot);
    }

    /**
     * The first loop of NormalizeAll: the z of each non-null point that is
     * not normalized, in order, with its index. slot maps each such index
     * to its position.
     */
    method PendingZs(points: array<ECPoint?>)
      returns (zs: array<FpFieldElement>, indices: array<int>, count: nat, ghost slot: map<int, nat>)
      requires PrimeModulus() && coord != CoordAffine
      requires forall i :: 0 <= i < points.Length && points[i] != null ==> points[i].curve == this && points[i].WellFormed()
      ensures fresh(zs) && fresh(indices) && zs.Length == indices.Length == points.Length
      ensures count <= points.Length
      ensures forall i :: 0 <= i < points.Length ==>
        (i in slot <==> points[i] != null && !points[i].IsNormalized())
      ensures forall i :: i in slot ==> slot[i] < count && indices[slot[i]] == i
      ensures forall j :: 0 <= j < count ==> 0 <= indices[j] < points.Length && indices[j] in slot && slot[indices[j]] == j
      ensures forall j :: 0 <= j < count ==>
        var p := points[indices[j]];
        p != null && p.curve == this && p.WellFormed() && !p.IsNormalized() && !p.IsInfinity() && zs[j] == p.zs[0]
      ensures count > 0 ==> zs[0].ResidueMatches() && IsPrime(zs[0].q)
      ensures forall j :: 0 <= j < count ==> InFieldOf(zs[j], One())
    {
      zs := new FpFieldElement[points.Length](_ => One());
      indices := new int[points.Length];
      count := 0;
      slot := map[];
      var i := 0;
      while i < points.Length
        invariant 0 <= count <= i <= points.Length
        invariant forall k :: 0 <= k < i ==> (k in slot <==> points[k] != null && !points[k].IsNormalized())
        invariant forall k :: k in slot ==> 0 <= k < i && slot[k] < count && indices[slot[k]] == k
        invariant forall j :: 0 <= j < count ==> 0 <= indices[j] < i && indices[j] in slot && slot[indices[j]] == j
        invariant forall j :: 0 <= j < count ==>
          var p := points[indices[j]];
        p != null && p.curve == this && p.WellFormed() && !p.IsNormalized() && !p.IsInfinity() && zs[j] == p.zs[0]
        invariant forall j :: 0 <= j < count ==> InFieldOf(zs[j], One())
      {
        var p := points[i];
        if p != null && !p.IsNormalized() {
          zs[count] := p.zs[0];
          indices[count] := i;
          slot := slot[i := count];
          count := count + 1;
        }
        i := i + 1;
      }
    }

    /**
     * The second loop of NormalizeAll: each pending point is replaced by
     * NormalizeBy the inverse of its z.
     */
    method ReplaceNormalized(points: array<ECPoint?>, zs: array<FpFieldElement>, indices: array<int>,
                             count: nat, ghost slot: map<int, nat>)
      requires FieldOk() && coord != CoordAffine
      requires count <= zs.Length && count <= indices.Length
      requires forall i :: 0 <= i < points.Length ==>
        (i in slot <==> points[i] != null && !points[i].IsNormalized())
      requires forall i :: i in slot ==> slot[i] < count && indices[slot[i]] == i
      requires forall j :: 0 <= j < count ==> 0 <= indices[j] < points.Length && indices[j] in slot && slot[indices[j]] == j
      requires forall j :: 0 <= j < count ==>
        var p := points[indices[j]];
        && p != null && p.curve == this && p.WellFormed() && !p.IsInfinity()
        && InFieldOf(zs[j], One()) && (p.zs[0].x * zs[j].x) % q == 1
      modifies points
      ensures forall i :: 0 <= i < points.Length ==>
        var p := old(points[i]);
        if p != null && !p.IsNormalized() then NormalizedFrom(points[i], p) else points[i] == p
    {
      var j := 0;
      while j < count
        invariant 0 <= j <= count
        invariant forall i :: 0 <= i < points.Length ==>
          var p := old(points[i]);
          if i in slot && slot[i] < j then NormalizedFrom(points[i], p) else points[i] == p
      {
        var index := indices[j];
        var p := points[index];
        var n := p.NormalizeBy(zs[j]);
        points[index] := n;
        j := j + 1;
      }
    }
  }

  /**
   * NewFpCurve: FpCurve(q, a, b) with its failures: GetPrimeField rejects
   * q below 2, and a or b outside [0, q) fails the element constructor.
   */
  method NewFpCurve(registry: Registry, q: int, a: int, b: int) returns (res: Result<FpCurve>)
    requires registry.Valid()
    ensures res.Err? <==> q < 2 || !(0 <= a < q) || !(0 <= b < q)
    ensures res.Err? ==> res.error == ArgumentException
    ensures res.Ok? ==> fresh(res.value) && res.value.Valid() && res.value.q == q
    ensures res.Ok? ==> res.value.a.x == a && res.value.b.x == b && res.value.coord == FpDefaultCoords
  {
    var field := registry.GetPrimeField(q);
    if field.Err? {
      return Err(field.error);
    }
    if !(0 <= a < q) || !(0 <= b < q) {
      return Err(ArgumentException);
    }
    var curve := new FpCurve(field.value, q, a, b);
    return Ok(curve);
  }

  /** (x^2 + a) x + b, reduced step by step, is x^3 + a x + b mod q. */
  lemma HornerRhs(x: int, a: int, b: int, q: int)
    requires q > 0
    ensures ((((((x * x) % q + a) % q) * x) % q + b) % q) == (x * x * x + a * x + b) % q
  {
    ModAddBoth(x * x, a, q);
    ModOfSmall(a % q, q);
    ModAddMultiple(a, 0, q);
    var s := ((x * x) % q + a) % q;
    assert s == (x * x + a) % q by {
      ModAddBoth((x * x) % q, a, q);
      ModMulLeft(x * x, 1, q);
    }
    ModMulLeft(x * x + a, x, q);
    assert (x * x + a) * x == x * x * x + a * x;
    var t := (s * x) % q;
    ModAddBoth(t, b, q);
    ModAddBoth(x * x * x + a * x, b, q);
    ModOfSmall(t, q);
  }

  /** The other root: q - z squares to what z does. */
  lemma NegatedRoot(z: int, q: int)
    requires q > 0 && 0 <= z < q
    ensures ((q - z) * (q - z)) % q == (z * z) % q
  {
    calc {
      (q - z) * (q - z);
      q * (q - z) - z * (q - z);
      q * (q - z) - z * q + z * z;
      z * z + (q - 2 * z) * q;
    }
    ModAddMultiple(z * z, q - 2 * z, q);
  }

  /** For odd q, q - z and a non-zero z have different low bits. */
  lemma NegatedParity(z: int, q: int)
    requires q % 2 == 1 && 0 < z < q
    ensures (q - z) % 2 != z % 2
  {
  }
}
