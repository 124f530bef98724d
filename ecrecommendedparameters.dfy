// The generator derivation of the U-Prove recommended parameters profile, a
// try-and-increment search modelled on ANSI X9.62-1998 section D.3.1: hash
// the profile string, the curve name, the generator index, a counter and an
// iteration number into a candidate x, and stop at the first candidate whose
// x^3 + a x + b is zero or has a square root.
//
// SHA-256 is a parameter: any function from the hashed text to 32 bytes.
// The text is hashed as its characters (the UTF-8 encoding of the decimal
// digits and of an ASCII profile string is that string itself).
module ECRecommendedParameters {
  import opened Wrappers
  import opened Arith
  import opened BigIntegers
  import opened ECFieldElement
  import opened ECCurve
  import Formatter

  /** The curves of the profile, in the order of their ordinals 0, 1, 2. */
  datatype CurveName = P256 | P384 | P521

  function Ordinal(n: CurveName): (i: nat)
    ensures i < 3
  {
    match n
    case P256 => 0
    case P384 => 1
    case P521 => 2
  }

  /** The NIST name of each curve. */
  function Name(n: CurveName): string
  {
    match n
    case P256 => "P-256"
    case P384 => "P-384"
    case P521 => "P-521"
  }

  /**
   * GetCurveName: the curve whose NIST name is s; any other string raises
   * ArgumentException.
   */
  function GetCurveName(s: string): (r: Result<CurveName>)
    ensures r.Ok? <==> s == Name(P256) || s == Name(P384) || s == Name(P521)
    ensures r.Ok? ==> Name(r.value) == s
    ensures r.Err? ==> r.error == ArgumentException
  {
    if s == "P-256" then Ok(P256)
    else if s == "P-384" then Ok(P384)
    else if s == "P-521" then Ok(P521)
    else Err(ArgumentException)
  }

  /** Every curve name is looked up to its own curve, and the names map to 0, 1 and 2. */
  lemma NameRoundTrip(n: CurveName)
    ensures GetCurveName(Name(n)) == Ok(n)
    ensures Ordinal(GetCurveName(Name(n)).value) == Ordinal(n)
  {
  }

  /** The three names are distinct, so the lookup is one-to-one. */
  lemma NamesDistinct(m: CurveName, n: CurveName)
    requires Name(m) == Name(n)
    ensures m == n
  {
    assert Name(m)[2..] == Name(n)[2..];
  }

  // ---------------------------------------------------------------------
  // Candidate x

  /** The byte size of a SHA-256 digest. */
  const HashByteSize: nat := 32

  /** A stand-in for SHA-256: every digest has HashByteSize bytes. */
  ghost predicate DigestSized(hash: string -> seq<Byte>)
  {
    forall s :: |hash(s)| == HashByteSize
  }

  /**
   * The number of digests per candidate: the byte length of q rounded
   * down, divided by the digest size rounded up.
   */
  function NumIterations(q: nat): (n: nat)
  {
    (BitLength(q) / 8 + HashByteSize - 1) / HashByteSize
  }

  /** NumIterations is the ceiling: the digests cover the bytes of q, with less than one digest to spare. */
  lemma NumIterationsCeiling(q: nat)
    ensures NumIterations(q) * HashByteSize >= BitLength(q) / 8
    ensures NumIterations(q) * HashByteSize < BitLength(q) / 8 + HashByteSize
  {
    var m := BitLength(q) / 8;
    var n := NumIterations(q);
    assert (m + 31) == n * 32 + (m + 31) % 32;
  }

  /** The text hashed for one iteration: input, then index, counter and iteration in decimal. */
  function HashInput(input: string, index: int, counter: nat, iteration: nat): (t: string)
    ensures |t| > |input| && t[..|input|] == input
  {
    input + Formatter.Decimal(index) + Formatter.Decimal(counter) + Formatter.Decimal(iteration)
  }

  /** The concatenation x_0 || ... || x_(n-1) of the first n digests for one counter. */
  function Digest(hash: string -> seq<Byte>, input: string, index: int, counter: nat, n: nat): (d: seq<Byte>)
    requires DigestSized(hash)
    ensures |d| == n * HashByteSize
  {
    if n == 0 then []
    else Digest(hash, input, index, counter, n - 1) + hash(HashInput(input, index, counter, n - 1))
  }

  /** Digest i sits at bytes [32 i, 32 i + 32) of the concatenation. */
  lemma {:induction false} DigestBlock(hash: string -> seq<Byte>, input: string, index: int, counter: nat, n: nat, i: nat)
    requires DigestSized(hash) && i < n
    ensures Digest(hash, input, index, counter, n)[i * HashByteSize..(i + 1) * HashByteSize]
         == hash(HashInput(input, index, counter, i))
    decreases n
  {
    var d := Digest(hash, input, index, counter, n - 1);
    var h := hash(HashInput(input, index, counter, n - 1));
    var lo, hi := i * HashByteSize, (i + 1) * HashByteSize;
    assert hi == lo + HashByteSize;
    if i < n - 1 {
      assert hi <= |d| == (n - 1) * HashByteSize;
      DigestBlock(hash, input, index, counter, n - 1, i);
      SliceOfLeft(d, h, lo, hi);
    } else {
      SliceOfRight(d, h, lo, hi);
    }
  }

  lemma SliceOfLeft(d: seq<Byte>, h: seq<Byte>, lo: nat, hi: nat)
    requires lo <= hi <= |d|
    ensures (d + h)[lo..hi] == d[lo..hi]
  {
  }

  lemma SliceOfRight(d: seq<Byte>, h: seq<Byte>, lo: nat, hi: nat)
    requires lo == |d| && hi == lo + |h|
    ensures (d + h)[lo..hi] == h
  {
  }

  /** The candidate x for a counter: the digests read big-endian, reduced modulo q. */
  function CandidateX(hash: string -> seq<Byte>, input: string, q: nat, index: int, counter: nat): (x: nat)
    requires DigestSized(hash) && q > 0
    ensures x < q
  {
    BigEndianValue(Digest(hash, input, index, counter, NumIterations(q))) % q
  }

  /**
   * GetX: fills a buffer of NumIterations(q) digests, one per iteration,
   * and returns the element whose value is its big-endian value modulo q.
   */
  method GetX(hash: string -> seq<Byte>, input: string, curve: FpCurve, index: int, counter: nat)
    returns (x: FpFieldElement)
    requires curve.FieldOk() && DigestSized(hash)
    ensures x.q == curve.q && x.r == curve.r && x.Valid()
    ensures x.x == CandidateX(hash, input, curve.q, index, counter)
  {
    var numIteration := NumIterations(curve.q);
    var digest := FillDigest(hash, input, index, counter, numIteration);
    var value := BigEndianValue(digest[..]) % curve.q;
    var e := curve.FromBigInteger(value);
    x := e.value;
  }

  /** The digest buffer of GetX, filled block by block: x_0 || ... || x_(n-1). */
  method FillDigest(hash: string -> seq<Byte>, input: string, index: int, counter: nat, numIteration: nat)
    returns (digest: array<Byte>)
    requires DigestSized(hash)
    ensures fresh(digest) && digest[..] == Digest(hash, input, index, counter, numIteration)
  {
    digest := new Byte[numIteration * 32];
    var iteration, offset := 0, 0;
    while iteration < numIteration
      invariant 0 <= iteration <= numIteration
      invariant digest.Length - offset == (numIteration - iteration) * 32
      invariant digest[..offset] == Digest(hash, input, index, counter, iteration)
    {
      var block := hash(HashInput(input, index, counter, iteration));
      CopyInto(block, digest, offset);
      iteration, offset := iteration + 1, offset + HashByteSize;
    }
    assert digest[..] == digest[..offset];
  }

  /** Array.Copy of a whole source: block lands at offset, and the bytes before it stay. */
  method CopyInto(block: seq<Byte>, digest: array<Byte>, offset: nat)
    requires offset + |block| <= digest.Length
    modifies digest
    ensures digest[..offset] == old(digest[..offset])
    ensures digest[offset..offset + |block|] == block
    ensures digest[..offset + |block|] == old(digest[..offset]) + block
  {
    forall j | 0 <= j < |block| {
      digest[offset + j] := block[j];
    }
    assert digest[..offset + |block|] == digest[..offset] + digest[offset..offset + |block|];
  }

  // ---------------------------------------------------------------------
  // Checking and finding points

  /**
   * CheckIsOnCurve: Y^2 against X (X^2 + a) + b; a point that does not
   * satisfy the curve equation raises CryptographicException. The point
   * at infinity has no coordinates to square, which raises
   * NullReferenceException.
   */
  method CheckIsOnCurve(curve: FpCurve, point: ECPoint) returns (s: Status)
    requires point.curve == curve && point.WellFormed()
    ensures point.IsInfinity() ==> s == Raised(NullReferenceException)
    ensures !point.IsInfinity() ==>
      (s.Done? <==> (point.y.value.x * point.y.value.x) % curve.q == curve.CurveRhs(point.x.value.x))
    ensures !point.IsInfinity() && s.Raised? ==> s.error == CryptographicException
  {
    if point.x.None? {
      return Raised(NullReferenceException);
    }
    var X := point.x.value;
    var Y := point.y.value;
    var lhs := Y.Square();
    var rhs := curve.Alpha(X);
    if !lhs.Equals(rhs) {
      return Raised(CryptographicException);
    }
    return Done;
  }

  /** alpha = x^3 + a x + b for the candidate of a counter. */
  function CandidateAlpha(hash: string -> seq<Byte>, input: string, curve: FpCurve, index: int, counter: nat): (alpha: int)
    requires DigestSized(hash) && curve.FieldOk()
    ensures 0 <= alpha < curve.q
  {
    curve.CurveRhs(CandidateX(hash, input, curve.q, index, counter))
  }

  /**
   * The q = 3 (mod 4) square root test: c = alpha^((q >> 2) + 1) is a
   * root of alpha.
   */
  predicate PowerRootExists(alpha: int, q: int)
    requires q > 0
  {
    var c := ModPow(alpha, q / 4 + 1, q);
    (c * c) % q == alpha
  }

  /**
   * For q = 3 (mod 4) zero passes the square root test with root zero, so
   * testing alpha = 0 before the square root only saves the exponentiation.
   */
  lemma ZeroHasPowerRoot(q: int)
    requires q > 0 && q % 4 == 3
    ensures PowerRootExists(0, q)
    ensures ModPow(0, q / 4 + 1, q) == 0
  {
    assert Pow(0, q / 4 + 1) == 0 * Pow(0, q / 4);
  }

  /**
   * A counter the search passed over: alpha is not zero, and for
   * q = 3 (mod 4) it fails the square root test.
   */
  ghost predicate Rejected(hash: string -> seq<Byte>, input: string, curve: FpCurve, index: int, counter: nat)
    requires DigestSized(hash) && curve.FieldOk()
  {
    var alpha := CandidateAlpha(hash, input, curve, index, counter);
    alpha != 0 && (curve.q % 4 == 3 ==> !PowerRootExists(alpha, curve.q))
  }

  /**
   * One turn of the search loop: x from GetX, alpha = x (x^2 + a) + b, and
   * then y = alpha when alpha is zero and the square root of alpha
   * otherwise; None when there is no root.
   */
  method TryCandidate(hash: string -> seq<Byte>, input: string, curve: FpCurve, index: int,
                      counter: nat, draws: seq<nat>)
    returns (outcome: Result<Option<FpFieldElement>>, x: FpFieldElement)
    requires curve.FieldOk() && DigestSized(hash)
    ensures x.q == curve.q && x.r == curve.r && x.Valid()
    ensures x.x == CandidateX(hash, input, curve.q, index, counter)
    ensures outcome.Err? ==> outcome.error == OutOfDraws || (outcome.error == NotImplementedException && curve.q % 2 == 0)
    ensures curve.q % 4 == 3 ==> outcome.Ok?
    ensures outcome == Ok(None) ==> Rejected(hash, input, curve, index, counter)
    ensures outcome.Ok? && outcome.value.Some? ==>
      var y := outcome.value.value;
      var alpha := CandidateAlpha(hash, input, curve, index, counter);
      && y.q == curve.q && y.r == curve.r && y.Valid()
      && (y.x * y.x) % curve.q == alpha
      && (alpha == 0 ==> y.x == 0)
      && (y.x != 0 ==> curve.q % 2 == 1)
  {
    x := GetX(hash, input, curve, index, counter);
    var z := curve.Alpha(x);
    if z.x == 0 {
      assert (z.x * z.x) % curve.q == z.x by {
        assert z.x * z.x == 0;
      }
      return Ok(Some(z)), x;
    }
    var root := z.Sqrt(draws);
    if root.Err? {
      return Err(root.error), x;
    }
    OddResidues(curve.q);
    match root.value
    case NoRoot =>
      outcome := Ok(None);
    case DrawsExhausted =>
      outcome := Err(OutOfDraws);
    case Found(r) =>
      outcome := Ok(Some(r));
  }

  /**
   * The root kept: y when it is below its negation, otherwise the
   * negation. Both square to the same value, and for odd q (or y = 0) the
   * one kept is below q / 2.
   */
  method SmallerRoot(y: FpFieldElement) returns (chosen: FpFieldElement)
    requires y.Valid()
    ensures chosen.q == y.q && chosen.r == y.r && chosen.Valid()
    ensures (chosen.x * chosen.x) % y.q == (y.x * y.x) % y.q
    ensures chosen.x == y.x || chosen.x == y.q - y.x
    ensures y.x == 0 || y.q % 2 == 1 ==> 2 * chosen.x < y.q
  {
    var yPrime := y.Negate();
    chosen := if y.x < yPrime.x then y else yPrime;
    NegatedRoot(y.x, y.q);
  }

  /** One more rejected counter extends the rejected prefix. */
  lemma RejectedPrefix(hash: string -> seq<Byte>, input: string, curve: FpCurve, index: int, counter: nat)
    requires DigestSized(hash) && curve.FieldOk()
    requires forall c :: 0 <= c < counter ==> Rejected(hash, input, curve, index, c)
    requires Rejected(hash, input, curve, index, counter)
    ensures forall c :: 0 <= c < counter + 1 ==> Rejected(hash, input, curve, index, c)
  {
  }

  /** The point (x, y') built from an accepted candidate, y' the smaller of y and q - y. */
  method RootPoint(curve: FpCurve, x: FpFieldElement, y: FpFieldElement) returns (point: ECPoint)
    requires curve.FieldOk() && x.q == curve.q && x.r == curve.r && x.Valid()
    requires y.q == curve.q && y.r == curve.r && y.Valid() && (y.x == 0 || curve.q % 2 == 1)
    ensures point.curve == curve && point.WellFormed() && !point.IsInfinity()
    ensures point.x == Some(x) && point.y.Some?
    ensures var Y := point.y.value.x;
      && (Y * Y) % curve.q == (y.x * y.x) % curve.q
      && 2 * Y < curve.q
      && (y.x == 0 ==> Y == 0)
  {
    var chosen := SmallerRoot(y);
    point := new ECPoint(curve, Some(x), Some(chosen), curve.InitialZCoords(), false);
  }

  /**
   * GetRandomPoint: tries counters 0, 1, 2, ... until alpha = x^3 + a x + b
   * is zero (then y = 0) or has a square root y, and returns (x, y) with
   * the smaller of y and q - y, and finalCounter, the number of counters
   * passed over. The search stops after limit counters, and the Lucas
   * square root takes its random candidates from draws; running out of
   * either is OutOfDraws.
   */
  method GetRandomPoint(hash: string -> seq<Byte>, input: string, curve: FpCurve, index: int,
                        draws: seq<nat>, limit: nat)
    returns (res: Result<ECPoint>, finalCounter: nat)
    requires curve.FieldOk() && DigestSized(hash)
    ensures res.Err? ==> res.error == OutOfDraws || (res.error == NotImplementedException && curve.q % 2 == 0)
    ensures curve.q % 4 == 3 && res.Err? ==>
      res.error == OutOfDraws && forall c :: 0 <= c < limit ==> Rejected(hash, input, curve, index, c)
    ensures res.Ok? ==> forall c :: 0 <= c < finalCounter ==> Rejected(hash, input, curve, index, c)
    ensures res.Ok? ==> finalCounter < limit
    ensures res.Ok? ==> res.value.curve == curve && res.value.WellFormed() && !res.value.IsInfinity()
    ensures res.Ok? ==> res.value.x.value.x == CandidateX(hash, input, curve.q, index, finalCounter)
    ensures res.Ok? ==>
      var Y := res.value.y.value.x;
      var alpha := CandidateAlpha(hash, input, curve, index, finalCounter);
      && (Y * Y) % curve.q == alpha
      && 2 * Y < curve.q
      && (alpha == 0 ==> Y == 0)
  {
    var counter := 0;
    while counter < limit
      invariant counter <= limit
      invariant forall c :: 0 <= c < counter ==> Rejected(hash, input, curve, index, c)
    {
      var y, x := TryCandidate(hash, input, curve, index, counter, draws);
      if y.Err? {
        return Err(y.error), 0;
      }
      if y.value.Some? {
        var point := RootPoint(curve, x, y.value.value);
        return Ok(point), counter;
      }
      RejectedPrefix(hash, input, curve, index, counter);
      counter := counter + 1;
    }
    return Err(OutOfDraws), limit;
  }
}
