// ECAlgorithms: batch inversion of field elements (MontgomeryTrick) and the
// joint-sparse-form loop of Shamir's trick (ImplShamirsTrick). The members
// that need a curve (ImportPoint, ShamirsTrick, SumOfTwoMultiplies,
// IsFpCurve) are in module CurveAlgorithms.
module ECAlgorithms {
  import opened Wrappers
  import opened Arith
  import opened Groups
  import opened ECFieldElement

  // ---------------------------------------------------------------------
  // MontgomeryTrick

  /** Two elements of the same field with the same reduction constant. */
  predicate SameField(a: FpFieldElement, b: FpFieldElement)
  {
    a.q == b.q && a.r == b.r
  }

  /** e is a reduced element of the field of f. */
  predicate InFieldOf(e: FpFieldElement, f: FpFieldElement)
  {
    SameField(e, f) && e.Valid()
  }

  /**
   * Inverts zs[off], ..., zs[off + len - 1] in place with a single field
   * inversion: the running products c[i] = zs[off] ... zs[off + i] are
   * formed, the last one is inverted, and the loop back down peels one
   * factor off the inverse at a time. If some entry is zero the product is
   * zero, Invert raises ArgumentException and nothing has been written.
   * Entries outside the slice are never touched.
   */
  method MontgomeryTrick(zs: array<FpFieldElement>, off: int, len: int)
    returns (status: Status, ghost inversions: nat)
    requires 0 <= off && 1 <= len && off + len <= zs.Length
    requires zs[off].ResidueMatches() && IsPrime(zs[off].q)
    requires forall i :: off <= i < off + len ==> InFieldOf(zs[i], zs[off])
    modifies zs
    ensures inversions == 1
    ensures status.Done? <==> forall i :: off <= i < off + len ==> old(zs[i]).x != 0
    ensures status.Raised? ==> status.error == ArgumentException && zs[..] == old(zs[..])
    ensures status.Done? ==> forall i :: off <= i < off + len ==>
      InFieldOf(zs[i], old(zs[off])) && (old(zs[i]).x * zs[i].x) % zs[i].q == 1
    ensures forall i :: 0 <= i < zs.Length && !(off <= i < off + len) ==> zs[i] == old(zs[i])
  {
    var c := RunningProducts(zs, off, len);
    var i := len - 1;
    var inv := c[i].Invert();
    inversions := 1;
    if inv.Err? {
      return Raised(inv.error), inversions;
    }
    PeelInverses(zs, off, len, c, inv.value);
    status := Done;
  }

  /** The first loop of MontgomeryTrick: c[i] = zs[off] ... zs[off + i] in the field. */
  method RunningProducts(zs: array<FpFieldElement>, off: int, len: int) returns (c: array<FpFieldElement>)
    requires 0 <= off && 1 <= len && off + len <= zs.Length
    requires zs[off].ResidueMatches() && IsPrime(zs[off].q)
    requires forall i :: off <= i < off + len ==> InFieldOf(zs[i], zs[off])
    ensures fresh(c) && c.Length == len && c[0] == zs[off]
    ensures forall k :: 0 <= k < len ==> InFieldOf(c[k], zs[off])
    ensures forall k :: 1 <= k < len ==> c[k].x == (c[k - 1].x * zs[off + k].x) % zs[off].q
    ensures c[len - 1].x != 0 <==> forall j :: off <= j < off + len ==> zs[j].x != 0
  {
    var z0 := zs[off];
    var q := z0.q;
    c := new FpFieldElement[len](_ => z0);
    c[0] := zs[off];

    var i := 1;
    while i < len
      invariant 1 <= i <= len
      invariant c[0] == z0
      invariant forall k :: 0 <= k < i ==> InFieldOf(c[k], z0)
      invariant forall k :: 1 <= k < i ==> c[k].x == (c[k - 1].x * zs[off + k].x) % q
      invariant c[i - 1].x != 0 <==> forall j :: off <= j < off + i ==> zs[j].x != 0
    {
      c[i] := c[i - 1].Multiply(zs[off + i]);
      ProductNonZero(c[i - 1].x, zs[off + i].x, q);
      i := i + 1;
    }
  }

  /**
   * The second loop of MontgomeryTrick: u, the inverse of the last running
   * product, is peeled one factor at a time, and each slot receives the
   * inverse of its old value.
   */
  method PeelInverses(zs: array<FpFieldElement>, off: int, len: int, c: array<FpFieldElement>, u0: FpFieldElement)
    requires 0 <= off && 1 <= len && off + len <= zs.Length && c.Length == len && c != zs
    requires zs[off].ResidueMatches() && zs[off].q >= 2 && c[0] == zs[off]
    requires forall i :: off <= i < off + len ==> InFieldOf(zs[i], zs[off])
    requires forall k :: 0 <= k < len ==> InFieldOf(c[k], zs[off])
    requires forall k :: 1 <= k < len ==> c[k].x == (c[k - 1].x * zs[off + k].x) % zs[off].q
    requires InFieldOf(u0, zs[off]) && (c[len - 1].x * u0.x) % zs[off].q == 1
    modifies zs
    ensures forall i :: off <= i < off + len ==>
      InFieldOf(zs[i], old(zs[off])) && (old(zs[i]).x * zs[i].x) % zs[i].q == 1
    ensures forall i :: 0 <= i < zs.Length && !(off <= i < off + len) ==> zs[i] == old(zs[i])
  {
    ghost var z := zs[..];
    var z0 := zs[off];
    var q := z0.q;
    var u := u0;
    var i := len - 1;
    while i > 0
      invariant 0 <= i <= len - 1
      invariant InFieldOf(u, z0) && (c[i].x * u.x) % q == 1
      invariant forall j :: off + i < j < off + len ==>
        InFieldOf(zs[j], z0) && (z[j].x * zs[j].x) % q == 1
      invariant forall j :: 0 <= j < zs.Length && !(off + i < j < off + len) ==> zs[j] == z[j]
    {
      var j := off + i;
      i := i - 1;
      var tmp := zs[j];
      zs[j] := c[i].Multiply(u);
      PeelStep(c[i].x, tmp.x, u.x, q);
      u := u.Multiply(tmp);
    }
    zs[off] := u;
  }

  /** Modulo a prime, a product of reduced values is zero only through a zero factor. */
  lemma ProductNonZero(a: int, b: int, q: int)
    requires IsPrime(q) && 0 <= a < q && 0 <= b < q
    ensures (a * b) % q != 0 <==> a != 0 && b != 0
  {
    if (a * b) % q == 0 {
      EuclidPrime(q, a, b);
      ModOfSmall(a, q);
      ModOfSmall(b, q);
    } else {
      assert a != 0 && b != 0;
    }
  }

  /**
   * One step of the second loop of MontgomeryTrick: if u inverts the
   * running product a b, then a u inverts b and u b inverts a.
   */
  lemma PeelStep(a: int, b: int, u: int, q: int)
    requires q > 0 && (((a * b) % q) * u) % q == 1
    ensures (b * ((a * u) % q)) % q == 1
    ensures (a * ((u * b) % q)) % q == 1
  {
    ModMulLeft(a * b, u, q);
    ModMulLeft(a * u, b, q);
    ModMulLeft(u * b, a, q);
    assert (a * u) * b == (a * b) * u == (u * b) * a;
    assert b * ((a * u) % q) == ((a * u) % q) * b;
    assert a * ((u * b) % q) == ((u * b) % q) * a;
  }

  // ---------------------------------------------------------------------
  // Joint sparse form digits

  /** The value of the low 32 bits of v as a two's-complement int. */
  function ToInt32(v: int): (r: int)
    ensures -0x8000_0000 <= r < 0x8000_0000 && (v - r) % 0x1_0000_0000 == 0
  {
    var r := (v + 0x8000_0000) % 0x1_0000_0000 - 0x8000_0000;
    assert v - r == ((v + 0x8000_0000) / 0x1_0000_0000) * 0x1_0000_0000;
    r
  }

  /** (jsfi << 24) >> 28: bits 4 to 7 of the byte, sign-extended. */
  function KDigit(jsfi: int): int
  {
    ToInt32(jsfi * 0x100_0000) / 0x1000_0000
  }

  /** (jsfi << 28) >> 28: bits 0 to 3 of the byte, sign-extended. */
  function LDigit(jsfi: int): int
  {
    ToInt32(jsfi * 0x1000_0000) / 0x1000_0000
  }

  /** A 4-bit two's-complement nibble as a signed value. */
  function SignExtend4(n: int): int
  {
    if n >= 8 then n - 16 else n
  }

  /** The shifts decode the high and the low nibble of a byte as signed digits. */
  lemma JsfNibbles(b: int)
    requires 0 <= b < 256
    ensures KDigit(b) == SignExtend4(b / 16)
    ensures LDigit(b) == SignExtend4(b % 16)
  {
    var h, l := b / 16, b % 16;
    var v := b * 0x100_0000;
    assert v == h * 0x1000_0000 + l * 0x100_0000;
    if h < 8 {
      DivModUnique(v + 0x8000_0000, 0x1_0000_0000, 0, v + 0x8000_0000);
      DivModUnique(v, 0x1000_0000, h, l * 0x100_0000);
    } else {
      DivModUnique(v + 0x8000_0000, 0x1_0000_0000, 1, v + 0x8000_0000 - 0x1_0000_0000);
      DivModUnique(v - 0x1_0000_0000, 0x1000_0000, h - 16, l * 0x100_0000);
    }
    var w := b * 0x1000_0000;
    assert w == h * 0x1_0000_0000 + l * 0x1000_0000;
    if l < 8 {
      DivModUnique(w + 0x8000_0000, 0x1_0000_0000, h, l * 0x1000_0000 + 0x8000_0000);
      DivModUnique(l * 0x1000_0000, 0x1000_0000, l, 0);
    } else {
      DivModUnique(w + 0x8000_0000, 0x1_0000_0000, h + 1, l * 0x1000_0000 + 0x8000_0000 - 0x1_0000_0000);
      DivModUnique((l - 16) * 0x1000_0000, 0x1000_0000, l - 16, 0);
    }
  }

  /**
   * The JSF byte for a digit pair, (byte)((dk << 4) | (dl & 0xF)), as
   * WNafUtilities.GenerateJsf packs it: dk in the high nibble and dl in the
   * low one, each as a 4-bit two's-complement value.
   */
  function JsfByte(dk: int, dl: int): (b: int)
    ensures 0 <= b < 256
  {
    (dk % 16) * 16 + dl % 16
  }

  /** Decoding a packed digit pair gives the digits back. */
  lemma JsfRoundTrip(dk: int, dl: int)
    requires -8 <= dk < 8 && -8 <= dl < 8
    ensures KDigit(JsfByte(dk, dl)) == dk && LDigit(JsfByte(dk, dl)) == dl
  {
    var b := JsfByte(dk, dl);
    DivModUnique(b, 16, dk % 16, dl % 16);
    JsfNibbles(b);
    if dk < 0 {
      DivModUnique(dk, 16, -1, dk + 16);
    } else {
      DivModUnique(dk, 16, 0, dk);
    }
    if dl < 0 {
      DivModUnique(dl, 16, -1, dl + 16);
    } else {
      DivModUnique(dl, 16, 0, dl);
    }
  }

  /** The table slot 4 + 3 kDigit + lDigit; digits in {-1, 0, 1} stay in [0, 8]. */
  function TableIndex(kDigit: int, lDigit: int): (index: int)
    ensures -1 <= kDigit <= 1 && -1 <= lDigit <= 1 ==> 0 <= index <= 8
  {
    4 + kDigit * 3 + lDigit
  }

  // ---------------------------------------------------------------------
  // Shamir's trick

  /**
   * The table of ImplShamirsTrick over points = {Q, P - Q, P, P + Q}: the
   * four negations in reverse order, infinity, then the four points.
   */
  function ShamirTable<T(!new)>(g: Group<T>, P: T, Q: T): (table: seq<T>)
    ensures |table| == 9
  {
    var PaddQ := g.add(P, Q);
    var PsubQ := Subtract(g, P, Q);
    var points := [Q, PsubQ, P, PaddQ];
    [g.neg(points[3]), g.neg(points[2]), g.neg(points[1]), g.neg(points[0]),
     g.zero, points[0], points[1], points[2], points[3]]
  }

  /** The table is antisymmetric about infinity in the middle. */
  lemma ShamirTableAntisymmetric<T(!new)>(g: Group<T>, P: T, Q: T)
    requires IsAbelian(g)
    ensures ShamirTable(g, P, Q)[4] == g.zero
    ensures forall i :: 0 <= i < 9 ==> ShamirTable(g, P, Q)[8 - i] == g.neg(ShamirTable(g, P, Q)[i])
  {
    var t := ShamirTable(g, P, Q);
    NegZero(g);
    NegNeg(g, t[5]);
    NegNeg(g, t[6]);
    NegNeg(g, t[7]);
    NegNeg(g, t[8]);
  }

  /** Slot 4 + 3k + l holds k P + l Q for digits in {-1, 0, 1}. */
  lemma ShamirEntry<T(!new)>(g: Group<T>, P: T, Q: T, dk: int, dl: int)
    requires IsAbelian(g) && -1 <= dk <= 1 && -1 <= dl <= 1
    ensures ShamirTable(g, P, Q)[TableIndex(dk, dl)] == g.add(Mul(g, dk, P), Mul(g, dl, Q))
  {
    MulOne(g, P);
    MulOne(g, Q);
    MulNeg(g, 1, P);
    MulNeg(g, 1, Q);
    Ident(g, Mul(g, dk, P));
    Ident(g, Mul(g, dl, Q));
    NegZero(g);
    NegAdd(g, P, Q);
    NegAdd(g, P, g.neg(Q));
    NegNeg(g, Q);
  }

  /** A JSF string as ImplShamirsTrick reads it: bytes with digits in {-1, 0, 1}. */
  predicate JsfValid(jsf: seq<int>)
  {
    forall i :: 0 <= i < |jsf| ==>
      0 <= jsf[i] < 256 && -1 <= KDigit(jsf[i]) <= 1 && -1 <= LDigit(jsf[i]) <= 1
  }

  /** The scalar the high nibbles spell, least significant byte first. */
  function KValue(jsf: seq<int>): int
  {
    if jsf == [] then 0 else KDigit(jsf[0]) + 2 * KValue(jsf[1..])
  }

  /** The scalar the low nibbles spell, least significant byte first. */
  function LValue(jsf: seq<int>): int
  {
    if jsf == [] then 0 else LDigit(jsf[0]) + 2 * LValue(jsf[1..])
  }

  /**
   * k P + l Q from the joint sparse form of (k, l) that
   * WNafUtilities.GenerateJsf(k, l) returns: starting from infinity, each
   * byte from the last down to the first doubles R and adds the table
   * entry for its digit pair.
   */
  method ImplShamirsTrick<T(!new)>(g: Group<T>, P: T, k: int, Q: T, l: int, jsf: seq<int>)
    returns (R: T)
    requires IsAbelian(g)
    requires JsfValid(jsf) && KValue(jsf) == k && LValue(jsf) == l
    ensures R == g.add(Mul(g, k, P), Mul(g, l, Q))
  {
    var table := ShamirTable(g, P, Q);
    R := g.zero;
    Ident(g, g.zero);
    var i := |jsf|;
    while i > 0
      invariant 0 <= i <= |jsf|
      invariant R == g.add(Mul(g, KValue(jsf[i..]), P), Mul(g, LValue(jsf[i..]), Q))
    {
      i := i - 1;
      R := ShamirStep(g, P, Q, table, R, jsf[i + 1..], jsf[i]);
      assert jsf[i..] == [jsf[i]] + jsf[i + 1..];
    }
  }

  /**
   * One pass of the ImplShamirsTrick loop: R, the pair of multiples for the
   * bytes above jsfi, is doubled and the table entry for the digits of
   * jsfi is added.
   */
  method ShamirStep<T(!new)>(g: Group<T>, P: T, Q: T, table: seq<T>, R: T, ghost rest: seq<int>, jsfi: int)
    returns (R': T)
    requires IsAbelian(g) && table == ShamirTable(g, P, Q)
    requires -1 <= KDigit(jsfi) <= 1 && -1 <= LDigit(jsfi) <= 1
    requires R == g.add(Mul(g, KValue(rest), P), Mul(g, LValue(rest), Q))
    ensures R' == g.add(Mul(g, KValue([jsfi] + rest), P), Mul(g, LValue([jsfi] + rest), Q))
  {
    var kDigit, lDigit := KDigit(jsfi), LDigit(jsfi);
    var index := TableIndex(kDigit, lDigit);
    ShamirEntry(g, P, Q, kDigit, lDigit);
    var r := table[index];
    ghost var k, l := KValue(rest), LValue(rest);
    ghost var k', l' := KValue([jsfi] + rest), LValue([jsfi] + rest);
    assert k' == 2 * k + kDigit && l' == 2 * l + lDigit by {
      assert ([jsfi] + rest)[1..] == rest;
    }
    TwicePlusPair(g, k, l, kDigit, lDigit, P, Q);
    assert Mul(g, 2 * k + kDigit, P) == Mul(g, k', P) && Mul(g, 2 * l + lDigit, Q) == Mul(g, l', Q);
    R' := TwicePlus(g, R, r);
  }
}
