// The hashing helpers of the U-Prove test-vector generator: the
// type-tagged, length-prefixed serialisation that feeds the hash, the
// reduction of a digest into Zq, attribute encoding, array concatenation,
// the multi-exponentiation and the presentation challenge.
//
// The hash algorithm is a parameter: a function from the byte stream fed to
// the hasher to its digest. Group elements are the elements of an abstract
// group, and where they are hashed, their byte encodings stand for them.
module ProtocolHelper {
  import opened Wrappers
  import opened Arith
  import opened BigIntegers
  import opened Groups

  /** A C# int. */
  type Int32 = i: int | -0x8000_0000 <= i < 0x8000_0000

  /**
   * An element of the object[] handed to Hash, by its run-time type. Array
   * stands for BigInteger[], GroupElement[] and byte[][], whose elements are
   * hashed by the same rules; Other is any type Hash does not know.
   */
  datatype HashInput =
    | Null
    | ByteValue(b: Byte)
    | Int(i: Int32)
    | BigInt(n: nat)
    | GroupElem(encoding: seq<Byte>)
    | Point(encoding: seq<Byte>)
    | Bytes(bytes: seq<Byte>)
    | Array(elements: seq<HashInput>)
    | IntArray(ints: seq<Int32>)
    | Other

  // ---------------------------------------------------------------------
  // The byte stream

  /**
   * HashSize: the four bytes (byte)(n >> 24), (byte)(n >> 16),
   * (byte)(n >> 8), (byte)n; an arithmetic shift is a floor division.
   */
  function HashSize(n: int): (r: seq<Byte>)
    ensures |r| == 4
  {
    [n / 0x100_0000 % 256, n / 0x1_0000 % 256, n / 0x100 % 256, n % 256]
  }

  /** HashLenghtAndBytes: the length as HashSize, then the bytes. */
  function LengthAndBytes(bytes: seq<Byte>): (r: seq<Byte>)
    ensures |r| == 4 + |bytes| && r[4..] == bytes
  {
    HashSize(|bytes|) + bytes
  }

  /** The bytes Hash feeds the hasher for the elements of an array, or its exception. */
  function Encoding(items: seq<HashInput>): Result<seq<Byte>>
    decreases items
  {
    if items == [] then Ok([])
    else
      match Encoding(items[..|items| - 1])
      case Err(e) => Err(e)
      case Ok(init) =>
        match ItemEncoding(items[|items| - 1])
        case Err(e) => Err(e)
        case Ok(last) => Ok(init + last)
  }

  /** The bytes for one element, by its type. */
  function ItemEncoding(x: HashInput): Result<seq<Byte>>
    decreases x
  {
    match x
    case Null => Ok([0, 0, 0, 0])
    case ByteValue(b) => Ok([b])
    case Int(i) => Ok(HashSize(i))
    case BigInt(n) => Ok(LengthAndBytes(UnsignedEncoding(n)))
    case GroupElem(e) => Ok(LengthAndBytes(e))
    case Point(e) => Ok(LengthAndBytes(e))
    case Bytes(b) => Ok(LengthAndBytes(b))
    case Array(es) =>
      (match Encoding(es)
       case Err(e) => Err(e)
       case Ok(body) => Ok(HashSize(|es|) + body))
    case IntArray(ints) => Ok(HashSize(|ints|) + IntsEncoding(ints))
    case Other => Err(ArgumentException)
  }

  /** The ints of an int[], each as HashSize. */
  function IntsEncoding(ints: seq<Int32>): (r: seq<Byte>)
    ensures |r| == 4 * |ints|
  {
    if ints == [] then [] else IntsEncoding(ints[..|ints| - 1]) + HashSize(ints[|ints| - 1])
  }

  /**
   * Hash: walks the array, feeding the hasher element by element and
   * descending into nested arrays; an element of unknown type raises
   * ArgumentException. The bytes fed are returned.
   */
  method Hash(items: seq<HashInput>) returns (res: Result<seq<Byte>>)
    ensures res == Encoding(items)
    decreases items
  {
    var stream: seq<Byte> := [];
    var buffer: seq<Byte> := [0, 0, 0, 0];
    for i := 0 to |items|
      invariant Encoding(items[..i]) == Ok(stream)
    {
      assert items[..i + 1][..i] == items[..i];
      var item := items[i];
      match item {
        case Null =>
          stream := stream + buffer;
        case ByteValue(b) =>
          stream := stream + [b];
        case Int(n) =>
          stream := stream + HashSize(n);
        case BigInt(n) =>
          stream := stream + (HashSize(|UnsignedEncoding(n)|) + UnsignedEncoding(n));
        case GroupElem(e) =>
          stream := stream + (HashSize(|e|) + e);
        case Point(e) =>
          stream := stream + (HashSize(|e|) + e);
        case Bytes(b) =>
          stream := stream + (HashSize(|b|) + b);
        case Array(es) =>
          var inner := Hash(es);
          if inner.Err? {
            EncodingAppend(items[..i + 1], items[i + 1..]);
            assert items[..i + 1] + items[i + 1..] == items;
            return Err(inner.error);
          }
          stream := stream + (HashSize(|es|) + inner.value);
        case IntArray(ints) =>
          var ints' := HashSize(|ints|);
          for j := 0 to |ints|
            invariant ints' == HashSize(|ints|) + IntsEncoding(ints[..j])
          {
            assert ints[..j + 1][..j] == ints[..j];
            ints' := ints' + HashSize(ints[j]);
          }
          assert ints[..|ints|] == ints;
          stream := stream + ints';
        case Other =>
          EncodingAppend(items[..i + 1], items[i + 1..]);
          assert items[..i + 1] + items[i + 1..] == items;
          return Err(ArgumentException);
      }
    }
    assert items[..|items|] == items;
    res := Ok(stream);
  }

  /**
   * The encoding of a concatenation is the concatenation of the encodings,
   * and it fails with the first exception of either part.
   */
  lemma {:induction false} EncodingAppend(a: seq<HashInput>, b: seq<HashInput>)
    ensures Encoding(a + b) == (match Encoding(a)
                               case Err(e) => Err(e)
                               case Ok(x) => (match Encoding(b)
                                              case Err(e) => Err(e)
                                              case Ok(y) => Ok(x + y)))
    decreases |b|
  {
    if b == [] {
      assert a + b == a;
      if Encoding(a).Ok? {
        assert Encoding(a).value + [] == Encoding(a).value;
      }
    } else {
      var b' := b[..|b| - 1];
      assert (a + b)[..|a + b| - 1] == a + b';
      assert (a + b)[|a + b| - 1] == b[|b| - 1];
      EncodingAppend(a, b');
      if Encoding(a).Ok? && Encoding(b').Ok? && ItemEncoding(b[|b| - 1]).Ok? {
        var x, y, z := Encoding(a).value, Encoding(b').value, ItemEncoding(b[|b| - 1]).value;
        assert (x + y) + z == x + (y + z);
      }
    }
  }

  /**
   * HashSize writes n modulo 2^32, most significant byte first: the
   * two's-complement form of a C# int, and the plain value of a length.
   */
  lemma HashSizeValue(n: int)
    ensures BigEndianValue(HashSize(n)) == n % 0x1_0000_0000
    ensures 0 <= n < 0x8000_0000 ==> BigEndianValue(HashSize(n)) == n
  {
    var v := n % 0x1_0000_0000;
    var t1 := v / 0x100;
    var t2 := t1 / 0x100;
    var t3 := t2 / 0x100;
    HashSizeDigits(n);
    var r := HashSize(n);
    var s1, s2, s3 := r[..1], r[..2], r[..3];
    assert s1[..0] == [] && s2[..1] == s1 && s3[..2] == s2;
    assert BigEndianValue(s1) == t3;
    assert BigEndianValue(s2) == t3 * 0x100 + t2 % 0x100 == t2;
    assert BigEndianValue(s3) == t2 * 0x100 + t1 % 0x100 == t1;
    if 0 <= n < 0x8000_0000 {
      ModOfSmall(n, 0x1_0000_0000);
    }
  }

  /** The bytes of HashSize(n) are the base-256 digits of n modulo 2^32. */
  lemma HashSizeDigits(n: int)
    ensures var v := n % 0x1_0000_0000;
      HashSize(n) == [v / 0x100 / 0x100 / 0x100, v / 0x100 / 0x100 % 0x100, v / 0x100 % 0x100, v % 0x100]
  {
    var v := n % 0x1_0000_0000;
    var k := n / 0x1_0000_0000;
    var t1 := v / 0x100;
    var t2 := t1 / 0x100;
    var t3 := t2 / 0x100;
    assert t3 < 0x100;
    DivModUnique(n, 0x100, k * 0x100_0000 + t1, v % 0x100);
    DivModUnique(n, 0x1_0000, k * 0x1_0000 + t2, (t1 % 0x100) * 0x100 + v % 0x100);
    DivModUnique(n, 0x100_0000, k * 0x100 + t3, ((t2 % 0x100) * 0x100 + t1 % 0x100) * 0x100 + v % 0x100);
    ModAddMultiple(v, k * 0x100_0000, 0x100);
    ModAddMultiple(t1, k * 0x1_0000, 0x100);
    ModAddMultiple(t2, k * 0x100, 0x100);
    ModAddMultiple(t3, k, 0x100);
  }

  // ---------------------------------------------------------------------
  // Which arrays hash

  /** An element Hash accepts: a known type, and an array of such elements. */
  predicate Hashable(x: HashInput)
    decreases x
  {
    match x
    case Other => false
    case Array(es) => forall i :: 0 <= i < |es| ==> Hashable(es[i])
    case _ => true
  }

  /**
   * Hash succeeds exactly on arrays whose elements, nested ones included,
   * are of known types; otherwise it raises ArgumentException.
   */
  lemma {:induction false} EncodingSucceeds(items: seq<HashInput>)
    ensures Encoding(items).Ok? <==> forall i :: 0 <= i < |items| ==> Hashable(items[i])
    ensures Encoding(items).Err? ==> Encoding(items).error == ArgumentException
    decreases items
  {
    if items != [] {
      var init, last := items[..|items| - 1], items[|items| - 1];
      EncodingSucceeds(init);
      ItemEncodingSucceeds(last);
      assert forall i :: 0 <= i < |init| ==> init[i] == items[i];
    }
  }

  /** The same for one element. */
  lemma {:induction false} ItemEncodingSucceeds(x: HashInput)
    ensures ItemEncoding(x).Ok? <==> Hashable(x)
    ensures ItemEncoding(x).Err? ==> ItemEncoding(x).error == ArgumentException
    decreases x
  {
    if x.Array? {
      EncodingSucceeds(x.elements);
    }
  }

  // ---------------------------------------------------------------------
  // Digests

  /**
   * HashToBytes: the digest of what Hash feeds the hasher. It fails, with
   * the ArgumentException of Hash, exactly when some element is not of a
   * known type.
   */
  function HashToBytes(hash: seq<Byte> -> seq<Byte>, items: seq<HashInput>): (r: Result<seq<Byte>>)
    ensures r.Ok? <==> forall i :: 0 <= i < |items| ==> Hashable(items[i])
    ensures r.Err? ==> r.error == ArgumentException
    ensures r.Ok? ==> Encoding(items).Ok? && r.value == hash(Encoding(items).value)
  {
    EncodingSucceeds(items);
    match Encoding(items)
    case Err(e) => Err(e)
    case Ok(stream) => Ok(hash(stream))
  }

  /**
   * HashToZq: the digest read as an unsigned big-endian integer, reduced
   * modulo q. Hashing comes first, so its error wins; then BigInteger.Mod
   * raises ArithmeticException for q <= 0.
   */
  function HashToZq(hash: seq<Byte> -> seq<Byte>, items: seq<HashInput>, q: int): (r: Result<nat>)
    ensures r.Err? <==> q <= 0 || Encoding(items).Err?
    ensures Encoding(items).Err? ==> r == Err(Encoding(items).error)
    ensures Encoding(items).Ok? && q <= 0 ==> r == Err(ArithmeticException)
    ensures r.Ok? ==> r.value < q && r.value == BigEndianValue(hash(Encoding(items).value)) % q
  {
    match HashToBytes(hash, items)
    case Err(e) => Err(e)
    case Ok(digest) =>
      if q <= 0 then Err(ArithmeticException)
      else Ok(BigEndianValue(digest) % q)
  }

  /**
   * ComputeXi: with encoding byte 1, 0 for a null or empty attribute and
   * otherwise its hash in Zq; with encoding byte 0, the attribute read as an
   * unsigned integer, which must be below q; any other encoding byte raises
   * ArgumentException.
   */
  function ComputeXi(hash: seq<Byte> -> seq<Byte>, q: int, encodingByte: Byte, attribute: Option<seq<Byte>>): (r: Result<nat>)
    ensures encodingByte == 1 && (attribute.None? || attribute.value == []) ==> r == Ok(0)
    ensures encodingByte == 1 && attribute.Some? && attribute.value != [] ==>
      r == HashToZq(hash, [Bytes(attribute.value)], q) && (r.Ok? <==> q > 0)
    ensures encodingByte == 0 ==>
      (r.Ok? <==> attribute.Some? && BigEndianValue(attribute.value) < q)
    ensures encodingByte == 0 && r.Ok? ==> r.value == BigEndianValue(attribute.value)
    ensures encodingByte == 0 && attribute.Some? && r.Err? ==> r.error == ArgumentException
    ensures encodingByte != 0 && encodingByte != 1 ==> r == Err(ArgumentException)
    ensures r.Ok? && (encodingByte == 0 || q > 0) ==> r.value < q
  {
    if encodingByte == 1 then
      if attribute.None? || |attribute.value| == 0 then Ok(0)
      else
        EncodingSucceeds([Bytes(attribute.value)]);
        HashToZq(hash, [Bytes(attribute.value)], q)
    else if encodingByte == 0 then
      if attribute.None? then Err(NullReferenceException)
      else
        var xi := BigEndianValue(attribute.value);
        if xi >= q then Err(ArgumentException) else Ok(xi)
    else Err(ArgumentException)
  }

  /**
   * A directly encoded attribute decodes to its value: the fixed-length
   * encoding of any x in [0, q) is accepted and gives back x.
   */
  lemma DirectEncodingRoundTrip(hash: seq<Byte> -> seq<Byte>, q: int, length: int, x: nat)
    requires x < q
    requires AsUnsignedByteArrayOfLength(length, x).Ok?
    ensures ComputeXi(hash, q, 0, Some(AsUnsignedByteArrayOfLength(length, x).value)) == Ok(x)
  {
  }

  // ---------------------------------------------------------------------
  // Array concatenation

  /** The elements of the arrays, in order. */
  function Flatten<T>(a: seq<seq<T>>): seq<T>
  {
    if a == [] then [] else Flatten(a[..|a| - 1]) + a[|a| - 1]
  }

  /** The sum of the lengths of the arrays. */
  function TotalLength<T>(a: seq<seq<T>>): nat
  {
    if a == [] then 0 else TotalLength(a[..|a| - 1]) + |a[|a| - 1]|
  }

  /** Flattening distributes over concatenation. */
  lemma {:induction false} FlattenAppend<T>(a: seq<seq<T>>, b: seq<seq<T>>)
    ensures Flatten(a + b) == Flatten(a) + Flatten(b)
    decreases |b|
  {
    if b == [] {
      assert a + b == a;
    } else {
      var b' := b[..|b| - 1];
      assert (a + b)[..|a + b| - 1] == a + b';
      FlattenAppend(a, b');
    }
  }

  /** The flattened length is the total length. */
  lemma {:induction false} FlattenLength<T>(a: seq<seq<T>>)
    ensures |Flatten(a)| == TotalLength(a)
  {
    if a != [] {
      FlattenLength(a[..|a| - 1]);
    }
  }

  /** Element j of array i sits after the elements of arrays 0 to i - 1. */
  lemma {:induction false} FlattenOrder<T>(a: seq<seq<T>>, i: int, j: int)
    requires 0 <= i < |a| && 0 <= j < |a[i]|
    ensures TotalLength(a[..i]) + j < |Flatten(a)|
    ensures Flatten(a)[TotalLength(a[..i]) + j] == a[i][j]
  {
    var init := a[..|a| - 1];
    FlattenLength(init);
    if i == |a| - 1 {
      assert a[..i] == init;
    } else {
      assert init[..i] == a[..i];
      FlattenOrder(init, i, j);
    }
  }

  /**
   * ConcatArrays: sums the lengths, allocates the result and copies each
   * array after the previous ones.
   */
  method ConcatArrays<T(0)>(a: seq<seq<T>>) returns (concat: array<T>)
    ensures fresh(concat)
    ensures concat.Length == TotalLength(a) && concat[..] == Flatten(a)
  {
    var size := 0;
    for i := 0 to |a|
      invariant size == TotalLength(a[..i])
    {
      assert a[..i + 1][..i] == a[..i];
      size := size + |a[i]|;
    }
    assert a[..|a|] == a;
    FlattenLength(a);
    concat := new T[size];
    var index := 0;
    for i := 0 to |a|
      invariant index == |Flatten(a[..i])| <= size
      invariant concat[..index] == Flatten(a[..i])
    {
      FlattenStep(a, i);
      forall j | 0 <= j < |a[i]| {
        concat[index + j] := a[i][j];
      }
      index := index + |a[i]|;
    }
    assert a[..|a|] == a;
  }

  /** Taking one more array appends it, and it stays within the whole. */
  lemma FlattenStep<T>(a: seq<seq<T>>, i: int)
    requires 0 <= i < |a|
    ensures Flatten(a[..i + 1]) == Flatten(a[..i]) + a[i]
    ensures |Flatten(a[..i + 1])| <= |Flatten(a)|
  {
    assert a[..i + 1][..i] == a[..i];
    FlattenAppend(a[..i + 1], a[i + 1..]);
    assert a[..i + 1] + a[i + 1..] == a;
  }

  /** Hashing concatenated arrays hashes each in turn. */
  lemma {:induction false} EncodingOfConcat(a: seq<seq<HashInput>>)
    ensures Encoding(Flatten(a)).Ok? <==> forall i :: 0 <= i < |a| ==> Encoding(a[i]).Ok?
    decreases |a|
  {
    if a != [] {
      var init := a[..|a| - 1];
      EncodingOfConcat(init);
      EncodingAppend(Flatten(init), a[|a| - 1]);
      assert forall i :: 0 <= i < |init| ==> init[i] == a[i];
    }
  }

  // ---------------------------------------------------------------------
  // Multi-exponentiation

  /**
   * The product of bases[i] ^ exponents[i] in multiplicative notation: in
   * the additive group, the sum of the multiples exponents[i] bases[i].
   */
  ghost function MultiExp<T(!new)>(g: Group<T>, bases: seq<T>, exponents: seq<int>): T
    requires |bases| == |exponents|
  {
    if bases == [] then g.zero
    else g.add(MultiExp(g, bases[..|bases| - 1], exponents[..|bases| - 1]), Mul(g, exponents[|bases| - 1], bases[|bases| - 1]))
  }

  /**
   * MultiModPow: ArgumentException for null or length-mismatched bases and
   * exponents; otherwise the identity multiplied by each power in turn.
   */
  method MultiModPow<T(!new)>(g: Group<T>, bases: Option<seq<T>>, exponents: Option<seq<int>>) returns (res: Result<T>)
    ensures res.Err? <==> bases.None? || exponents.None? || |bases.value| != |exponents.value|
    ensures res.Err? ==> res.error == ArgumentException
    ensures res.Ok? ==> res.value == MultiExp(g, bases.value, exponents.value)
  {
    if bases.None? || exponents.None? || |bases.value| != |exponents.value| {
      return Err(ArgumentException);
    }
    var b, e := bases.value, exponents.value;
    var ge := g.zero;
    for i := 0 to |b|
      invariant ge == MultiExp(g, b[..i], e[..i])
    {
      assert b[..i + 1][..i] == b[..i] && e[..i + 1][..i] == e[..i];
      ge := g.add(ge, Mul(g, e[i], b[i]));
    }
    assert b[..|b|] == b && e[..|e|] == e;
    res := Ok(ge);
  }

  /** A multi-exponentiation splits over concatenated bases and exponents. */
  lemma {:induction false} MultiExpAppend<T(!new)>(g: Group<T>, b1: seq<T>, e1: seq<int>, b2: seq<T>, e2: seq<int>)
    requires IsAbelian(g) && |b1| == |e1| && |b2| == |e2|
    ensures MultiExp(g, b1 + b2, e1 + e2) == g.add(MultiExp(g, b1, e1), MultiExp(g, b2, e2))
    decreases |b2|
  {
    if b2 == [] {
      assert b1 + b2 == b1 && e1 + e2 == e1;
      Ident(g, MultiExp(g, b1, e1));
    } else {
      var n := |b2| - 1;
      assert (b1 + b2)[..|b1 + b2| - 1] == b1 + b2[..n];
      assert (e1 + e2)[..|e1 + e2| - 1] == e1 + e2[..n];
      MultiExpAppend(g, b1, e1, b2[..n], e2[..n]);
      Assoc(g, MultiExp(g, b1, e1), MultiExp(g, b2[..n], e2[..n]), Mul(g, e2[n], b2[n]));
    }
  }

  /** A single base: the plain multiple. */
  lemma MultiExpSingle<T(!new)>(g: Group<T>, b: T, e: int)
    requires IsAbelian(g)
    ensures MultiExp(g, [b], [e]) == Mul(g, e, b)
  {
    assert [b][..0] == [] && [e][..0] == [];
    Ident(g, Mul(g, e, b));
  }

  // ---------------------------------------------------------------------
  // The presentation challenge

  /** A byte[] argument: null hashes as Null. */
  function OfBytes(b: Option<seq<Byte>>): HashInput
  {
    if b.None? then Null else Bytes(b.value)
  }

  /** A GroupElement argument, by its encoding. */
  function OfElement(e: Option<seq<Byte>>): HashInput
  {
    if e.None? then Null else GroupElem(e.value)
  }

  /** An int[] argument. */
  function OfInts(ints: Option<seq<Int32>>): HashInput
  {
    if ints.None? then Null else IntArray(ints.value)
  }

  /** A BigInteger[] argument. */
  function OfBigIntegers(xs: Option<seq<Option<nat>>>): HashInput
  {
    if xs.None? then Null
    else Array(seq(|xs.value|, i requires 0 <= i < |xs.value| => if xs.value[i].None? then Null else BigInt(xs.value[i].value)))
  }

  /** A GroupElement[] argument. */
  function OfElements(es: Option<seq<Option<seq<Byte>>>>): HashInput
  {
    if es.None? then Null else Array(seq(|es.value|, i requires 0 <= i < |es.value| => OfElement(es.value[i])))
  }

  /** A byte[][] argument. */
  function OfByteArrays(bs: Option<seq<Option<seq<Byte>>>>): HashInput
  {
    if bs.None? then Null else Array(seq(|bs.value|, i requires 0 <= i < |bs.value| => OfBytes(bs.value[i])))
  }

  /** The array GenerateChallenge hashes into cp, with pPrime in the index slot. */
  function ChallengeItems(UIDt: Option<seq<Byte>>, a: Option<seq<Byte>>, D: Option<seq<Int32>>,
                          x: Option<seq<Option<nat>>>, C: Option<seq<Int32>>,
                          tildeC: Option<seq<Option<seq<Byte>>>>, tildeA: Option<seq<Option<seq<Byte>>>>,
                          pPrime: Int32, ap: Option<seq<Byte>>, Ps: Option<seq<Byte>>, m: Option<seq<Byte>>): (items: seq<HashInput>)
    ensures forall i :: 0 <= i < |items| ==> Hashable(items[i])
  {
    [OfBytes(UIDt), OfBytes(a), OfInts(D), OfBigIntegers(x), OfInts(C), OfElements(tildeC),
     OfByteArrays(tildeA), Int(pPrime), OfBytes(ap), OfElement(Ps), OfBytes(m)]
  }

  /**
   * GenerateChallenge: cp is the hash of the presentation values, with the
   * pseudonym index p replaced by 0 when it is the device index d; c is the
   * hash of the pair (cp, md) reduced into Zq. Returns (c, cp).
   */
  function GenerateChallenge(d: Int32, hash: seq<Byte> -> seq<Byte>, q: int, UIDt: Option<seq<Byte>>,
                             a: Option<seq<Byte>>, p: Int32, ap: Option<seq<Byte>>, Ps: Option<seq<Byte>>,
                             m: Option<seq<Byte>>, md: Option<seq<Byte>>, D: Option<seq<Int32>>,
                             x: Option<seq<Option<nat>>>, C: Option<seq<Int32>>,
                             tildeC: Option<seq<Option<seq<Byte>>>>, tildeA: Option<seq<Option<seq<Byte>>>>): (r: Result<(nat, seq<Byte>)>)
    ensures r.Err? <==> q <= 0
    ensures r.Err? ==> r.error == ArithmeticException
    ensures r.Ok? ==> r.value.0 < q
  {
    var pPrime := if p == d then 0 else p;
    var items := ChallengeItems(UIDt, a, D, x, C, tildeC, tildeA, pPrime, ap, Ps, m);
    EncodingSucceeds(items);
    var cp := HashToBytes(hash, items).value;
    var pair := [Array([Bytes(cp), OfBytes(md)])];
    EncodingSucceeds(pair);
    match HashToZq(hash, pair, q)
    case Err(e) => Err(e)
    case Ok(c) => Ok((c, cp))
  }

  /**
   * When the pseudonym index is the device index, the challenge is the one
   * computed for index 0, whatever the device index.
   */
  lemma DeviceIndexHashedAsZero(d: Int32, d': Int32, hash: seq<Byte> -> seq<Byte>, q: int, UIDt: Option<seq<Byte>>,
                                a: Option<seq<Byte>>, ap: Option<seq<Byte>>, Ps: Option<seq<Byte>>,
                                m: Option<seq<Byte>>, md: Option<seq<Byte>>, D: Option<seq<Int32>>,
                                x: Option<seq<Option<nat>>>, C: Option<seq<Int32>>,
                                tildeC: Option<seq<Option<seq<Byte>>>>, tildeA: Option<seq<Option<seq<Byte>>>>)
    requires d' != 0
    ensures GenerateChallenge(d, hash, q, UIDt, a, d, ap, Ps, m, md, D, x, C, tildeC, tildeA)
         == GenerateChallenge(d', hash, q, UIDt, a, 0, ap, Ps, m, md, D, x, C, tildeC, tildeA)
  {
  }
}
