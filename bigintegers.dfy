// Unsigned big-endian byte encodings of non-negative integers
// (BigIntegers.AsUnsignedByteArray and the BigInteger conversions it uses).
module BigIntegers {
  import opened Wrappers
  import opened Arith

  type Byte = b: int | 0 <= b < 256

  function Pow256(n: nat): (r: nat)
    ensures r >= 1
  {
    if n == 0 then 1 else 256 * Pow256(n - 1)
  }

  /** Value of a byte string read most significant byte first. */
  function BigEndianValue(s: seq<Byte>): nat
  {
    if s == [] then 0 else BigEndianValue(s[..|s| - 1]) * 256 + s[|s| - 1]
  }

  function Zeros(n: nat): (r: seq<Byte>)
    ensures |r| == n && forall i :: 0 <= i < n ==> r[i] == 0
  {
    if n == 0 then [] else Zeros(n - 1) + [0]
  }

  /**
   * The shortest big-endian encoding of n: no leading zero byte, and the
   * empty string for zero (BigInteger.ToByteArrayUnsigned).
   */
  function UnsignedEncoding(n: nat): (r: seq<Byte>)
    ensures BigEndianValue(r) == n
    ensures r == [] || r[0] != 0
    ensures n == 0 <==> r == []
  {
    if n == 0 then []
    else
      var hi := UnsignedEncoding(n / 256);
      assert (hi + [n % 256])[..|hi|] == hi;
      hi + [n % 256]
  }

  /** The one-argument overload is the shortest encoding itself. */
  function AsUnsignedByteArray(n: nat): (r: seq<Byte>)
    ensures BigEndianValue(r) == n && (r == [] || r[0] != 0)
  {
    UnsignedEncoding(n)
  }

  /**
   * The encoding of n in exactly `length` bytes, left-padded with zero bytes;
   * ArgumentException when n needs more than `length` bytes.
   */
  function AsUnsignedByteArrayOfLength(length: int, n: nat): (r: Result<seq<Byte>>)
    ensures r.Err? <==> |UnsignedEncoding(n)| > length
    ensures r.Err? ==> r.error == ArgumentException
    ensures r.Ok? ==> |r.value| == length && BigEndianValue(r.value) == n
  {
    var bytes := UnsignedEncoding(n);
    if |bytes| > length then Err(ArgumentException)
    else if |bytes| == length then Ok(bytes)
    else
      PaddingKeepsValue(length - |bytes|, bytes);
      Ok(Zeros(length - |bytes|) + bytes)
  }

  // ---------------------------------------------------------------------
  // Lemmas

  lemma {:induction false} PaddingKeepsValue(k: nat, s: seq<Byte>)
    ensures BigEndianValue(Zeros(k) + s) == BigEndianValue(s)
    decreases |s|
  {
    if s == [] {
      assert Zeros(k) + s == Zeros(k);
      ZerosValue(k);
    } else {
      var init := s[..|s| - 1];
      assert (Zeros(k) + s)[..|Zeros(k) + s| - 1] == Zeros(k) + init;
      PaddingKeepsValue(k, init);
    }
  }

  lemma {:induction false} ZerosValue(k: nat)
    ensures BigEndianValue(Zeros(k)) == 0
  {
    if k > 0 {
      assert Zeros(k)[..k - 1] == Zeros(k - 1);
      ZerosValue(k - 1);
    }
  }

  lemma {:induction false} ValueBound(s: seq<Byte>)
    ensures BigEndianValue(s) < Pow256(|s|)
  {
    if s != [] {
      ValueBound(s[..|s| - 1]);
    }
  }

  /** The shortest encoding fits in `length` bytes exactly when n < 256^length. */
  lemma {:induction false} EncodingFits(n: nat, length: nat)
    ensures |UnsignedEncoding(n)| <= length <==> n < Pow256(length)
  {
    if n > 0 && length > 0 {
      EncodingFits(n / 256, length - 1);
    } else if n > 0 {
      assert |UnsignedEncoding(n)| > 0;
    }
  }

  /** Two encodings of the same length and value are the same bytes. */
  lemma {:induction false} FixedLengthUnique(s: seq<Byte>, t: seq<Byte>)
    requires |s| == |t| && BigEndianValue(s) == BigEndianValue(t)
    ensures s == t
    decreases |s|
  {
    if s != [] {
      var s', t' := s[..|s| - 1], t[..|t| - 1];
      var v := BigEndianValue(s);
      DivModUnique(v, 256, BigEndianValue(s'), s[|s| - 1]);
      DivModUnique(v, 256, BigEndianValue(t'), t[|t| - 1]);
      FixedLengthUnique(s', t');
      assert s == s' + [s[|s| - 1]] && t == t' + [t[|t| - 1]];
    }
  }

  /** Decoding a fixed-length string and encoding it back gives the same bytes. */
  lemma EncodeDecodeRoundTrip(s: seq<Byte>)
    ensures AsUnsignedByteArrayOfLength(|s|, BigEndianValue(s)) == Ok(s)
  {
    ValueBound(s);
    EncodingFits(BigEndianValue(s), |s|);
    var r := AsUnsignedByteArrayOfLength(|s|, BigEndianValue(s));
    FixedLengthUnique(r.value, s);
  }

  /** An encoding that already has the requested length is returned as is. */
  lemma ExactLengthUnchanged(n: nat)
    ensures AsUnsignedByteArrayOfLength(|UnsignedEncoding(n)|, n) == Ok(AsUnsignedByteArray(n))
  {
  }
}
