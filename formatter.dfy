// The text formatting of the parameter generator: hex strings to bytes and
// back, the split hex listing used in generated source code, sets of
// indices and labelled values. What the formatter writes to its
// TextWriter is returned as a string; a line ends with NewLine.
module Formatter {
  import opened Wrappers
  import opened BigIntegers

  /** The output flavour: plain text, C++ source or C# source. */
  datatype Kind = Doc | Code | CodeCSharp

  const NewLine := "\n"

  // ---------------------------------------------------------------------
  // Hex digits

  /** A hex digit of either case. */
  predicate IsHexDigit(c: char)
  {
    '0' <= c <= '9' || 'a' <= c <= 'f' || 'A' <= c <= 'F'
  }

  /** The lower-case hex digit of n. */
  function HexDigit(n: int): (c: char)
    requires 0 <= n < 16
    ensures IsHexDigit(c) && !('A' <= c <= 'F')
  {
    if n < 10 then ('0' as int + n) as char else ('a' as int + n - 10) as char
  }

  /** The value of a hex digit of either case; None for any other character. */
  function HexDigitValue(c: char): (v: Option<int>)
    ensures v.Some? ==> 0 <= v.value < 16
    ensures v.Some? <==> IsHexDigit(c)
  {
    if '0' <= c <= '9' then Some(c as int - '0' as int)
    else if 'a' <= c <= 'f' then Some(c as int - 'a' as int + 10)
    else if 'A' <= c <= 'F' then Some(c as int - 'A' as int + 10)
    else None
  }

  /** Reading a digit back gives its value. */
  lemma HexDigitRoundTrip(n: int)
    requires 0 <= n < 16
    ensures HexDigitValue(HexDigit(n)) == Some(n)
  {
  }

  /** The white space that number parsing skips before and after the digits. */
  predicate IsWhiteSpace(c: char)
  {
    c == ' ' || '\t' <= c <= '\r'
  }

  /**
   * Byte.Parse of a two-character string with NumberStyles.HexNumber: two
   * hex digits, or one hex digit with white space before or after it, or
   * one hex digit followed by a '\0' (.NET number parsing accepts trailing
   * NUL characters after a number). Anything else does not parse.
   */
  function ParseHexByte(c0: char, c1: char): (b: Option<Byte>)
    ensures b.Some? <==>
      || (HexDigitValue(c0).Some? && HexDigitValue(c1).Some?)
      || (HexDigitValue(c0).Some? && (IsWhiteSpace(c1) || c1 == '\0'))
      || (IsWhiteSpace(c0) && HexDigitValue(c1).Some?)
    ensures HexDigitValue(c0).Some? && HexDigitValue(c1).Some? ==>
      b == Some(HexDigitValue(c0).value * 16 + HexDigitValue(c1).value)
    ensures b.Some? && HexDigitValue(c1).None? ==> b == Some(HexDigitValue(c0).value)
    ensures b.Some? && HexDigitValue(c0).None? ==> b == Some(HexDigitValue(c1).value)
  {
    match (HexDigitValue(c0), HexDigitValue(c1))
    case (Some(h), Some(l)) => Some(h * 16 + l)
    case (Some(h), None) => if IsWhiteSpace(c1) || c1 == '\0' then Some(h) else None
    case (None, Some(l)) => if IsWhiteSpace(c0) then Some(l) else None
    case (None, None) => None
  }

  // ---------------------------------------------------------------------
  // Bytes to hex

  /** The two lower-case hex digits of a byte ({0:x2}). */
  function HexPair(b: Byte): string
  {
    [HexDigit(b / 16), HexDigit(b % 16)]
  }

  /** The hex text of a byte string: the characters 2k and 2k + 1 are the digits of byte k. */
  function Hex(bytes: seq<Byte>): (s: string)
    ensures |s| == 2 * |bytes|
  {
    seq(2 * |bytes|, j requires 0 <= j < 2 * |bytes| =>
      if j % 2 == 0 then HexDigit(bytes[j / 2] / 16) else HexDigit(bytes[j / 2] % 16))
  }

  /** Appending a byte appends its two digits. */
  lemma HexSnoc(bytes: seq<Byte>, b: Byte)
    ensures Hex(bytes + [b]) == Hex(bytes) + HexPair(b)
  {
    var l, r := Hex(bytes + [b]), Hex(bytes) + HexPair(b);
    forall j | 0 <= j < |l|
      ensures l[j] == r[j]
    {
      if j < 2 * |bytes| {
        assert (bytes + [b])[j / 2] == bytes[j / 2];
      }
    }
  }

  /** BytesToHexString: each byte appended as two lower-case hex digits. */
  method BytesToHexString(bytes: seq<Byte>) returns (s: string)
    ensures s == Hex(bytes)
  {
    s := "";
    for i := 0 to |bytes|
      invariant s == Hex(bytes[..i])
    {
      HexSnoc(bytes[..i], bytes[i]);
      assert bytes[..i + 1] == bytes[..i] + [bytes[i]];
      s := s + HexPair(bytes[i]);
    }
    assert bytes[..|bytes|] == bytes;
  }

  // ---------------------------------------------------------------------
  // Hex to bytes

  /** An odd-length string gets a leading '0'. */
  function Padded(s: string): (p: string)
    ensures |p| % 2 == 0 && |p| == |s| + |s| % 2
  {
    if |s| % 2 != 0 then "0" + s else s
  }

  /** Every character pair of an even-length string parses. */
  predicate PairsParse(s: string)
    requires |s| % 2 == 0
  {
    forall k :: 0 <= k < |s| / 2 ==> ParseHexByte(s[2 * k], s[2 * k + 1]).Some?
  }

  /** The bytes of an even-length string whose pairs all parse. */
  function PairValues(s: string): (bytes: seq<Byte>)
    requires |s| % 2 == 0 && PairsParse(s)
    ensures |bytes| == |s| / 2
    ensures forall k :: 0 <= k < |bytes| ==> Some(bytes[k]) == ParseHexByte(s[2 * k], s[2 * k + 1])
  {
    seq(|s| / 2, k requires 0 <= k < |s| / 2 => ParseHexByte(s[2 * k], s[2 * k + 1]).value)
  }

  /**
   * HexStringToBytes: an odd-length string is read with a leading '0'; the
   * result has one byte per character pair, and a pair that does not parse
   * raises ArgumentException.
   */
  method HexStringToBytes(hexString: string) returns (res: Result<seq<Byte>>)
    ensures res.Ok? <==> PairsParse(Padded(hexString))
    ensures res.Err? ==> res.error == ArgumentException
    ensures res.Ok? ==> res.value == PairValues(Padded(hexString)) && |res.value| == (|hexString| + 1) / 2
  {
    var length := |hexString|;
    var s := Padded(hexString);
    var bytes := new Byte[|s| / 2];
    var i := 0;
    ghost var j := 0;
    while i < length
      invariant 0 <= j <= bytes.Length && i == 2 * j
      invariant forall k :: 0 <= k < j ==> Some(bytes[k]) == ParseHexByte(s[2 * k], s[2 * k + 1])
    {
      var b := ParseHexByte(s[i], s[i + 1]);
      if b.None? {
        assert !PairsParse(s) by {
          assert ParseHexByte(s[2 * j], s[2 * j + 1]).None?;
        }
        return Err(ArgumentException);
      }
      bytes[i / 2] := b.value;
      i := i + 2;
      j := j + 1;
    }
    assert j == bytes.Length;
    assert PairsParse(s);
    assert bytes[..] == PairValues(s);
    return Ok(bytes[..]);
  }

  /** HexStringToBytes undoes BytesToHexString. */
  lemma HexRoundTrip(bytes: seq<Byte>)
    ensures PairsParse(Padded(Hex(bytes)))
    ensures PairValues(Padded(Hex(bytes))) == bytes
  {
    var s := Hex(bytes);
    forall k | 0 <= k < |bytes|
      ensures ParseHexByte(s[2 * k], s[2 * k + 1]) == Some(bytes[k])
    {
      assert (2 * k) / 2 == k && (2 * k + 1) / 2 == k;
      HexDigitRoundTrip(bytes[k] / 16);
      HexDigitRoundTrip(bytes[k] % 16);
    }
    assert PairValues(s) == bytes;
  }

  // ---------------------------------------------------------------------
  // Split hex listing

  /** What follows byte i of n: a newline after the last, "," and a newline after every eighth, ", " otherwise. */
  function Separator(i: int, n: int): string
  {
    if i == n - 1 then NewLine else if (i + 1) % 8 == 0 then "," + NewLine else ", "
  }

  /** Byte i of the listing: "0x", its two hex characters and its separator. */
  function Piece(h: string, n: nat, i: nat): string
    requires 2 * i + 2 <= |h|
  {
    "0x" + h[2 * i..2 * i + 2] + Separator(i, n)
  }

  /** The listing of the first k of the n bytes of an even-length hex string. */
  function SplitListing(h: string, n: nat, k: nat): string
    requires k <= n && 2 * n <= |h|
  {
    if k == 0 then "" else SplitListing(h, n, k - 1) + Piece(h, n, k - 1)
  }

  /**
   * WriteSplitHexString: an odd-length input gets a leading '0'; each byte
   * is written as "0x" and its two characters, followed by its separator,
   * which a counter of the bytes modulo 8 chooses.
   */
  method WriteSplitHexString(hexString: string) returns (text: string)
    ensures text == SplitListing(Padded(hexString), |Padded(hexString)| / 2, |Padded(hexString)| / 2)
  {
    var counter := 0;
    var h := hexString;
    if |h| % 2 == 1 {
      h := "0" + h;
    }
    var n := |h| / 2;
    text := "";
    for i := 0 to n
      invariant text == SplitListing(h, n, i)
      invariant counter == i % 8
    {
      var sep;
      counter := (counter + 1) % 8;
      if i == n - 1 {
        sep := NewLine;
      } else if counter == 0 {
        sep := "," + NewLine;
      } else {
        sep := ", ";
      }
      assert sep == Separator(i, n);
      text := text + ("0x" + h[2 * i..2 * i + 2] + sep);
    }
  }

  /** The number of occurrences of c in s. */
  function Occurrences(s: string, c: char): nat
  {
    if s == [] then 0 else Occurrences(s[..|s| - 1], c) + if s[|s| - 1] == c then 1 else 0
  }

  /** Occurrences add up over a concatenation. */
  lemma {:induction false} OccurrencesAppend(s: string, t: string, c: char)
    ensures Occurrences(s + t, c) == Occurrences(s, c) + Occurrences(t, c)
    decreases |t|
  {
    if t != [] {
      var t' := t[..|t| - 1];
      assert (s + t)[..|s + t| - 1] == s + t';
      OccurrencesAppend(s, t', c);
    } else {
      assert s + t == s;
    }
  }

  /** A character that s does not hold occurs in it zero times. */
  lemma {:induction false} NotOccurring(s: string, c: char)
    requires c !in s
    ensures Occurrences(s, c) == 0
    decreases |s|
  {
    if s != [] {
      assert forall x :: x in s[..|s| - 1] ==> x in s;
      NotOccurring(s[..|s| - 1], c);
    }
  }

  /** The number of lines of s: its newline characters. */
  function Lines(s: string): nat
  {
    Occurrences(s, '\n')
  }

  /**
   * A listing of n > 0 bytes of a hex string without newlines has
   * ceil(n / 8) lines: one per eight bytes, the last one possibly shorter.
   */
  lemma ListingLines(h: string, n: nat)
    requires 0 < n && 2 * n <= |h| && '\n' !in h
    ensures Lines(SplitListing(h, n, n)) == (n + 7) / 8
  {
    PrefixLines(h, n, n - 1);
    PieceLines(h, n, n - 1);
    OccurrencesAppend(SplitListing(h, n, n - 1), Piece(h, n, n - 1), '\n');
  }

  /** Before the last byte, a newline ends every eighth byte. */
  lemma {:induction false} PrefixLines(h: string, n: nat, k: nat)
    requires k < n && 2 * n <= |h| && '\n' !in h
    ensures Lines(SplitListing(h, n, k)) == k / 8
  {
    if k > 0 {
      PrefixLines(h, n, k - 1);
      PieceLines(h, n, k - 1);
      OccurrencesAppend(SplitListing(h, n, k - 1), Piece(h, n, k - 1), '\n');
    }
  }

  /** Byte i adds a line exactly when it is the last or an eighth one. */
  lemma PieceLines(h: string, n: nat, i: nat)
    requires 2 * i + 2 <= |h| && '\n' !in h
    ensures Lines(Piece(h, n, i)) == if i == n - 1 || (i + 1) % 8 == 0 then 1 else 0
  {
    var pair, sep := h[2 * i..2 * i + 2], Separator(i, n);
    assert pair == [h[2 * i]] + [h[2 * i + 1]];
    assert h[2 * i] in h && h[2 * i + 1] in h;
    OccurrencesAppend([h[2 * i]], [h[2 * i + 1]], '\n');
    OccurrencesAppend("0x", pair, '\n');
    OccurrencesAppend("0x" + pair, sep, '\n');
    assert Occurrences("0x", '\n') == 0 by {
      assert "0x"[..1] == "0";
    }
    if i == n - 1 {
      assert sep == "" + ['\n'];
    } else if (i + 1) % 8 == 0 {
      assert sep == [','] + ['\n'];
    } else {
      assert sep == [','] + [' '];
    }
    assert sep[..|sep| - 1][..0] == [];
  }

  // ---------------------------------------------------------------------
  // Sets and labelled text

  /** The decimal digits of a natural number. */
  function Digits(n: nat): (s: string)
    ensures |s| > 0 && forall c :: c in s ==> '0' <= c <= '9'
  {
    if n < 10 then [('0' as int + n) as char] else Digits(n / 10) + [('0' as int + n % 10) as char]
  }

  /** Int32.ToString(): a minus sign for negative values, then the digits. */
  function Decimal(i: int): (s: string)
    ensures |s| > 0 && ',' !in s
  {
    if i < 0 then "-" + Digits(-i) else Digits(i)
  }

  /** The elements in decimal, separated by ",". */
  function Join(elements: seq<int>): string
  {
    if elements == [] then "" else if |elements| == 1 then Decimal(elements[0]) else Join(elements[..|elements| - 1]) + "," + Decimal(elements[|elements| - 1])
  }

  /** The number of commas in s. */
  function Commas(s: string): nat
  {
    Occurrences(s, ',')
  }

  /**
   * A non-empty joined sequence has one comma fewer than it has elements, and
   * neither starts nor ends with one.
   */
  lemma {:induction false} JoinSeparators(elements: seq<int>)
    requires elements != []
    ensures Commas(Join(elements)) == |elements| - 1
    ensures Join(elements)[0] != ',' && Join(elements)[|Join(elements)| - 1] != ','
  {
    var last := Decimal(elements[|elements| - 1]);
    assert last[|last| - 1] in last;
    NotOccurring(last, ',');
    if |elements| > 1 {
      var init := elements[..|elements| - 1];
      JoinSeparators(init);
      assert Join(elements) == Join(init) + "," + last;
      assert Join(elements)[0] == Join(init)[0];
      OccurrencesAppend(Join(init), ",", ',');
      OccurrencesAppend(Join(init) + ",", last, ',');
      assert ","[..0] == [];
    } else {
      assert last[0] in last;
    }
  }

  /**
   * The elements as PrintSet builds them: "," before every element but the first,
   * tracked by the first flag.
   */
  method JoinSet(elements: seq<int>) returns (sb: string)
    ensures sb == Join(elements)
  {
    sb := "";
    var first := true;
    for i := 0 to |elements|
      invariant first <==> i == 0
      invariant sb == Join(elements[..i])
    {
      assert elements[..i + 1][..i] == elements[..i];
      if !first {
        sb := sb + ",";
      }
      sb := sb + Decimal(elements[i]);
      first := false;
    }
    assert elements[..|elements|] == elements;
  }

  /** The "const type ns::label[] = {" line that opens a C++ array. */
  function CodeVariablePrefix(varType: string, varNamespace: string, varLabel: string): string
  {
    "const " + varType + " " + varNamespace + "::" + varLabel + "[] = {"
  }

  const CodeVariableSuffix := "};"

  /** PrintText(label, text): the line "label = text". */
  function PrintText(varLabel: string, text: string): (line: string)
    ensures |line| == |varLabel| + |text| + 4
    ensures line[..|varLabel|] == varLabel && line[|varLabel| + 3..|line| - 1] == text
    ensures Lines(line) == Lines(varLabel) + Lines(text) + 1
  {
    var line := varLabel + " = " + text + NewLine;
    assert line[..|varLabel|] == varLabel;
    assert line[|varLabel| + 3..|line| - 1] == text;
    OccurrencesAppend(varLabel, " = ", '\n');
    OccurrencesAppend(varLabel + " = ", text, '\n');
    OccurrencesAppend(varLabel + " = " + text, NewLine, '\n');
    NotOccurring(" = ", '\n');
    assert NewLine[..0] == [];
    line
  }

  /**
   * PrintSet: the joined elements as a C++ array for code output, as
   * "label = elements" for documents, and nothing for C# output.
   */
  method PrintSet(kind: Kind, varLabel: string, varType: string, varNamespace: string, elements: seq<int>) returns (text: string)
    ensures kind == Code ==> text == CodeVariablePrefix(varType, varNamespace, varLabel) + NewLine + Join(elements) + NewLine + CodeVariableSuffix + NewLine
    ensures kind == Doc ==> text == PrintText(varLabel, Join(elements))
    ensures kind == CodeCSharp ==> text == ""
  {
    var sb := JoinSet(elements);
    text := "";
    if kind == Code {
      text := CodeVariablePrefix(varType, varNamespace, varLabel) + NewLine + sb + NewLine + CodeVariableSuffix + NewLine;
    } else if kind == Doc {
      text := PrintText(varLabel, sb);
    }
  }
}
