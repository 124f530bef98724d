# U-Prove prime-field elliptic-curve engine and helpers, in Dafny

This project models the trimmed Bouncy Castle prime-field elliptic-curve
engine that the U-Prove C# SDK runs on, together with the U-Prove tooling
and protocol helpers built on it, and proves properties of the model.

- `ECFieldElement`: an element x of F_q with the curve's reduction constant r
  (`CalculateResidue`). The module covers construction, modular add,
  subtract, double, negate, multiply, square, invert and divide. It includes
  the three `ModReduce` strategies (plain `Mod`, pseudo-Mersenne folding for
  r > 0, and a Barrett estimate for r < 0). It also covers square roots (the
  q = 3 (mod 4) power branch, and the Euler check with the randomised
  Lucas-sequence search), the fixed-width big-endian encoding, equality and
  the zero and one tests.
- `Mod`: the binary extended-Euclid inversion over word arrays. Each `uint[]`
  buffer is a natural number below 2^(32 len), and its carry word is kept
  beside it.
- `ECCurve` (the `FpCurve` class with its `ECPoint` class):
  - point decoding (prefixes 0x00, 0x02/0x03, 0x04/0x06/0x07 of SEC 1,
    section 2.3.4) and point decompression;
  - point checks, and batch normalisation through the Montgomery trick;
  - the per-point table of named precomputations and the lazily created
    multiplier;
  - point import and the supported coordinate systems.
- `ECAlgorithms` and `CurveAlgorithms`: the Montgomery batch inversion, the
  decoding of joint-sparse-form (JSF) digits, the 9-entry Shamir table, and
  Shamir's trick with its point import.
- `AbstractECMultiplier` and `WNafL2RMultiplier`: the sign and zero dispatch,
  and the left-to-right windowed-NAF (non-adjacent form) loop with its
  first-window substitution. Points form an abstract commutative group
  (`Groups`) in which `TwicePlus(R, X) = 2R + X` and `TimesPow2(R, e) = 2^e R`.
- `FiniteFields` and `BigIntegers`: prime-field selection, and the
  fixed-length unsigned big-endian encoding.
- `Formatter`: the hex/byte conversions, the 8-bytes-per-line hex listing,
  and the set and text printers. Each printer returns the text it would
  write.
- `ProtocolHelper`: the type-tagged, length-prefixed hash-input encoding,
  hashing to Z_q, attribute encoding (`ComputeXi`), array concatenation, the
  multi-exponentiation argument checks, and the challenge's index rule.
- `ECRecommendedParameters`: the try-and-increment derivation of curve
  generators. The hash is a parameter, `GetX` concatenates digests, and
  `GetRandomPoint` searches counter by counter.
- `CollaborativeIssuance`:
  - attribute-index validation for the prover and the issuer;
  - the carry-over setters;
  - response lookup;
  - the flattening of the responses dictionary into parallel key and value
    arrays, and its reassembly on deserialisation.

Code that changes state in place is modelled as methods on classes and
arrays, with loop invariants. `NormalizeAll`, `MontgomeryTrick`,
`SetPreCompInfo`, `GetMultiplier`, `ConcatArrays`, `GetX`, `Validate`,
`CarryOverAttribute` and the serialisation hooks are examples. Expression-level
code is modelled as functions, and the properties are lemmas.

## Model

| member | source | states |
|---|---|---|
| `BigIntegers.UnsignedEncoding` | ThirdParty/BouncyCastle/bc-trimmed/BigIntegers.cs:50 | the minimal unsigned encoding: its big-endian value is n, it has no leading zero byte, and it is empty exactly for zero |
| `BigIntegers.AsUnsignedByteArray` | ThirdParty/BouncyCastle/bc-trimmed/BigIntegers.cs:47-51 | the one-argument overload gives bytes whose big-endian value is n, with no leading zero |
| `BigIntegers.AsUnsignedByteArrayOfLength` | ThirdParty/BouncyCastle/bc-trimmed/BigIntegers.cs:60-73 | ArgumentException exactly when the unsigned encoding is longer than `length`; otherwise exactly `length` bytes whose value is n |
| `BigIntegers.PaddingKeepsValue` | ThirdParty/BouncyCastle/bc-trimmed/BigIntegers.cs:70-72 | left-padding with zero bytes leaves the big-endian value unchanged |
| `BigIntegers.EncodingFits` | ThirdParty/BouncyCastle/bc-trimmed/BigIntegers.cs:64-65 | the encoding fits in `length` bytes iff n < 256^length |
| `BigIntegers.FixedLengthUnique` | ThirdParty/BouncyCastle/bc-trimmed/BigIntegers.cs:60-73 | two byte strings of the same length with the same value are equal |
| `BigIntegers.EncodeDecodeRoundTrip` | ThirdParty/BouncyCastle/bc-trimmed/BigIntegers.cs:60-73 | re-encoding a byte string's value at its own length gives that byte string back |
| `BigIntegers.ExactLengthUnchanged` | ThirdParty/BouncyCastle/bc-trimmed/BigIntegers.cs:67-68 | at exactly the encoding's length, the two-argument overload returns the one-argument result |
| `FiniteFields.Registry.constructor` | ThirdParty/BouncyCastle/bc-trimmed/FiniteFields.cs:23-24 | the shared GF_2 and GF_3 instances have characteristics 2 and 3 |
| `FiniteFields.Registry.GetPrimeField` | ThirdParty/BouncyCastle/bc-trimmed/FiniteFields.cs:48-68 | ArgumentException iff the characteristic is below 2; 2 and 3 give the shared instances; 4 and above give a fresh field with that characteristic |
| `ECFieldElement.CalculateResidue` | ThirdParty/BouncyCastle/bc-trimmed/ECFieldElement.cs:106-122 | a reduction constant is chosen only from 96 bits on, and is never zero |
| `ECFieldElement.ResidueMeaning` | ThirdParty/BouncyCastle/bc-trimmed/ECFieldElement.cs:106-122 | the reduction constant is none below 96 bits and never zero; a positive one is 2^L - p with p within 2^(L-64) of 2^L; a negative one is -(2^(2L) div p) with L a multiple of 8 |
| `ECFieldElement.PseudoMersenneResidue` | ThirdParty/BouncyCastle/bc-trimmed/ECFieldElement.cs:111-115 | an all-ones top word gives r = 2^L - p |
| `ECFieldElement.BarrettResidue` | ThirdParty/BouncyCastle/bc-trimmed/ECFieldElement.cs:116-119 | a non-positive constant is the negated Barrett quotient 2^(2L) div p, for L a multiple of 8 |
| `ECFieldElement.OtherResidue` | ThirdParty/BouncyCastle/bc-trimmed/ECFieldElement.cs:108-121 | without an all-ones top word, the constant is the Barrett one when L >= 96 and L is a multiple of 8, and none otherwise |
| `ECFieldElement.Create` | ThirdParty/BouncyCastle/bc-trimmed/ECFieldElement.cs:130-138 | an element is built iff the value is present and 0 <= x < q; otherwise ArgumentException |
| `ECFieldElement.FpFieldElement.ModAdd` | ThirdParty/BouncyCastle/bc-trimmed/ECFieldElement.cs:339-347 | congruent to x1 + x2; for reduced inputs it is (x1 + x2) mod q in [0, q) |
| `ECFieldElement.FpFieldElement.ModSubtract` | ThirdParty/BouncyCastle/bc-trimmed/ECFieldElement.cs:433-441 | congruent to x1 - x2; for reduced inputs it is (x1 - x2) mod q in [0, q) |
| `ECFieldElement.FpFieldElement.ModDouble` | ThirdParty/BouncyCastle/bc-trimmed/ECFieldElement.cs:349-357 | congruent to 2 x1; for a reduced input it is 2 x1 mod q in [0, q) |
| `ECFieldElement.FpFieldElement.ModReduce` | ThirdParty/BouncyCastle/bc-trimmed/ECFieldElement.cs:376-431 | for every input, including negative ones, the result is x0 mod q |
| `ECFieldElement.FpFieldElement.SubtractModulus` | ThirdParty/BouncyCastle/bc-trimmed/ECFieldElement.cs:416-419 | the final subtraction loop ends below q and keeps the residue |
| `ECFieldElement.FpFieldElement.FoldHighBits` | ThirdParty/BouncyCastle/bc-trimmed/ECFieldElement.cs:390-404 | pseudo-Mersenne folding keeps the residue and ends within one bit of q's length |
| `ECFieldElement.FpFieldElement.FoldOnce` | ThirdParty/BouncyCastle/bc-trimmed/ECFieldElement.cs:397-403 | one fold, 2^L = r (mod q), strictly shrinks the value and keeps the residue |
| `ECFieldElement.FpFieldElement.BarrettReduce` | ThirdParty/BouncyCastle/bc-trimmed/ECFieldElement.cs:405-415 | the Barrett estimate subtracts a multiple of q |
| `ECFieldElement.FpFieldElement.ModMult` | ThirdParty/BouncyCastle/bc-trimmed/ECFieldElement.cs:371-374 | (x1 x2) mod q |
| `ECFieldElement.FpFieldElement.ModMultSubtract` | ThirdParty/BouncyCastle/bc-trimmed/ECFieldElement.cs:311-330 | each ModReduce(a b - c) step of the Lucas ladder is (a b - c) mod q in [0, q) |
| `ECFieldElement.FpFieldElement.ModInverse` | ThirdParty/BouncyCastle/bc-trimmed/ECFieldElement.cs:359-369 | ArgumentException iff x1 is zero; otherwise z < q with x1 z = 1 (mod q) |
| `ECFieldElement.FpFieldElement.Add` | ThirdParty/BouncyCastle/bc-trimmed/ECFieldElement.cs:165-169 | a valid element (x + b) mod q of the same field; the constructor's ArgumentException only when b is not reduced |
| `ECFieldElement.FpFieldElement.AddOne` | ThirdParty/BouncyCastle/bc-trimmed/ECFieldElement.cs:171-179 | (x + 1) mod q, so q - 1 wraps to 0 |
| `ECFieldElement.FpFieldElement.Subtract` | ThirdParty/BouncyCastle/bc-trimmed/ECFieldElement.cs:181-185 | a valid element (x - b) mod q; always succeeds for reduced b |
| `ECFieldElement.FpFieldElement.Negate` | ThirdParty/BouncyCastle/bc-trimmed/ECFieldElement.cs:199-202 | x + (-x) = 0 (mod q), and zero is returned as itself |
| `ECFieldElement.FpFieldElement.Multiply` | ThirdParty/BouncyCastle/bc-trimmed/ECFieldElement.cs:187-191 | the element (x b) mod q |
| `ECFieldElement.FpFieldElement.Square` | ThirdParty/BouncyCastle/bc-trimmed/ECFieldElement.cs:204-207 | the element x^2 mod q |
| `ECFieldElement.FpFieldElement.Invert` | ThirdParty/BouncyCastle/bc-trimmed/ECFieldElement.cs:209-213 | ArgumentException iff x is zero; otherwise x times the result is 1 (mod q) |
| `ECFieldElement.FpFieldElement.Divide` | ThirdParty/BouncyCastle/bc-trimmed/ECFieldElement.cs:193-197 | ArgumentException iff b is zero; otherwise the result times b is x (mod q) |
| `ECFieldElement.FpFieldElement.Sqrt` | ThirdParty/BouncyCastle/bc-trimmed/ECFieldElement.cs:220-283 | NotImplementedException iff q is even; for q = 3 (mod 4), the power-branch outcome; for q = 1 (mod 4), the Lucas-branch outcome |
| `ECFieldElement.FpFieldElement.SqrtByPower` | ThirdParty/BouncyCastle/bc-trimmed/ECFieldElement.cs:226-234 | with c = x^(q/4+1) mod q, a root is returned iff c^2 = x, it is c, and it squares to x |
| `ECFieldElement.FpFieldElement.SqrtByLucas` | ThirdParty/BouncyCastle/bc-trimmed/ECFieldElement.cs:236-283 | no root when x^((q-1)/2) is not 1 (in particular for x = 0); any root returned squares to x |
| `ECFieldElement.FpFieldElement.LucasRoot` | ThirdParty/BouncyCastle/bc-trimmed/ECFieldElement.cs:250-282 | any root the randomised Lucas search returns squares to x |
| `ECFieldElement.FpFieldElement.LucasSequence` | ThirdParty/BouncyCastle/bc-trimmed/ECFieldElement.cs:285-337 | U and V are reduced modulo q |
| `ECFieldElement.ZeroPower` | ThirdParty/BouncyCastle/bc-trimmed/ECFieldElement.cs:240-241 | 0 to any positive power is not 1, so the Euler check rejects zero |
| `ECFieldElement.FpFieldElement.GetEncoded` | ThirdParty/BouncyCastle/bc-trimmed/ECFieldElement.cs:81-98 | exactly (FieldSize + 7) / 8 bytes whose big-endian value is x; ArgumentException only for an unreduced value |
| `ECFieldElement.FpFieldElement.Equals` | ThirdParty/BouncyCastle/bc-trimmed/ECFieldElement.cs:457-461 | equal iff q and x are equal (r is not compared) |
| `ECFieldElement.FpFieldElement.IsZero` | ThirdParty/BouncyCastle/bc-trimmed/ECFieldElement.cs:47-50 | holds iff x = 0 |
| `ECFieldElement.FpFieldElement.IsOne` | ThirdParty/BouncyCastle/bc-trimmed/ECFieldElement.cs:42-45 | bit length one holds iff x = 1 |
| `Mod.Invert` | ThirdParty/BouncyCastle/bc-trimmed/Mod.cs:24-88 | ArgumentException iff x is zero; one is returned unchanged; otherwise z < p with x z = 1 (mod p) |
| `Mod.InitialStep` | ThirdParty/BouncyCastle/bc-trimmed/Mod.cs:35-48 | u becomes odd and coprime to p, and a tracks u (a x = u mod p) with its carry in range |
| `Mod.Euclid` | ThirdParty/BouncyCastle/bc-trimmed/Mod.cs:50-87 | starting from v = p with coefficient 0, the subtract loop ends with z < p and x z = 1 (mod p) |
| `Mod.Round` | ThirdParty/BouncyCastle/bc-trimmed/Mod.cs:63-86 | one turn on the larger value: either the inverse is found, or the value shrinks, stays odd and coprime to the other, and keeps its coefficient tracking it |
| `Mod.SubtractAndStep` | ThirdParty/BouncyCastle/bc-trimmed/Mod.cs:63-86 | subtracting the smaller odd value and stripping its factors of two strictly shrinks it, keeps it odd and coprime to the other, and keeps the coefficient tracking it |
| `Mod.OddDifference` | ThirdParty/BouncyCastle/bc-trimmed/Mod.cs:65-66 | the difference of two odd values is even |
| `Mod.NatSub` | ThirdParty/BouncyCastle/bc-trimmed/Mod.cs:93 | the word-array subtraction wraps modulo the word span and returns a borrow of 0 or -1 |
| `Mod.NatAdd` | ThirdParty/BouncyCastle/bc-trimmed/Mod.cs:96 | the word-array addition wraps modulo the word span and returns a carry of 0 or 1 |
| `Mod.Subtract` | ThirdParty/BouncyCastle/bc-trimmed/Mod.cs:90-98 | adding p back exactly on a borrow gives (x - y) mod p |
| `Mod.InversionResult` | ThirdParty/BouncyCastle/bc-trimmed/Mod.cs:100-110 | adding p exactly when the carry is negative gives the coefficient reduced modulo p |
| `Mod.ResultIsInverse` | ThirdParty/BouncyCastle/bc-trimmed/Mod.cs:69-72 | once u reaches one, the result is the inverse of x |
| `Mod.FinalInverse` | ThirdParty/BouncyCastle/bc-trimmed/Mod.cs:100-110 | a coefficient A with A x = 1 (mod p), once reduced, is the inverse of x |
| `Mod.InversionStep` | ThirdParty/BouncyCastle/bc-trimmed/Mod.cs:112-148 | u = u' 2^count with u' odd (count >= 1 for even u), and the coefficient is halved modulo p count times with its carry in {0, -1} |
| `Mod.ShiftOutZeroes` | ThirdParty/BouncyCastle/bc-trimmed/Mod.cs:116-129 | whole zero words and then zero bits are removed: u = u' 2^count with u' odd |
| `Mod.HalveCoefficient` | ThirdParty/BouncyCastle/bc-trimmed/Mod.cs:131-147 | after count halvings, the coefficient times 2^count is congruent to the old one, stays within (-p, p), and its carry is in {0, -1} |
| `Mod.EvenCoefficient` | ThirdParty/BouncyCastle/bc-trimmed/Mod.cs:133-143 | adding or subtracting p makes an odd coefficient even, keeps it within (-p, p), and keeps the carry in {0, -1} |
| `Mod.GetTrailingZeroes` | ThirdParty/BouncyCastle/bc-trimmed/Mod.cs:150-161 | the count of trailing zero bits of a nonzero word: 2^count divides x and x / 2^count is odd |
| `ECCurve.SupportedSystems` | ThirdParty/BouncyCastle/bc-trimmed/ECCurve.cs:410-422 | the prime curve supports exactly the affine, homogeneous, Jacobian and modified-Jacobian systems, including its default |
| `ECCurve.LookupAfterStore` | ThirdParty/BouncyCastle/bc-trimmed/ECCurve.cs:109-110 | a stored entry is read back under its name, other names are unaffected, and a missing table yields none |
| `ECCurve.Store` | ThirdParty/BouncyCastle/bc-trimmed/ECCurve.cs:131-136 | storing creates the table when absent and holds the name afterwards |
| `ECCurve.ECPoint.constructor` | ThirdParty/BouncyCastle/bc-trimmed/ECCurve.cs:444-452 | a raw point with the given curve, coordinates and compression flag, and no precomputation table |
| `ECCurve.ECPoint.NormalizeBy` | ThirdParty/BouncyCastle/bc-trimmed/ECCurve.cs:202 | normalising by the inverse of Z gives a fresh normalised point on the same curve that represents the same affine point |
| `ECCurve.ECPoint.Normalize` | ThirdParty/BouncyCastle/bc-trimmed/ECCurve.cs:151 | a normalised point is returned as itself; otherwise an inverse of Z is computed (ArgumentException iff Z = 0) and the result represents the same affine point |
| `ECCurve.FpCurve.constructor` | ThirdParty/BouncyCastle/bc-trimmed/ECCurve.cs:372-384 | a valid curve with the given q, a and b, the modified-Jacobian default and no multiplier yet |
| `ECCurve.NewFpCurve` | ThirdParty/BouncyCastle/bc-trimmed/ECCurve.cs:367-384 | ArgumentException iff q < 2 or a or b is out of range; otherwise a valid curve with those parameters |
| `ECCurve.FpCurve.FromBigInteger` | ThirdParty/BouncyCastle/bc-trimmed/ECCurve.cs:439-442 | an element of this curve's field iff 0 <= v < q; otherwise ArgumentException |
| `ECCurve.FpCurve.InitialZCoords` | ThirdParty/BouncyCastle/bc-trimmed/ECCurve.cs:449-452 | there are no Z coordinates iff the system is affine; otherwise the first is one, and all are in the field |
| `ECCurve.FpCurve.CheckPoint` | ThirdParty/BouncyCastle/bc-trimmed/ECCurve.cs:238-242 | Done iff the point is non-null and on this curve; otherwise ArgumentException |
| `ECCurve.FpCurve.CheckPoints` | ThirdParty/BouncyCastle/bc-trimmed/ECCurve.cs:244-255 | ArgumentNullException for a null array; otherwise Done iff every non-null entry is on this curve, else ArgumentException |
| `ECCurve.FpCurve.GetPreCompInfo` | ThirdParty/BouncyCastle/bc-trimmed/ECCurve.cs:104-112 | ArgumentException iff the point is null or on another curve; otherwise the table entry under the name, and none when there is no table |
| `ECCurve.FpCurve.SetPreCompInfo` | ThirdParty/BouncyCastle/bc-trimmed/ECCurve.cs:126-138 | ArgumentException with the table unchanged for a bad point; otherwise the entry is stored and a later GetPreCompInfo returns it |
| `ECCurve.FpCurve.GetMultiplier` | ThirdParty/BouncyCastle/bc-trimmed/ECCurve.cs:287-297 | the first call creates a fresh multiplier, and later calls return the same instance |
| `ECCurve.FpCurve.Equals` | ThirdParty/BouncyCastle/bc-trimmed/ECCurve.cs:257-266 | null is never equal; equal curves have fields of the same characteristic; for well-formed curves, equal iff q, a and b are the same |
| `ECCurve.FpCurve.CreatePoint` | ThirdParty/BouncyCastle/bc-trimmed/ECCurve.cs:75-78 | a fresh uncompressed normalised point with coordinates X and Y iff both are in [0, q); otherwise ArgumentException |
| `ECCurve.FpCurve.CreatePointWithCompression` | ThirdParty/BouncyCastle/bc-trimmed/ECCurve.cs:80-84 | a fresh normalised point with coordinates X and Y and the requested compression flag iff both are in [0, q); otherwise ArgumentException |
| `ECCurve.HornerRhs` | ThirdParty/BouncyCastle/bc-trimmed/ECCurve.cs:479 | the Horner evaluation ((x^2 + a) x + b) mod q equals x^3 + a x + b mod q |
| `ECCurve.FpCurve.Alpha` | ThirdParty/BouncyCastle/bc-trimmed/ECCurve.cs:479 | alpha = x^3 + a x + b mod q, as a valid field element |
| `ECCurve.FpCurve.ChooseRoot` | ThirdParty/BouncyCastle/bc-trimmed/ECCurve.cs:490-493 | the chosen root has the same square, and for odd q its parity is yTilde unless it is zero |
| `ECCurve.NegatedRoot` | ThirdParty/BouncyCastle/bc-trimmed/ECCurve.cs:492 | q - z squares to the same value as z |
| `ECCurve.NegatedParity` | ThirdParty/BouncyCastle/bc-trimmed/ECCurve.cs:490-493 | for odd q and nonzero z, q - z has the other parity |
| `ECCurve.FpCurve.DecompressPoint` | ThirdParty/BouncyCastle/bc-trimmed/ECCurve.cs:476-496 | ArgumentException for X1 out of range and NotImplementedException for even q; for odd q the only errors are ArithmeticException (no root of alpha) and running out of draws; for q = 3 (mod 4) a point exactly when c = alpha^((q >> 2) + 1) squares to alpha, and ArithmeticException otherwise; for q = 1 (mod 4) ArithmeticException when alpha fails Euler's criterion; a point returned is compressed, at X1, with Y^2 = alpha and Y's parity equal to yTilde (or Y = 0) |
| `ECCurve.FpCurve.DecodePoint` | ThirdParty/BouncyCastle/bc-trimmed/ECCurve.cs:305-353 | the prefix rules: 0x00 gives infinity only at length 1; 0x02/0x03 need length E + 1 and then have exactly the decompression outcome above for the x they carry, with parity prefix & 1; 0x04/0x06/0x07 need length 2E + 1 and both halves in range; any other prefix gives FormatException; empty input gives IndexOutOfRangeException |
| `ECCurve.FpCurve.ImportPointBase` | ThirdParty/BouncyCastle/bc-trimmed/ECCurve.cs:140-155 | a point on this curve is returned as itself, infinity maps to this curve's infinity, and any other point is normalised and re-created with the same affine coordinates and the same compression flag |
| `ECCurve.FpCurve.ImportPoint` | ThirdParty/BouncyCastle/bc-trimmed/ECCurve.cs:454-474 | on a Jacobian curve, a point from a Jacobian-family curve keeps its raw X, Y and Z; otherwise the base import applies and the new point stands for the same affine point; an imported finite point keeps its compression flag |
| `ECCurve.FpCurve.NormalizeAll` | ThirdParty/BouncyCastle/bc-trimmed/ECCurve.cs:167-204 | ArgumentNullException for null and ArgumentException for a foreign point, with the array unchanged; nothing changes on affine curves; otherwise exactly the non-null unnormalised entries are replaced by normalised points for the same affine point |
| `ECCurve.FpCurve.PendingZs` | ThirdParty/BouncyCastle/bc-trimmed/ECCurve.cs:178-193 | collects, in order, the indices and Z coordinates of exactly the non-null unnormalised entries |
| `ECCurve.FpCurve.ReplaceNormalized` | ThirdParty/BouncyCastle/bc-trimmed/ECCurve.cs:197-203 | each collected entry is replaced by its normalisation, and every other slot is unchanged |
| `ECAlgorithms.MontgomeryTrick` | ThirdParty/BouncyCastle/bc-trimmed/ECAlgorithms.cs:88-117 | one inversion; when every entry in [off, off + len) is nonzero, each becomes the inverse of its old value; otherwise ArgumentException with the array unchanged; entries outside the range never change |
| `ECAlgorithms.RunningProducts` | ThirdParty/BouncyCastle/bc-trimmed/ECAlgorithms.cs:97-104 | c[k] is the product of the first k + 1 entries, and the last product is nonzero iff every entry is |
| `ECAlgorithms.PeelInverses` | ThirdParty/BouncyCastle/bc-trimmed/ECAlgorithms.cs:106-116 | from the inverse of the total product, each entry is replaced by its own inverse |
| `ECAlgorithms.ProductNonZero` | ThirdParty/BouncyCastle/bc-trimmed/ECAlgorithms.cs:103 | modulo a prime, a product is nonzero iff both factors are |
| `ECAlgorithms.PeelStep` | ThirdParty/BouncyCastle/bc-trimmed/ECAlgorithms.cs:111-113 | from the inverse of a b, c[i] u is the inverse of b and u b is the inverse of a |
| `ECAlgorithms.ToInt32` | ThirdParty/BouncyCastle/bc-trimmed/ECAlgorithms.cs:147 | a 32-bit signed value congruent to v modulo 2^32 |
| `ECAlgorithms.JsfNibbles` | ThirdParty/BouncyCastle/bc-trimmed/ECAlgorithms.cs:146-147 | the shift pairs sign-extend bits 4-7 into kDigit and bits 0-3 into lDigit |
| `ECAlgorithms.JsfByte` | ThirdParty/BouncyCastle/bc-trimmed/ECAlgorithms.cs:144 | a JSF entry is a byte |
| `ECAlgorithms.JsfRoundTrip` | ThirdParty/BouncyCastle/bc-trimmed/ECAlgorithms.cs:146-147 | packing two digits in [-8, 8) into a byte and decoding gives them back |
| `ECAlgorithms.TableIndex` | ThirdParty/BouncyCastle/bc-trimmed/ECAlgorithms.cs:149 | for digits in {-1, 0, 1}, the index 4 + 3k + l is in [0, 8] |
| `ECAlgorithms.ShamirTable` | ThirdParty/BouncyCastle/bc-trimmed/ECAlgorithms.cs:126-135 | the table has nine entries |
| `ECAlgorithms.ShamirTableAntisymmetric` | ThirdParty/BouncyCastle/bc-trimmed/ECAlgorithms.cs:132-135 | table[4] is the identity and table[8 - i] = -table[i] |
| `ECAlgorithms.ShamirEntry` | ThirdParty/BouncyCastle/bc-trimmed/ECAlgorithms.cs:129-135 | for digits k and l in {-1, 0, 1}, the entry at 4 + 3k + l is k P + l Q |
| `ECAlgorithms.ImplShamirsTrick` | ThirdParty/BouncyCastle/bc-trimmed/ECAlgorithms.cs:119-154 | starting from infinity with one TwicePlus per JSF digit from the most significant down, the result is k P + l Q |
| `ECAlgorithms.ShamirStep` | ThirdParty/BouncyCastle/bc-trimmed/ECAlgorithms.cs:142-151 | one TwicePlus of the selected entry extends the JSF value by one digit |
| `CurveAlgorithms.IsFpCurve` | ThirdParty/BouncyCastle/bc-trimmed/ECAlgorithms.cs:30-33 | a prime field has dimension one, so every prime curve qualifies |
| `CurveAlgorithms.ImportPoint` | ThirdParty/BouncyCastle/bc-trimmed/ECAlgorithms.cs:79-86 | ArgumentException when the curves are not Equal, and no other error; the same point for the same curve; otherwise a point on this curve (this curve's infinity for infinity), a finite one with the compression flag of the original and, outside the raw Jacobian-family copy, for the same affine point |
| `CurveAlgorithms.ShamirsTrick` | ThirdParty/BouncyCastle/bc-trimmed/ECAlgorithms.cs:71-77 | ArgumentException for unequal curves; otherwise k P + l Q' with Q' the import of Q: Q itself on the same curve, and otherwise, outside the raw Jacobian-family copy, a finite point for the same affine point as Q |
| `CurveAlgorithms.SumOfTwoMultiplies` | ThirdParty/BouncyCastle/bc-trimmed/ECAlgorithms.cs:35-51 | the same result, a P + b Q', with the same link between Q' and Q |
| `AbstractECMultiplier.Multiply` | ThirdParty/BouncyCastle/bc-trimmed/multiplier/AbstractECMultiplier.cs:22-30 | the identity for k = 0 or the identity point; otherwise k p, with negative k as the negation of |k| p |
| `WNafL2RMultiplier.Width` | ThirdParty/BouncyCastle/bc-trimmed/multiplier/WNafL2RMultiplier.cs:38 | the window width is clamped to [2, 16] and kept when already inside |
| `WNafL2RMultiplier.WordParts` | ThirdParty/BouncyCastle/bc-trimmed/multiplier/WNafL2RMultiplier.cs:57 | a word is digit 2^16 + zeroes, with zeroes < 2^16 and a signed 16-bit digit for a 32-bit word |
| `WNafL2RMultiplier.MultiplyPositive` | ThirdParty/BouncyCastle/bc-trimmed/multiplier/WNafL2RMultiplier.cs:35-101 | given a well-formed compact wNAF of k > 0 and a table of odd multiples, the result is k p |
| `WNafL2RMultiplier.FirstWindow` | ThirdParty/BouncyCastle/bc-trimmed/multiplier/WNafL2RMultiplier.cs:54-85 | the first window, with or without the substitution, yields digit 2^zeroes p |
| `WNafL2RMultiplier.NextWindow` | ThirdParty/BouncyCastle/bc-trimmed/multiplier/WNafL2RMultiplier.cs:87-98 | one TwicePlus and TimesPow2 extends the wNAF value by one word |
| `WNafL2RMultiplier.Substitution` | ThirdParty/BouncyCastle/bc-trimmed/multiplier/WNafL2RMultiplier.cs:63-72 | when 4 n < 2^width: i1 and i2 are odd, below 2^(width-1), sum to n 2^scale, and 2 <= scale <= width - 1 |
| `WNafL2RMultiplier.SubstitutionIndices` | ThirdParty/BouncyCastle/bc-trimmed/multiplier/WNafL2RMultiplier.cs:65-72 | the same facts for the source's own formulas i1 = 2^(w-1) - 1 and i2 = lowBits 2^scale + 1 |
| `WNafL2RMultiplier.SubstitutedEntries` | ThirdParty/BouncyCastle/bc-trimmed/multiplier/WNafL2RMultiplier.cs:60-73 | the two table entries are in range and add up to d 2^scale p, taking the sign from the table |
| `WNafL2RMultiplier.ShiftedWindow` | ThirdParty/BouncyCastle/bc-trimmed/multiplier/WNafL2RMultiplier.cs:75-84 | taking scale off the zero count keeps the window's weight: 2^e (d 2^scale p) = d 2^(scale+e) p |
| `Formatter.HexDigit` | UProveParams/Formatter.cs:258 | a lower-case hex digit |
| `Formatter.HexDigitValue` | UProveParams/Formatter.cs:243 | a value in [0, 16) exactly for hex digits of either case |
| `Formatter.HexDigitRoundTrip` | UProveParams/Formatter.cs:243-258 | reading back a written digit gives its value |
| `Formatter.ParseHexByte` | UProveParams/Formatter.cs:243 | a pair parses iff both are hex digits, or one is a digit beside white space, or a digit is followed by a NUL character; two digits give 16 h + l, and a single digit gives its value |
| `Formatter.Hex` | UProveParams/Formatter.cs:253-261 | two characters per byte |
| `Formatter.BytesToHexString` | UProveParams/Formatter.cs:253-261 | the loop builds Hex(bytes), two lower-case digits per byte |
| `Formatter.Padded` | UProveParams/Formatter.cs:231-236 | odd-length input gets one character in front, so the length becomes even |
| `Formatter.PairValues` | UProveParams/Formatter.cs:238-249 | byte k is the parse of characters 2k and 2k + 1 |
| `Formatter.HexStringToBytes` | UProveParams/Formatter.cs:229-251 | ArgumentException unless every pair of the padded string parses; otherwise ceil(len / 2) bytes, the pair values |
| `Formatter.HexRoundTrip` | UProveParams/Formatter.cs:229-261 | HexStringToBytes(BytesToHexString(b)) = b |
| `Formatter.WriteSplitHexString` | UProveParams/Formatter.cs:146-177 | the text is the listing of the padded string's bytes, each "0x" and two characters, with ", " inside a line, ",\n" after every eighth and "\n" after the last |
| `Formatter.ListingLines` | UProveParams/Formatter.cs:158-169 | a listing of n bytes has ceil(n / 8) lines |
| `Formatter.PieceLines` | UProveParams/Formatter.cs:159-174 | a byte ends a line exactly when it is the last or every eighth |
| `Formatter.JoinSeparators` | UProveParams/Formatter.cs:206-216 | the joined set has one comma fewer than elements, and no leading or trailing comma |
| `Formatter.JoinSet` | UProveParams/Formatter.cs:206-216 | the first-flag loop builds that comma-joined text |
| `Formatter.Digits` | UProveParams/Formatter.cs:214 | a non-empty string of decimal digits |
| `Formatter.Decimal` | UProveParams/Formatter.cs:214 | a non-empty decimal without commas |
| `Formatter.PrintText` | UProveParams/Formatter.cs:57-60 | the line is the label, " = ", the text and a newline |
| `Formatter.PrintSet` | UProveParams/Formatter.cs:204-227 | in code form, the prefix, the joined set and the suffix on their own lines; in document form, PrintText of the joined set; nothing for C# form |
| `ProtocolHelper.HashSize` | UProveTestVectors/ProtocolHelper.cs:44-52 | four bytes |
| `ProtocolHelper.HashSizeValue` | UProveTestVectors/ProtocolHelper.cs:44-52 | the four bytes are n modulo 2^32 in big-endian order, and n itself for non-negative 32-bit n |
| `ProtocolHelper.HashSizeDigits` | UProveTestVectors/ProtocolHelper.cs:47-50 | the four bytes are the shifts by 24, 16, 8 and 0 of n taken modulo 2^32 |
| `ProtocolHelper.LengthAndBytes` | UProveTestVectors/ProtocolHelper.cs:54-58 | a four-byte length followed by the bytes |
| `ProtocolHelper.IntsEncoding` | UProveTestVectors/ProtocolHelper.cs:103-105 | four bytes per integer |
| `ProtocolHelper.Hash` | UProveTestVectors/ProtocolHelper.cs:60-124 | the recursive walk writes exactly the encoding of the items |
| `ProtocolHelper.EncodingAppend` | UProveTestVectors/ProtocolHelper.cs:64-123 | encoding two item lists concatenated is the concatenation of their encodings |
| `ProtocolHelper.EncodingSucceeds` | UProveTestVectors/ProtocolHelper.cs:119-122 | encoding succeeds iff every item has a supported type; otherwise ArgumentException |
| `ProtocolHelper.ItemEncodingSucceeds` | UProveTestVectors/ProtocolHelper.cs:66-122 | one item encodes iff it and all its nested items have supported types |
| `ProtocolHelper.HashToBytes` | UProveTestVectors/ProtocolHelper.cs:30-37 | the digest of the encoded items; ArgumentException exactly when some item, nested ones included, is of an unsupported type |
| `ProtocolHelper.HashToZq` | UProveTestVectors/ProtocolHelper.cs:25-28 | the digest's unsigned value reduced modulo q; an error iff q <= 0 or the encoding fails, and a hashing error comes before the ArithmeticException of q <= 0 |
| `ProtocolHelper.ComputeXi` | UProveTestVectors/ProtocolHelper.cs:144-170 | byte 1: 0 for a null or empty attribute, otherwise the hash into Z_q; byte 0: the attribute's unsigned value, ArgumentException when it is >= q; any other byte: ArgumentException |
| `ProtocolHelper.DirectEncodingRoundTrip` | UProveTestVectors/ProtocolHelper.cs:157-165 | a value encoded at any fixed length is recovered by direct encoding |
| `ProtocolHelper.FlattenAppend` | UProveTestVectors/ProtocolHelper.cs:278-293 | flattening distributes over concatenation |
| `ProtocolHelper.FlattenLength` | UProveTestVectors/ProtocolHelper.cs:280-284 | the flattened length is the sum of the lengths |
| `ProtocolHelper.FlattenOrder` | UProveTestVectors/ProtocolHelper.cs:286-291 | element j of part i sits at the sum of the earlier lengths plus j |
| `ProtocolHelper.ConcatArrays` | UProveTestVectors/ProtocolHelper.cs:278-293 | a fresh array of the total length holding the parts in order |
| `ProtocolHelper.EncodingOfConcat` | UProveTestVectors/ProtocolHelper.cs:193 | the concatenation encodes iff each part does |
| `ProtocolHelper.MultiModPow` | UProveTestVectors/ProtocolHelper.cs:199-212 | ArgumentException iff either array is null or their lengths differ; otherwise the product of bases[i]^exponents[i] |
| `ProtocolHelper.MultiExpAppend` | UProveTestVectors/ProtocolHelper.cs:206-211 | the multi-exponentiation of concatenated lists is the product of the two parts |
| `ProtocolHelper.MultiExpSingle` | UProveTestVectors/ProtocolHelper.cs:209 | one base gives that base to its exponent |
| `ProtocolHelper.ChallengeItems` | UProveTestVectors/ProtocolHelper.cs:222 | every challenge item has a hashable type |
| `ProtocolHelper.GenerateChallenge` | UProveTestVectors/ProtocolHelper.cs:219-225 | ArithmeticException iff q <= 0; otherwise c < q |
| `ProtocolHelper.DeviceIndexHashedAsZero` | UProveTestVectors/ProtocolHelper.cs:221 | when p equals d, the challenge is the one computed with index 0 |
| `ECRecommendedParameters.Ordinal` | UProveParams/ECRecommendedParameters.cs:57 | the curve names number 0, 1 and 2 |
| `ECRecommendedParameters.GetCurveName` | UProveParams/ECRecommendedParameters.cs:60-78 | a name is returned iff the string is "P-256", "P-384" or "P-521", and it names that string; otherwise ArgumentException |
| `ECRecommendedParameters.NameRoundTrip` | UProveParams/ECRecommendedParameters.cs:60-78 | each curve name's string maps back to it, with its ordinal |
| `ECRecommendedParameters.NamesDistinct` | UProveParams/ECRecommendedParameters.cs:62-73 | distinct curves have distinct names |
| `ECRecommendedParameters.NumIterationsCeiling` | UProveParams/ECRecommendedParameters.cs:104 | numIteration is the ceiling of (bitLength / 8) / 32 |
| `ECRecommendedParameters.HashInput` | UProveParams/ECRecommendedParameters.cs:108 | the hash input extends the profile string with index, counter and iteration |
| `ECRecommendedParameters.Digest` | UProveParams/ECRecommendedParameters.cs:105-110 | n digests of 32 bytes each |
| `ECRecommendedParameters.DigestBlock` | UProveParams/ECRecommendedParameters.cs:109 | block i of the digest is the hash of iteration i's input |
| `ECRecommendedParameters.CandidateX` | UProveParams/ECRecommendedParameters.cs:111 | the candidate is below q |
| `ECRecommendedParameters.GetX` | UProveParams/ECRecommendedParameters.cs:102-113 | x is the element of this curve's field for the filled digest buffer's big-endian value modulo q, that is CandidateX |
| `ECRecommendedParameters.FillDigest` | UProveParams/ECRecommendedParameters.cs:105-110 | the loop fills a fresh buffer of numIteration blocks with the digests of iterations 0 to numIteration - 1, in order |
| `ECRecommendedParameters.CopyInto` | UProveParams/ECRecommendedParameters.cs:109 | the block lands at the offset, and earlier bytes are kept, so the buffer up to the block's end is the old prefix followed by the block |
| `ECRecommendedParameters.CheckIsOnCurve` | UProveParams/ECRecommendedParameters.cs:92-100 | Done iff Y^2 = X^3 + a X + b (mod q); otherwise CryptographicException; NullReferenceException for infinity |
| `ECRecommendedParameters.CandidateAlpha` | UProveParams/ECRecommendedParameters.cs:122 | alpha is reduced modulo q |
| `ECRecommendedParameters.ZeroHasPowerRoot` | UProveParams/ECRecommendedParameters.cs:123-129 | for q = 3 (mod 4), zero has the power-branch root 0, so the zero test agrees with Sqrt |
| `ECRecommendedParameters.TryCandidate` | UProveParams/ECRecommendedParameters.cs:121-131 | a root y with y^2 = alpha (and y = 0 when alpha = 0), or a rejection, or a Sqrt error |
| `ECRecommendedParameters.SmallerRoot` | UProveParams/ECRecommendedParameters.cs:138-139 | the smaller of y and q - y, which squares to the same value and is below q / 2 |
| `ECRecommendedParameters.GetRandomPoint` | UProveParams/ECRecommendedParameters.cs:115-140 | every counter before finalCounter was rejected; the point has x = CandidateX(finalCounter) and Y^2 = alpha, with Y the smaller root, 0 when alpha = 0 |
| `CollaborativeIssuance.ValidateOutcome` | UProveCrypto/CollaborativeIssuance.cs:58-120 | null checks fail: ArgumentException with the lists unchanged; otherwise null lists become empty, and Done iff C, U and K are disjoint with union size equal to the attribute count |
| `CollaborativeIssuance.ValidateIdempotent` | UProveCrypto/CollaborativeIssuance.cs:83-99 | validating again gives the same outcome and lists |
| `CollaborativeIssuance.PartitionSizes` | UProveCrypto/CollaborativeIssuance.cs:101-119 | a passing partition has list sizes (as sets) summing to the attribute count |
| `CollaborativeIssuance.OutOfRangeIndicesPass` | UProveCrypto/CollaborativeIssuance.cs:114-119 | as written, U = [7] with one attribute passes although index 1 is in no list |
| `CollaborativeIssuance.AttributeIndices` | UProveCrypto/CollaborativeIssuance.cs:114-119 | exactly the indices 1 to count |
| `CollaborativeIssuance.AttributeIndicesSize` | UProveCrypto/CollaborativeIssuance.cs:114-119 | that set has count elements |
| `CollaborativeIssuance.CoversAttributesPartition` | UProveCrypto/CollaborativeIssuance.cs:101-119 | disjoint lists covering exactly 1 to count pass the check, and each attribute is in exactly one list |
| `CollaborativeIssuance.PreIssuanceParameters.constructor` | UProveCrypto/CollaborativeIssuance.cs:33-53 | the shared parameters start with the issuer parameters set, every list and attribute unset, and no carry-over attributes |
| `CollaborativeIssuance.PreIssuanceParameters.Validate` | UProveCrypto/CollaborativeIssuance.cs:58-120 | the status and the new lists are ValidateOutcome of the old state, and no other field changes |
| `CollaborativeIssuance.ProverPreIssuanceParameters.constructor` | UProveCrypto/CollaborativeIssuance.cs:143-146 | the issuer parameters are set and every list is unset |
| `CollaborativeIssuance.ProverPreIssuanceParameters.Validate` | UProveCrypto/CollaborativeIssuance.cs:153-161 | the base outcome, plus ArgumentException when C is non-empty and there is no key and token |
| `CollaborativeIssuance.ProverPreIssuanceParameters.CarryOverAttribute` | UProveCrypto/CollaborativeIssuance.cs:172-192 | ArgumentNullException for a null argument; ArgumentException for unequal index lengths or a token from other issuer parameters, with nothing changed; otherwise C, Corig, the source and the carry-over flag are set |
| `CollaborativeIssuance.IssuerPreIssuanceParameters.constructor` | UProveCrypto/CollaborativeIssuance.cs:209-213 | the issuer parameters are set, every list is unset and the token is not device protected |
| `CollaborativeIssuance.IssuerPreIssuanceParameters.Validate` | UProveCrypto/CollaborativeIssuance.cs:220-231 | the base outcome, plus every index in K must have a known attribute |
| `CollaborativeIssuance.IssuerPreIssuanceParameters.CarryOverAttribute` | UProveCrypto/CollaborativeIssuance.cs:242-261 | the same null, length and UidP checks; on success C, Corig, the source IP, the token and the flag are set |
| `CollaborativeIssuance.PreIssuanceProof.constructor` | UProveCrypto/CollaborativeIssuance.cs:286-296 | the proof holds the given values and no serialised text |
| `CollaborativeIssuance.PreIssuanceProof.GetResponse` | UProveCrypto/CollaborativeIssuance.cs:298-307 | the stored response for a known name; otherwise InvalidUProveArtifactException |
| `CollaborativeIssuance.DistinctSize` | UProveCrypto/CollaborativeIssuance.cs:646-647 | a repetition-free key list has as many names as entries |
| `CollaborativeIssuance.EnumerationSize` | UProveCrypto/CollaborativeIssuance.cs:646-656 | an enumeration of the dictionary has its count of entries |
| `CollaborativeIssuance.EncodedValues` | UProveCrypto/CollaborativeIssuance.cs:650-655 | value i is the encoding of the response under key i |
| `CollaborativeIssuance.FlattenResponses` | UProveCrypto/CollaborativeIssuance.cs:646-655 | the loop fills parallel arrays: the keys in enumeration order and the encoded values, both of the dictionary's size |
| `CollaborativeIssuance.PreIssuanceProof.OnSerializing` | UProveCrypto/CollaborativeIssuance.cs:638-656 | the four texts are set from the fields, and the parallel key and value arrays are written |
| `CollaborativeIssuance.PreIssuanceProof.OnDeserialized` | UProveCrypto/CollaborativeIssuance.cs:659-694 | UProveSerializationException iff a text or array is missing; otherwise c is decoded; the started flag is set either way |
| `CollaborativeIssuance.PreIssuanceProof.FinishDeserialization` | UProveCrypto/CollaborativeIssuance.cs:696-729 | SerializationException unless started; a missing text is an error and a missing key or value array a NullReferenceException, with the responses unchanged; the points are decoded; UProveSerializationException for unequal array lengths; otherwise the responses are rebuilt, with ArgumentException at the first repeated key; the flag is cleared |
| `CollaborativeIssuance.PreIssuanceProof.AddResponses` | UProveCrypto/CollaborativeIssuance.cs:711-715 | Done iff the keys are distinct; the dictionary holds the pairs before the first repeat, and ArgumentException otherwise |
| `CollaborativeIssuance.ResponsesKeys` | UProveCrypto/CollaborativeIssuance.cs:711-715 | the rebuilt dictionary has exactly the listed keys |
| `CollaborativeIssuance.ResponsesLookup` | UProveCrypto/CollaborativeIssuance.cs:711-715 | for distinct keys, key i maps to the decoding of value i |
| `CollaborativeIssuance.RepeatFreeLength` | UProveCrypto/CollaborativeIssuance.cs:711-715 | the longest repetition-free prefix; the list is distinct iff it is the whole list |
| `CollaborativeIssuance.FirstRepeat` | UProveCrypto/CollaborativeIssuance.cs:713 | a key that repeats an earlier one ends the repetition-free prefix |
| `CollaborativeIssuance.ResponsesRoundTrip` | UProveCrypto/CollaborativeIssuance.cs:638-715 | flattening a dictionary and rebuilding it, with a decoder inverse to the encoder, gives the dictionary back |

## Left out

- The bodies of `ECPoint` (addition, doubling, `TwicePlus`, `TimesPow2`, negation) are not part of this model. The multipliers and Shamir's trick work in an abstract commutative group, and a point is identified with its coordinates there. Normalising the Shamir table inside `ImplShamirsTrick` does not change the point it represents, so it is not modelled.
- `ECCurve.ECPoint.Normalize` and `ECCurve.ECPoint.NormalizeBy` use Bouncy Castle's usual projective formulas (X / Z^2 and Y / Z^3 for the Jacobian systems, X / Z and Y / Z otherwise). Those formulas live in `ECPoint`, which is not part of this model.
- `ECCurve.FpCurve.InitialZCoords` is modelled on the same `ECPoint` convention: no Z for affine curves, and Z = 1 otherwise.
- `Nat`, `WNafUtilities`, `BigInteger` and `PrimeField` are not part of this model. Word arrays are natural numbers below 2^(32 len). The wNAF digits, the JSF digits and the odd-multiple tables are inputs whose expected properties are preconditions. `GetWindowSize` is an arbitrary integer. `BitLengthTable` is the bit length.
- Randomness: the `System.Random` draws in `Sqrt` are a sequence parameter. When that sequence runs out, the model reports `DrawsExhausted` (in `GetRandomPoint`, `OutOfDraws`); the source would draw again.
- `ECFieldElement.FpFieldElement.LucasSequence`: only proved to return reduced values. That a root found by the Lucas search squares to x is checked on the result instead, exactly as the source's final comparison does.
- `ECFieldElement.FpFieldElement.FoldHighBits`: only proved to keep the residue and to end within one bit of q's length, which is what the following subtraction loop needs.
- `ECFieldElement.FpFieldElement.ModReduce`: the Barrett branch is proved for product-sized inputs (|x| < 2^(2L)), which is every use in the source.
- `ECFieldElement.FpFieldElement.Invert`, `Divide` and `ModInverse` require q prime (q = 2 included); `Mod.Invert` requires x coprime to p. Otherwise the source's loop can reach u = v, subtract to u = 0 and then shift zero words forever in `InversionStep`.
- `Mod.Invert` requires p odd once x >= 2, because `InversionStep` halves modulo p. An even p, such as 2, is handled for x = 0 and x = 1, the only values below 2.
- `ECCurve.FpCurve.NormalizeAll` and both `ImportPoint`s require a prime modulus (q = 2 included), because of the inversion above.
- `ECAlgorithms.MontgomeryTrick` requires len >= 1, like the source, which reads c[len - 1].
- `ECAlgorithms.MontgomeryTrick`: when an entry is zero, the source's `Invert` throws after the scratch array is filled. The model reports ArgumentException with `zs` unchanged, which is what the source leaves.
- The `lock` blocks around the precomputation table and the multiplier: concurrency is not modelled.
- `ECRecommendedParameters.GetX`: SHA-256 is a parameter that returns 32 bytes, and UTF-8 encoding is identified with the characters. The double-precision `Math.Ceiling` is modelled exactly, which it is for these sizes. Integer decimal formatting is `Formatter.Decimal`, and the counter's overflow at 2^31 is not modelled.
- `ECRecommendedParameters.GetRandomPoint`: the source's reference comparison of z with zero is modelled as a value comparison. For q = 3 (mod 4), where all three recommended curves lie, either reading gives the same result (`ZeroHasPowerRoot`). Rejections are characterised only for q = 3 (mod 4). The counter is bounded by `limit`, and the `Formatter` print is left out.
- `ECRecommendedParameters.GenerateParameters` and `Print` drive the steps above and write tables, so they are not modelled.
- `Formatter`: the `TextWriter` is replaced by the returned text, and the newline is "\n". `PrintBigInteger`, `PrintPoint` and `PrintHex` are not modelled, since they format values through `BigInteger` and `ECPoint`.
- `ProtocolHelper.Hash`: group elements and points are given by their encodings, and BigIntegers are non-negative. `ConcatArrays` with a null inner array is not modelled. SHA-256 is a parameter.
- `ProtocolHelper.ComputeXi`: with encoding byte 0 and a null attribute the source throws from the `BigInteger` constructor; the model reports an error without naming it.
- `ProtocolHelper.ComputeXt`, `ComputeTokenID`, `GenerateScopeElement`, the other challenge generators and `GetRandom` are left out. They combine the hashing modelled here with group code that is not shown.
- `CollaborativeIssuance`: `CreateProof`, `VerifyProof` and `ComputeChallenge` (the zero-knowledge proof) are left out, and so are the device public key and the presentation proof's own deserialisation.
- `CollaborativeIssuance`: arrays are stored as values, so aliasing between the caller's arrays and the stored ones is not modelled.
- `CollaborativeIssuance`: the dictionary's enumeration order is an input, and the base64 and group-element conversions are parameters (`TextCodec`). A missing text in `FinishDeserialization` fails inside those conversions; the model reports an error without naming it.

## Findings

| source | as written | input that shows it | evidently intended | confidence | as-written member | corrected member |
|---|---|---|---|---|---|---|
| UProveCrypto/CollaborativeIssuance.cs:114-119 | the check counts the distinct indices in C, U and K but never checks that they lie in 1 to n | one attribute (n = 1), C and K empty, U = [7] | C, U and K partition exactly the indices 1 to n | not executed | `CollaborativeIssuance.OutOfRangeIndicesPass` | `CollaborativeIssuance.CoversAttributesPartition` |
