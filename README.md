# Half: a verified model of the binary16 semantic layer

This project models the core of the Swift `Half` package, an IEEE 754-2008
binary16 floating-point type. A `Half` is a 16-bit word: 1 sign bit, 5
exponent bits with bias 15, and 10 trailing-significand bits (sections 3.4
and 3.6 of IEEE 754-2008). The first significand bit tells quiet and
signaling NaNs apart (section 6.2.1). Nearly everything in
`Sources/Half/Half.swift` that is not a call into the C kernel is integer
work on that word. The model covers:

- the masks and bias, the field accessors, `sign`, and the two bit-pattern
  constructors;
- the classification predicates;
- the NaN-with-payload constructor and the fixed constants;
- `nextUp`, `exponent`, `significand`, `significandWidth` and `binade`;
- the key that `hash(into:)` feeds to the hasher;
- `init(sign:exponent:significand:)`, with its exponent clamping and its two
  `while` loops;
- the decision logic of the conversions from `Float`, `Double` and binary
  integers, including both `init?(exactly:)` tables.

From `Sources/CHalf/include/half.h` it covers the raw reinterpretation pair,
`_half_nan` and the sign-clearing `_half_abs`.

Modules, one per file:

- `Bitwise` (bitwise.dfy): 16- and 64-bit words as bounded integers. It
  defines Swift's `&`, `|`, `&<<` and `&>>` as functions on naturals. It
  also defines `_binaryLogarithm`, `leadingZeroBitCount` and
  `trailingZeroBitCount`, with lemmas that tie them to `%`, `/` and powers
  of two.
- `CHalf` (chalf.dfy): `half_t` and the bit-level functions of `half.h`.
- `HalfBits` (half_bits.dfy): constants, fields, constructors,
  classification, NaN payloads and the named constants.
- `HalfValue` (half_value.dfy): the value of a finite half as an integer
  count of units of 2^-24. Every finite binary16 value is such a multiple.
  The module also gives the total order of non-NaN values, and IEEE
  equality and less-than on it.
- `Kernel` (kernel.dfy): the floating-point kernel of `half.h` (`_half_add`,
  `_half_mul`, `_half_neg`, the `_half_from` family). These are opaque
  function values. The predicate `Lawful` states the few IEEE facts the
  Swift layer relies on:
  - the conversions round to nearest;
  - `x + 0` returns `x`, turning -0 into +0, and keeps a NaN a NaN;
  - `_half_neg`, written `0.0 - x`, is exact.
- `HalfOps` (half_ops.dfy): `nextUp`, `exponent`, `significand`,
  `significandWidth`, `binade` and hashing.
- `HalfScale` (half_scale.dfy): `init(sign:exponent:significand:)` as an
  imperative method with its two loops.
- `HalfConvert` (half_convert.dfy): the conversion inits and their
  exactness tables.

Comparison (`_half_equal`, `_half_lt`, `_half_lte`, used by `==`, `<` and
`<=`) is not left to the kernel: `HalfValue.Equal`, `Less` and `LessOrEqual`
define it as exact IEEE 754 comparison, over the order of values. `nextUp`
relies on one fact about it, `HalfValue.BelowInfinity`: every non-NaN value
other than +infinity is below +infinity.

The Swift `BinaryInteger` and `FloatingPoint` protocols document
`init?(exactly:)` as returning nil when the source cannot be represented
exactly. The package's integer `init?(exactly:)` instead traps for some
inputs (Findings, row 2). The model follows the code in the as-written
member and proves the protocol's behaviour of the corrected one.

## Model

| member | source | states |
|---|---|---|
| Bitwise.LeadingZeroBitCount | Sources/Half/Half.swift:267 | `leadingZeroBitCount` over 16 bits is `r` with `x < 2^(16-r)` and, below 16, `2^(15-r) <= x` |
| Bitwise.BinaryLogarithm | Sources/Half/Half.swift:352 | `_binaryLogarithm()` of a non-zero word is the position `r` of its highest set bit: `2^r <= x < 2^(r+1)` |
| Bitwise.TrailingZeroBitCount | Sources/Half/Half.swift:261 | `trailingZeroBitCount` is 16 exactly for 0; otherwise `x` is a multiple of 2^r but not of 2^(r+1) |
| CHalf.FromRaw | Sources/CHalf/include/half.h:55 | `_half_from_raw` wraps the word so that `_half_to_raw` reads back the same word |
| CHalf.RawRoundTrip | Sources/CHalf/include/half.h:54-55 | for every 16-bit `x`, `_half_to_raw(_half_from_raw(x)) == x` |
| CHalf.HalfRoundTrip | Sources/CHalf/include/half.h:54-55 | for every `half_t`, reading the word and rewrapping it gives the same `half_t` |
| CHalf.Nan | Sources/CHalf/include/half.h:52 | `_half_nan` has an all-ones exponent field and significand field 0x200 |
| CHalf.Abs | Sources/CHalf/include/half.h:89 | `_half_abs` always returns a word with the sign bit clear |
| CHalf.AbsMasks | Sources/CHalf/include/half.h:89 | `_half_abs` is the word ANDed with 0x7FFF |
| CHalf.AbsKeepsNonSignBits | Sources/CHalf/include/half.h:89 | `_half_abs` subtracts 0x8000 when bit 15 is set and leaves every other word unchanged |
| CHalf.AbsIdempotent | Sources/CHalf/include/half.h:89 | applying `_half_abs` twice is the same as applying it once |
| HalfBits.SignFromRawValue | Sources/Half/Half.swift:421-427 | `FloatingPointSign(rawValue:)` succeeds exactly for 0 and 1, and gives `.minus` exactly for 1 |
| HalfBits.Sign | Sources/Half/Half.swift:421-427 | `sign` is `.minus` exactly when bit 15 is set; the forced unwrap cannot fail because the shifted word is 0 or 1 |
| HalfBits.DerivedConstants | Sources/Half/Half.swift:98-116 | `significandMask`, `infinityExponent`, `exponentBias` and `quietNaNMask`, computed from the bit counts by the source's shifts, are 0x3FF, 0x1F, 15 and 0x200 |
| HalfBits.FromBitPattern | Sources/Half/Half.swift:47-50 | `init(bitPattern:)` gives a half whose `bitPattern` is the argument |
| HalfBits.BitPatternRoundTrip | Sources/Half/Half.swift:42-50 | `Half(bitPattern: h.bitPattern) == h` for every half |
| HalfBits.ExponentBitPatternMasks | Sources/Half/Half.swift:133-136 | `exponentBitPattern`, `UInt(bitPattern &>> 10) & infinityExponent`, is bits 10-14 of the word |
| HalfBits.SignificandBitPatternMasks | Sources/Half/Half.swift:138-141 | `significandBitPattern`, `bitPattern & significandMask`, is bits 0-9 of the word |
| HalfBits.FromFields | Sources/Half/Half.swift:145-152 | the field constructor's result reads back the given sign, `e & 0x1F` and `f & 0x3FF` |
| HalfBits.FromFieldsIsOr | Sources/Half/Half.swift:145-152 | the constructor's word is the OR of the shifted sign bit, the masked and shifted exponent (which fits the `UInt16` conversion) and the masked significand |
| HalfBits.FieldsRoundTrip | Sources/Half/Half.swift:133-152 | rebuilding a half from its `sign`, `exponentBitPattern` and `significandBitPattern` gives the same half, for every word |
| HalfBits.Classify | Sources/Half/Half.swift:367-400 | each class is chosen exactly when the matching `is*` predicate holds |
| HalfBits.ExactlyOneClass | Sources/Half/Half.swift:367-400 | every half is exactly one of zero, subnormal, normal, infinite and NaN; `isFinite` is the union of the first three |
| HalfBits.SignalingNaNMasks | Sources/Half/Half.swift:387-390 | `isSignalingNaN` holds exactly for a NaN whose significand ANDed with `quietNaNMask` is 0 |
| HalfBits.QuietBit | Sources/Half/Half.swift:389 | a 10-bit significand has the quiet bit clear exactly when it is below 0x200 |
| HalfBits.MarkValue | Sources/Half/Half.swift:57 | `quietNaNMask &>> (signaling ? 1 : 0)` is 0x100 when signaling and 0x200 when quiet |
| HalfBits.PayloadBelowMark | Sources/Half/Half.swift:54-57 | under the precondition `payload < quietNaNMask &>> 1`, ORing in the mark is adding it |
| HalfBits.NanWithPayload | Sources/Half/Half.swift:52-60 | `init(nan:signaling:)` requires a payload below 0x100; the result is a positive NaN that is signaling exactly when asked, keeps the payload in its low 8 bits, and has the word 0x7D00 or 0x7E00 plus the payload |
| HalfBits.GreatestFiniteMagnitude | Sources/Half/Half.swift:457-460 | 0x7BFF is a positive normal with exponent field 0x1E and significand 0x3FF |
| HalfBits.Infinity | Sources/Half/Half.swift:462-465 | 0x7C00 is positive infinity |
| HalfBits.LeastNonzeroMagnitude | Sources/Half/Half.swift:467-474 | the constant is the positive subnormal 0x0001 |
| HalfBits.LeastNormalMagnitude | Sources/Half/Half.swift:476-479 | the constant is the positive normal 0x0400 |
| HalfBits.Nan | Sources/Half/Half.swift:481-484 | `nan`, from `_half_nan`, is the positive quiet NaN 0x7E00 |
| HalfBits.SignalingNaN | Sources/Half/Half.swift:491-494 | `signalingNaN`, `Half(nan: 0, signaling: true)`, is the positive signaling NaN 0x7D00 |
| HalfBits.Magnitude | Sources/Half/Half.swift:605-607 | `magnitude`, through `_half_abs`, has sign plus and keeps both other fields |
| HalfBits.MagnitudeKeepsClass | Sources/Half/Half.swift:605-607 | `magnitude` keeps the class and the signaling bit |
| HalfValue.MagnitudeFields | Sources/Half/Half.swift:367-400 | the 15 low bits split into the two fields; finite, infinite and zero are ranges of those bits |
| HalfValue.UnitsOrder | Sources/Half/Half.swift:528-531 | on finite encodings, the value in units of 2^-24 strictly increases with the 15 low bits, so both the order and equality are those of the encoding |
| HalfValue.EqualIffSameEncoding | Sources/Half/Half.swift:523-526 | IEEE `==` holds exactly when neither side is a NaN and the words are the same or both are zeros |
| HalfValue.LessIffOrdinal | Sources/Half/Half.swift:528-536 | on non-NaN values, `<` and `<=` are the order of a signed ordinal that counts encodings away from zero |
| HalfValue.OrdinalSame | Sources/Half/Half.swift:523-526 | two non-NaN values share an ordinal exactly when they are the same word or both zeros |
| HalfValue.BelowInfinity | Sources/Half/Half.swift:412 | `x < .infinity` holds exactly for the non-NaN values other than +infinity |
| Kernel.UlpOfOne | Sources/Half/Half.swift:497-499 | `ulpOfOne`, `_half_epsilon` (2^-10), is the positive normal with exponent field 5 and an empty significand |
| Kernel.NegateInvolutive | Sources/CHalf/include/half.h:88 | the sign-flip that `_half_neg` is compared with is its own inverse |
| Kernel.KernelNegateOfZero | Sources/CHalf/include/half.h:88 | `_half_neg(+0)` is +0, not the -0 that the sign flip gives |
| Kernel.KernelNegateAgrees | Sources/CHalf/include/half.h:88 | on every non-NaN, non-zero value `_half_neg` is the sign flip |
| Kernel.FromIntZero | Sources/Half/Half.swift:322-325 | the integer literal 0 converts to +0 |
| Kernel.AddLiteralZero | Sources/Half/Half.swift:404 | `self + 0` keeps a NaN a NaN, turns either zero into +0, and returns any other value unchanged |
| HalfOps.IncrementValue | Sources/Half/Half.swift:413 | `Int16(bitPattern:) &>> 15`, ORed with 1 and read back as a `UInt16`, is 0xFFFF when bit 15 is set and 1 otherwise |
| HalfOps.StepBits | Sources/Half/Half.swift:413-415 | adding that increment with wrap-around subtracts 1 from a negative word and adds 1 to a finite positive one |
| HalfOps.NextUpBits | Sources/Half/Half.swift:402-419 | `nextUp` of a NaN is a NaN and of +infinity is +infinity; otherwise its word is 1 for a zero, the word plus 1 for a positive value and the word minus 1 for a negative one |
| HalfOps.NextUpKeeps | Sources/Half/Half.swift:412-418 | when `self + 0` is a NaN or +infinity, `nextUp` returns it |
| HalfOps.NextUpOrdinal | Sources/Half/Half.swift:402-419 | for non-NaN values below +infinity, `nextUp` moves exactly one step up the order of values |
| HalfOps.NextUpIsSuccessor | Sources/Half/Half.swift:402-419 | `nextUp` is above `self`, and `self < c` holds exactly when `nextUp <= c`, for every non-NaN `c`, so it is the least value above `self` |
| HalfOps.NextUpStep | Sources/Half/Half.swift:412-415 | for a word in (0, 0x7C00) `nextUp` is the next word; for a word in (0x8000, 0xFC00] it is the previous one |
| HalfOps.NextUpExamples | Sources/Half/Half.swift:402-419 | 0x7BFF goes to 0x7C00, 0x8001 to 0x8000 and 0xFC00 to 0xFBFF |
| HalfOps.Exponent | Sources/Half/Half.swift:344-354 | `exponent` is `Int.max` for non-finite values and `Int.min` for zeros; it lies in [-14, 15] for normals and in [-24, -15] for subnormals |
| HalfOps.SubnormalExponent | Sources/Half/Half.swift:352-353 | a subnormal's `exponent` is -24 plus the binary logarithm of its significand field |
| HalfOps.ExponentBrackets | Sources/Half/Half.swift:344-354 | for finite non-zero values, 2^exponent <= magnitude < 2^(exponent+1) |
| HalfOps.Significand | Sources/Half/Half.swift:429-442 | `significand` of a NaN is itself; for finite non-zero values it is a positive normal in [1, 2) |
| HalfOps.InUnitBinade | Sources/Half/Half.swift:433 | `Half(sign: .plus, exponentBitPattern: exponentBias, significandBitPattern: s)` is a positive normal with exponent 0 and significand field `s & 0x3FF` |
| HalfOps.SignificandOfZeroOrInfinity | Sources/Half/Half.swift:440-441 | the `significand` of a zero is +0 and of an infinity is +infinity |
| HalfOps.SubnormalShift | Sources/Half/Half.swift:437-438 | for a subnormal field `f`, `f &<< (10 - log2 f)` does not overflow and lands in [0x400, 0x800) |
| HalfOps.SignificandField | Sources/Half/Half.swift:432-439 | a normal keeps its significand field; a subnormal's field is shifted so that its leading bit becomes the implicit bit |
| HalfOps.SignificandTimesPowerOfTwo | Sources/Half/Half.swift:344-354 | for finite non-zero values, magnitude = significand × 2^exponent |
| HalfOps.NormalSignificand | Sources/Half/Half.swift:432-434 | the decomposition identity for normals |
| HalfOps.SubnormalSignificand | Sources/Half/Half.swift:436-439 | the decomposition identity for subnormals |
| HalfOps.SignificandWidth | Sources/Half/Half.swift:259-271 | `significandWidth` lies in [-1, 10], and it is -1 exactly for zeros, infinities and NaNs |
| HalfOps.SignificandWidthCountsFractionBits | Sources/Half/Half.swift:259-271 | for finite non-zero values the width `w` is the number of fraction bits `significand` uses: its field is a multiple of 2^(10-w) and, when `w > 0`, not of 2^(11-w) |
| HalfOps.NormalWidth | Sources/Half/Half.swift:261-265 | the normal case `10 - trailingZeroBitCount` (0 for an empty field) counts the fraction bits |
| HalfOps.SubnormalWidth | Sources/Half/Half.swift:266-269 | the subnormal case `16 - (trailingZeros + leadingZeros + 1)` counts the fraction bits of the normalised significand |
| HalfOps.NegativeInfinityBits | Sources/Half/Half.swift:256 | `(-Half.infinity).bitPattern` is 0xFC00 |
| HalfOps.ClearSignificand | Sources/Half/Half.swift:256 | masking a word with 0xFC00 keeps the sign and exponent fields and empties the significand field |
| HalfOps.BinadeProperties | Sources/Half/Half.swift:245-257 | `binade` is a NaN for infinities and NaNs and is the value itself for zeros; for a normal it is the same-signed power of two 2^exponent, with magnitude at most that of `self` and more than half of it |
| HalfOps.Hasher.Combine | Sources/Half/Half.swift:567 | `combine` appends the value to what the hasher has been fed |
| HalfOps.HashInto | Sources/Half/Half.swift:561-568 | `hash(into:)` feeds exactly one value, the hash key, to the hasher |
| HalfOps.HashKeyValues | Sources/Half/Half.swift:562-567 | the key is 0 for either zero and the word for every other value |
| HalfOps.HashKeyRespectsEquality | Sources/Half/Half.swift:561-568 | two non-NaN values have the same key exactly when they are `==` |
| HalfConvert.SpecialFromWide | Sources/Half/Half.swift:155-184 | from `Float` or `Double`, an infinity becomes the infinity of the same sign and a NaN becomes a NaN of the same kind |
| HalfConvert.FromWideCases | Sources/Half/Half.swift:155-184 | the same, and a finite source is rounded to nearest by `_half_from` |
| HalfConvert.FloatRounds | Sources/CHalf/include/half.h:57-58 | `_half_from` on a finite `Float` or `Double` rounds to nearest |
| HalfConvert.FiniteExactly | Sources/Half/Half.swift:237-240 | for a finite source, `init?(exactly:)` keeps the half exactly when it is finite and has the source's signed value |
| HalfConvert.SpecialTable | Sources/Half/Half.swift:221-236 | every infinity and NaN source is accepted, and the result stands for it |
| HalfConvert.FiniteTable | Sources/Half/Half.swift:237-240 | a finite source is accepted exactly when some half has its value, and the result is then that value |
| HalfConvert.ExactlyFromFloatingMeaning | Sources/Half/Half.swift:217-241 | `init?(exactly:)` from a binary floating-point value succeeds exactly when a half stands for the source, and then returns the converted half, which does |
| HalfConvert.InRangeFits | Sources/Half/Half.swift:329-336 | a value of a signed or unsigned type of at most 64 bits fits `Int` or `UInt`, so `truncatingIfNeeded` keeps it |
| HalfConvert.FromIntegerRounds | Sources/Half/Half.swift:327-340 | `init(_:)` from a binary integer of at most 64 bits rounds to nearest |
| HalfConvert.UnsignedRounds | Sources/CHalf/include/half.h:64-67 | `_half_from` on an unsigned integer rounds to nearest |
| HalfConvert.Truncate | Sources/Half/Half.swift:614 | `Source(self)` on a finite half is its value truncated toward zero: within one unit of it on the side of zero, and 0 exactly for magnitudes below 1 |
| HalfConvert.SmallIntegerRepresentable | Sources/Half/Half.swift:610-617 | every integer of magnitude up to 2048 is exactly representable |
| HalfConvert.TruncationExact | Sources/Half/Half.swift:614 | when the nearest half of an integer `n` truncates back to `n`, its value is exactly `n` |
| HalfConvert.ExactlyFromIntegerMeaning | Sources/Half/Half.swift:610-617 | the corrected integer `init?(exactly:)` succeeds exactly when the integer is representable, and then returns the converted half, whose value is the integer |
| HalfConvert.CorrectedAcceptsAsWritten | Sources/Half/Half.swift:610-617 | whenever the corrected version accepts, the code as written returns the same half |
| HalfConvert.AsWrittenAgreesUnlessTrapped | Sources/Half/Half.swift:610-617 | whenever the code as written does not trap, it returns what the corrected version returns |
| HalfConvert.Nearest32767 | Sources/Half/Half.swift:612 | the nearest half to 32767 is 0x7800, that is 32768 |
| HalfConvert.ExactlyInt16MaxTraps | Sources/Half/Half.swift:610-617 | `Half(exactly: Int16(32767))` traps as written, and the corrected version returns nil |
| HalfScale.Clamp | Sources/Half/Half.swift:294-307 | the clamped exponent lies in [-42, 45], three times the exponent range; it is the exponent itself inside that range and the bound outside |
| HalfScale.ScaleStep | Sources/Half/Half.swift:306 | the loop's step is the positive normal power of two with exponent field 30, that is 0x7800 (2^15) |
| HalfScale.Reduced | Sources/Half/Half.swift:301-312 | after the loops, `clamped` lies in [-14, 15] |
| HalfScale.StepsFactors | Sources/Half/Half.swift:298-312 | each loop multiplies by positive normal powers of two, at most twice; the exponents multiplied in plus what is left equal the clamped exponent |
| HalfScale.LastPower | Sources/Half/Half.swift:315 | `scale`, with exponent field `15 + clamped` in [1, 30], is a positive normal power of two for exponent `clamped` |
| HalfScale.ScaleFactorsProperties | Sources/Half/Half.swift:293-317 | at most three factors are applied, all positive normal powers of two, and their exponents sum to the clamped exponent (the exponent itself within [-42, 45]) |
| HalfScale.FactorValue | Sources/Half/Half.swift:315-316 | a factor with exponent `c` has the value 2^c |
| HalfScale.ScaleBelow | Sources/Half/Half.swift:298-304 | the loop for small exponents leaves `clamped` in [-14, 0) and the product of the factors taken so far |
| HalfScale.ScaleAbove | Sources/Half/Half.swift:305-313 | the loop for large exponents leaves `clamped` in (0, 15] and the product of the factors taken so far |
| HalfScale.ScaleBy | Sources/Half/Half.swift:293-317 | the scaling multiplies the signed significand by exactly the factors `ScaleFactors` lists, in order |
| HalfScale.InitScaled | Sources/Half/Half.swift:289-320 | `init(sign:exponent:significand:)` is the significand, sign applied, multiplied by those factors when it is finite and non-zero |
| HalfScale.ScaledSpecialCases | Sources/Half/Half.swift:290-293 | a zero, infinite or NaN significand is returned with no scaling, keeping its class and magnitude bits and taking the product of the two signs |
| HalfScale.MinusZeroAsWritten | Sources/Half/Half.swift:290-291 | as written, `.minus` with a +0 significand gives +0, where the sign-flip gives -0 |
| HalfScale.AsWrittenAgrees | Sources/Half/Half.swift:290-291 | for non-NaN, non-zero significands the code as written and the corrected version agree |

## Left out

- The numerics of the C kernel (`_half_add`, `_half_mul`, `_half_div`,
  `_half_fma`, `_half_sqrt`, and the `__fp16` conversions in both
  directions) are not modelled; comparison is modelled as exact IEEE
  ordering instead (see above). They are opaque functions constrained
  only by `Kernel.Lawful`: the `_half_from` family rounds to nearest, adding
  +0 is the identity except that -0 becomes +0, and `_half_neg` is exact
  `0.0 - x`. These laws are requirements of the lemmas, not proved facts.
- HalfScale.InitScaled: the products in the two loops and the final scale
  are the kernel's `_half_mul`. The result is stated as the fold of
  multiplication over the proved factor list. The decomposition identity
  that `Half(sign:exponent:significand:)` rebuilds every finite value from
  its parts is therefore not proved.
- HalfScale.InitScaled applies the sign with the IEEE sign flip, the
  corrected behaviour. The code as written is `ScaledValueAsWritten` (Findings, row 1).
- `binade` of a subnormal goes through two kernel multiplications (by
  2^10 and by `ulpOfOne`); its numeric result is not stated.
- `ulp`, `pi`, `formRemainder`, `formTruncatingRemainder`, `round`,
  `addProduct` and `formSquareRoot` are numeric results of the kernel or of
  `Float` library math. The arithmetic operators, `negate`, `distance` and
  `advanced` are plain delegations to the kernel.
- `description`, `debugDescription` and `write(to:)` render a widened
  `Float` as text.
- The `#if arch(arm)` branches of `binade`, `isCanonical`, `nextUp` and
  `leastNonzeroMagnitude` are not modelled; the model follows the other
  platforms, on which `isCanonical` is always true; it is not modelled.
- `init(_: Float80)` and `init(_: CGFloat)`, and the generic
  `BinaryFloatingPoint` init, are not modelled. The generic init converts to
  `Float` first, and that double rounding is not modelled. A `Float` or
  `Double` source is an abstract sign and magnitude, an infinity or a NaN.
  Its own encoding, NaN payloads included, is not modelled.
- HalfConvert.ExactlyFromFloating converts its source with the direct
  `Float`/`Double` init (`FromWide`, lines 155-184 of Half.swift), where
  the source's `init?(exactly:)` calls the generic init, which converts to
  `Float` first. For a `Float` source the two are the same. For a finite
  `Double` source the accept/reject decision is the same: a value that is
  exactly a half is exactly a `Float` too and survives both roundings, and
  any other value is rejected on either path. Whether a signaling `Double`
  NaN stays signaling through `Float(value)` is not modelled.
- Binary integers wider than 64 bits go through `Float` and are not
  modelled.
- The mixing function of Swift's `Hasher` is not modelled. `Hasher` records
  only the sequence of values combined into it.

## Findings

| source | as written | input that shows it | evidently intended | confidence | as-written member | corrected member |
|---|---|---|---|---|---|---|
| Sources/Half/Half.swift:291 | `result = -result` uses `_half_neg`, which is `0.0 - x` (Sources/CHalf/include/half.h:88) and gives +0 for both zeros | `Half(sign: .minus, exponent: 0, significand: 0.0)` gives +0 | the sign of the result is the product of `sign` and the significand's sign, so -0 here | not executed | HalfScale.ScaledValueAsWritten, with HalfScale.MinusZeroAsWritten and Kernel.KernelNegateOfZero | HalfScale.ScaledValue, built by HalfScale.InitScaled, with HalfScale.ScaledSpecialCases and HalfScale.AsWrittenAgrees |
| Sources/Half/Half.swift:614 | `Source(self) != value` converts the rounded half back to `Source`, which traps when it lies outside `Source` | `Half(exactly: Int16(32767))`: 32767 rounds to 32768, and `Int16(32768.0)` traps | return nil, because 32767 is not representable | not executed | HalfConvert.ExactlyFromIntegerAsWritten, with HalfConvert.ExactlyInt16MaxTraps | HalfConvert.ExactlyFromInteger, with HalfConvert.ExactlyFromIntegerMeaning and HalfConvert.AsWrittenAgreesUnlessTrapped |
