/** The decision logic of the conversions into `Half`: the special-value
    branches of `init(_: Float)` and `init(_: Double)`, the accept/reject
    table of `init?(exactly:)` from a binary floating-point value, and
    `init(_:)` and `init?(exactly:)` from a binary integer. Rounding is the
    kernel's `_half_from`; under `Lawful` it rounds to nearest. */
module HalfConvert {
  import opened Bitwise
  import opened HalfBits
  import opened HalfValue
  import opened Kernel

  // ------------------------------------------------- floating-point sources

  /** A `Float` or `Double` value: a finite value of some sign and
      magnitude, an infinity, or a NaN, signaling or quiet. */
  datatype WideFloat =
    | Finite(sign: FloatingPointSign, magnitude: NonNegativeReal)
    | Infinite(infiniteSign: FloatingPointSign)
    | NaN(signaling: bool)

  /** `init(_: Float)` and `init(_: Double)`: an infinity keeps its sign, a
      NaN becomes `signalingNaN` or `nan`, a finite value goes through
      `_half_from`. */
  function FromWide(k: Kernel, v: WideFloat): Half
  {
    match v
    case Infinite(s) =>
      var infinity := Infinity();
      FromFields(s, ExponentBitPattern(infinity), SignificandBitPattern(infinity))
    case NaN(signaling) => if signaling then SignalingNaN() else Nan()
    case Finite(s, m) => FromFloat(k, s, m)
  }

  /** The value of a finite half in units of 2^-24, with its sign. */
  function SignedUnits(h: Half): (u: int)
    requires IsFinite(h)
    ensures u == Units(h) || u == 0 - Units(h)
  {
    var magnitude: int := Units(h);
    if Sign(h) == Minus then 0 - magnitude else magnitude
  }

  /** The value of a finite source in units of 2^-24. */
  function WideUnits(sign: FloatingPointSign, magnitude: NonNegativeReal): real
  {
    (if sign == Minus then 0.0 - magnitude else magnitude) * UnitsPerOne
  }

  /** `h` stands for `v` exactly: the same finite value (either zero for a
      zero), the infinity of the same sign, or a NaN of the same kind. */
  predicate Represents(h: Half, v: WideFloat)
  {
    match v
    case Finite(s, m) => IsFinite(h) && SignedUnits(h) as real == WideUnits(s, m)
    case Infinite(s) => IsInfinite(h) && Sign(h) == s
    case NaN(signaling) => IsNaN(h) && IsSignalingNaN(h) == signaling
  }

  /** Some finite encoding has magnitude `units`. */
  ghost predicate RepresentableUnits(units: real)
  {
    exists m: nat {:trigger MagnitudeUnits(m)} :: m < 0x7C00 && MagnitudeUnits(m) as real == units
  }

  /** Some half stands for `v`: every infinity and NaN does, a finite value
      when its magnitude is that of an encoding. */
  ghost predicate Representable(v: WideFloat)
  {
    match v
    case Finite(_, m) => RepresentableUnits(m * UnitsPerOne)
    case _ => true
  }

  /** `init?(exactly:)` from a binary floating-point value: the conversion,
      rejected when exactly one side is infinite or the infinities' signs
      differ, when exactly one side is a NaN or the NaNs differ in kind, and
      when the half, converted back, is not equal to the source. */
  function ExactlyFromFloating(k: Kernel, v: WideFloat): Option<Half>
  {
    var h := FromWide(k, v);
    if IsInfinite(h) || v.Infinite? then
      if v.Infinite? && (!IsInfinite(h) || Sign(h) != v.infiniteSign) then None
      else if IsInfinite(h) && !v.Infinite? then None
      else Some(h)
    else if IsNaN(h) || v.NaN? then
      if v.NaN? && (!IsNaN(h) || IsSignalingNaN(h) != v.signaling) then None
      else if IsNaN(h) && !v.NaN? then None
      else Some(h)
    else if SignedUnits(h) as real != WideUnits(v.sign, v.magnitude) then None
    else Some(h)
  }

  /** The conversion keeps infinities with their sign and NaNs with their
      kind, and rounds a finite value to nearest. */
  lemma FromWideCases(k: Kernel, v: WideFloat)
    requires Lawful(k)
    ensures v.Infinite? ==> IsInfinite(FromWide(k, v)) && Sign(FromWide(k, v)) == v.infiniteSign
    ensures v.NaN? ==> IsNaN(FromWide(k, v)) && IsSignalingNaN(FromWide(k, v)) == v.signaling
    ensures v.Finite? ==> RoundsTo(v.sign, v.magnitude * UnitsPerOne, FromWide(k, v))
  {
    if v.Finite? {
      FloatRounds(k, v.sign, v.magnitude);
    } else {
      SpecialFromWide(k, v);
    }
  }

  lemma FloatRounds(k: Kernel, s: FloatingPointSign, m: NonNegativeReal)
    requires RoundingLaws(k)
    ensures RoundsTo(s, m * UnitsPerOne, FromWide(k, Finite(s, m)))
  {
    assert RoundsTo(s, m * UnitsPerOne, Half(k.fromFloat(s, m)));
  }

  lemma SpecialFromWide(k: Kernel, v: WideFloat)
    requires !v.Finite?
    ensures v.Infinite? ==> IsInfinite(FromWide(k, v)) && Sign(FromWide(k, v)) == v.infiniteSign
    ensures v.NaN? ==> IsNaN(FromWide(k, v)) && IsSignalingNaN(FromWide(k, v)) == v.signaling
  {
  }

  /** A magnitude rounded to nearest is kept exactly when some encoding
      has it; the sign is always kept. */
  lemma NearestIsExact(s: FloatingPointSign, x: real, h: Half)
    requires x >= 0.0 && RoundsTo(s, x, h)
    ensures Sign(h) == s
    ensures (IsFinite(h) && Units(h) as real == x) <==> RepresentableUnits(x)
  {
    if IsFinite(h) && Units(h) as real == x {
      ExactMagnitude(h, x);
    }
    if RepresentableUnits(x) {
      NearestOfRepresentable(s, x, h);
    }
  }

  /** With the sign right, the signed value matches when the magnitude
      does. */
  lemma SignedMatch(s: FloatingPointSign, m: NonNegativeReal, h: Half)
    requires IsFinite(h) && Sign(h) == s
    ensures SignedUnits(h) as real == WideUnits(s, m) <==> Units(h) as real == m * UnitsPerOne
  {
  }

  /** A finite half's magnitude is that of an encoding: its own. */
  lemma ExactMagnitude(h: Half, x: real)
    requires IsFinite(h) && Units(h) as real == x
    ensures RepresentableUnits(x)
  {
    MagnitudeFields(h);
    assert MagnitudeUnits(MagnitudeBits(h)) as real == x;
  }

  /** Rounding a magnitude some encoding has gives exactly that magnitude. */
  lemma NearestOfRepresentable(s: FloatingPointSign, x: real, h: Half)
    requires x >= 0.0 && RoundsTo(s, x, h) && RepresentableUnits(x)
    ensures IsFinite(h) && Units(h) as real == x
  {
    var mb: nat :| mb < 0x7C00 && MagnitudeUnits(mb) as real == x;
    NearestOfEncoding(s, x, h, mb);
  }

  /** Rounding the magnitude of the encoding `mb` gives exactly that
      magnitude. */
  lemma NearestOfEncoding(s: FloatingPointSign, x: real, h: Half, mb: nat)
    requires x >= 0.0 && RoundsTo(s, x, h)
    requires mb < 0x7C00 && MagnitudeUnits(mb) as real == x
    ensures IsFinite(h) && Units(h) as real == x
  {
    var c := EncodingOf(mb);
    assert x < OverflowUnits by {
      UnitsAtMostMax(mb);
      MaxFiniteUnitsValue();
    }
    assert Distance(Units(h) as real, x) <= Distance(Units(c) as real, x);
  }

  /** The positive half with magnitude bits `mb`. */
  lemma EncodingOf(mb: nat) returns (c: Half)
    requires mb < 0x7C00
    ensures IsFinite(c) && Units(c) == MagnitudeUnits(mb)
  {
    c := FromBitPattern(mb);
    MagnitudeFields(c);
  }

  /** `init?(exactly:)` succeeds exactly on the values a half stands for,
      and then gives one that stands for the value. */
  lemma ExactlyFromFloatingMeaning(k: Kernel, v: WideFloat)
    requires Lawful(k)
    ensures ExactlyFromFloating(k, v).Some? <==> Representable(v)
    ensures ExactlyFromFloating(k, v).Some? ==>
      ExactlyFromFloating(k, v).value == FromWide(k, v) && Represents(FromWide(k, v), v)
  {
    if v.Finite? {
      FromWideCases(k, v);
      FiniteTable(k, v);
    } else {
      SpecialTable(k, v);
    }
  }

  lemma SpecialTable(k: Kernel, v: WideFloat)
    requires !v.Finite?
    ensures ExactlyFromFloating(k, v) == Some(FromWide(k, v))
    ensures Represents(FromWide(k, v), v) && Representable(v)
  {
    var h := FromWide(k, v);
    if v.NaN? {
      assert !IsInfinite(h);
    }
  }

  lemma FiniteTable(k: Kernel, v: WideFloat)
    requires v.Finite? && RoundsTo(v.sign, v.magnitude * UnitsPerOne, FromWide(k, v))
    ensures ExactlyFromFloating(k, v).Some? <==> Representable(v)
    ensures ExactlyFromFloating(k, v).Some? ==>
      ExactlyFromFloating(k, v).value == FromWide(k, v) && Represents(FromWide(k, v), v)
  {
    FiniteExactly(k, v);
    FiniteMatch(v.sign, v.magnitude, v.magnitude * UnitsPerOne, FromWide(k, v));
  }

  lemma FiniteMatch(s: FloatingPointSign, m: NonNegativeReal, x: real, h: Half)
    requires x == m * UnitsPerOne && RoundsTo(s, x, h)
    ensures (IsFinite(h) && SignedUnits(h) as real == WideUnits(s, m)) <==> RepresentableUnits(x)
  {
    NearestIsExact(s, x, h);
    if IsFinite(h) {
      SignedMatch(s, m, h);
    }
  }

  /** For a finite source the check reduces to comparing signed values. */
  lemma FiniteExactly(k: Kernel, v: WideFloat)
    requires v.Finite?
    ensures var h := FromWide(k, v);
      ExactlyFromFloating(k, v)
      == if IsFinite(h) && SignedUnits(h) as real == WideUnits(v.sign, v.magnitude) then Some(h) else None
  {
  }

  // ------------------------------------------------------- integer sources

  /** Bit widths up to that of `Int`; wider integers are converted through
      `Float`, which is not part of this model. */
  type BitWidth = w: nat | 1 <= w <= 64 witness 64

  /** A `BinaryInteger` type: its signedness and bit width. */
  datatype IntegerType = IntegerType(isSigned: bool, bitWidth: BitWidth)

  /** `Int16`. */
  const Int16Type := IntegerType(true, 16)

  /** `n` is a value of the integer type `t`. */
  predicate InRange(t: IntegerType, n: int)
  {
    if t.isSigned then 0 - Pow2(t.bitWidth - 1) <= n < Pow2(t.bitWidth - 1)
    else 0 <= n < Pow2(t.bitWidth)
  }

  lemma Pow2Word()
    ensures Pow2(63) == 0x8000_0000_0000_0000 && Pow2(64) == 0x1_0000_0000_0000_0000
  {
    Pow2Values();
    Pow2Add(16, 16);
    Pow2Add(32, 31);
    Pow2Add(32, 32);
  }

  /** A value of a signed type fits `Int`, one of an unsigned type `UInt`. */
  lemma InRangeFits(t: IntegerType, n: int)
    requires InRange(t, n)
    ensures t.isSigned ==> -0x8000_0000_0000_0000 <= n < 0x8000_0000_0000_0000
    ensures !t.isSigned ==> 0 <= n < 0x1_0000_0000_0000_0000
  {
    Pow2Word();
    if t.isSigned {
      Pow2Monotone(t.bitWidth - 1, 63);
    } else {
      Pow2Monotone(t.bitWidth, 64);
    }
  }

  /** `init(_:)` from a binary integer: `Int(truncatingIfNeeded:)` or
      `UInt(truncatingIfNeeded:)`, which keep every value of the type, and
      then `_half_from`. */
  function FromInteger(k: Kernel, t: IntegerType, n: int): Half
    requires InRange(t, n)
  {
    InRangeFits(t, n);
    if t.isSigned then FromInt(k, n) else Half(k.fromUInt(n))
  }

  /** `Source(self)` on a finite half: its value truncated toward zero. */
  function Truncate(h: Half): (n: int)
    requires IsFinite(h)
    ensures Sign(h) == Plus ==> n * 0x100_0000 <= SignedUnits(h) < (n + 1) * 0x100_0000
    ensures Sign(h) == Minus ==> (n - 1) * 0x100_0000 < SignedUnits(h) <= n * 0x100_0000
    ensures (n == 0) == (Units(h) < 0x100_0000)
  {
    var q := Units(h) / 0x100_0000;
    if Sign(h) == Minus then -q else q
  }

  /** What `init?(exactly:)` from an integer does: produce a half, return
      nil, or trap. */
  datatype Outcome = Exact(h: Half) | NotExact | Trapped

  /** `init?(exactly:)` from a binary integer, as written: nil for an
      infinity or a NaN, and otherwise `Source(self) != value`, where
      `Source(self)` traps when the truncated half is outside `Source`. */
  function ExactlyFromIntegerAsWritten(k: Kernel, t: IntegerType, n: int): Outcome
    requires InRange(t, n)
  {
    var h := FromInteger(k, t, n);
    if IsInfinite(h) || IsNaN(h) then NotExact
    else
      var back := Truncate(h);
      if !InRange(t, back) then Trapped
      else if back != n then NotExact
      else Exact(h)
  }

  /** `init?(exactly:)` from a binary integer, with the intended check: the
      half is kept exactly when its value is the integer. */
  function ExactlyFromInteger(k: Kernel, t: IntegerType, n: int): Option<Half>
    requires InRange(t, n)
  {
    var h := FromInteger(k, t, n);
    if IsFinite(h) && SignedUnits(h) == n * 0x100_0000 then Some(h) else None
  }

  /** Integer conversions round to nearest. */
  lemma FromIntegerRounds(k: Kernel, t: IntegerType, n: int)
    requires Lawful(k) && InRange(t, n)
    ensures RoundsTo(IntegerSign(n), AbsoluteValue(n) as real * UnitsPerOne, FromInteger(k, t, n))
  {
    InRangeFits(t, n);
    if t.isSigned {
      IntRounds(k, n);
    } else {
      UnsignedRounds(k, n);
      NaturalRounds(n, Half(k.fromUInt(n)));
    }
  }

  lemma NaturalRounds(n: nat, h: Half)
    requires RoundsTo(Plus, n as real * UnitsPerOne, h)
    ensures RoundsTo(IntegerSign(n), AbsoluteValue(n) as real * UnitsPerOne, h)
  {
    var x := n as real * UnitsPerOne;
    assert AbsoluteValue(n) as real * UnitsPerOne == x;
    assert IntegerSign(n) == Plus;
  }

  lemma UnsignedRounds(k: Kernel, n: UInt)
    requires RoundingLaws(k)
    ensures RoundsTo(Plus, n as real * UnitsPerOne, Half(k.fromUInt(n)))
  {
  }

  /** The corrected `init?(exactly:)` succeeds exactly on the integers a
      half stands for, and then the half's value is the integer. */
  lemma ExactlyFromIntegerMeaning(k: Kernel, t: IntegerType, n: int)
    requires Lawful(k) && InRange(t, n)
    ensures ExactlyFromInteger(k, t, n).Some? <==> RepresentableUnits(AbsoluteValue(n) as real * UnitsPerOne)
    ensures ExactlyFromInteger(k, t, n).Some? ==>
      var h := ExactlyFromInteger(k, t, n).value;
      h == FromInteger(k, t, n) && IsFinite(h) && SignedUnits(h) == n * 0x100_0000
  {
    FromIntegerRounds(k, t, n);
    IntegerExactness(n, FromInteger(k, t, n));
  }

  lemma IntegerExactness(n: int, h: Half)
    requires RoundsTo(IntegerSign(n), AbsoluteValue(n) as real * UnitsPerOne, h)
    ensures (IsFinite(h) && SignedUnits(h) == n * 0x100_0000) <==> RepresentableUnits(AbsoluteValue(n) as real * UnitsPerOne)
  {
    NearestIsExact(IntegerSign(n), AbsoluteValue(n) as real * UnitsPerOne, h);
    if IsFinite(h) {
      IntegerMatch(n, h);
    }
  }

  /** With the sign right, a half's value is the integer when its
      magnitude is. */
  lemma IntegerMatch(n: int, h: Half)
    requires IsFinite(h) && Sign(h) == IntegerSign(n)
    ensures SignedUnits(h) == n * 0x100_0000 <==> Units(h) as real == AbsoluteValue(n) as real * UnitsPerOne
  {
  }

  /** Whenever the corrected initializer accepts, the one as written
      accepts the same half. */
  lemma CorrectedAcceptsAsWritten(k: Kernel, t: IntegerType, n: int)
    requires InRange(t, n) && ExactlyFromInteger(k, t, n).Some?
    ensures ExactlyFromIntegerAsWritten(k, t, n) == Exact(ExactlyFromInteger(k, t, n).value)
  {
    var h := FromInteger(k, t, n);
    assert Truncate(h) == n;
  }

  lemma Pow2Near30()
    ensures Pow2(24) == 0x100_0000 && Pow2(28) == 0x1000_0000 && Pow2(29) == 0x2000_0000
  {
    Pow2Values();
    Pow2Add(16, 8);
    Pow2Add(16, 12);
    Pow2Add(16, 13);
    Pow2Add(8, 4);
    Pow2Add(8, 5);
    Pow2Add(5, 3);
  }

  /** The magnitudes on either side of 32768 (0x7800): 32752 (0x77FF) and
      32800 (0x7801). */
  lemma MagnitudesNear32768()
    ensures MagnitudeUnits(0x77FF) == 32752 * 0x100_0000
    ensures MagnitudeUnits(0x7800) == 32768 * 0x100_0000
    ensures MagnitudeUnits(0x7801) == 32800 * 0x100_0000
  {
    Pow2Near30();
    assert MagnitudeUnits(0x77FF) == 0x7FF * Pow2(28);
    assert MagnitudeUnits(0x7800) == 0x400 * Pow2(29);
    assert MagnitudeUnits(0x7801) == 0x401 * Pow2(29);
  }

  /** 32767 rounds to nearest as 32768, the pattern 0x7800: 32752 and 32800
      are farther. */
  lemma Nearest32767(h: Half)
    requires RoundsTo(Plus, 32767.0 * UnitsPerOne, h)
    ensures IsFinite(h) && BitPattern(h) == 0x7800 && Units(h) == 32768 * 0x100_0000
  {
    var x := 32767.0 * UnitsPerOne;
    MaxFiniteUnitsValue();
    assert IsFinite(h);
    var c := FromBitPattern(0x7800);
    MagnitudeFields(c);
    MagnitudesNear32768();
    assert Units(c) == 32768 * 0x100_0000;
    assert Distance(Units(h) as real, x) <= Distance(Units(c) as real, x);
    MagnitudeFields(h);
    var mb := MagnitudeBits(h);
    if mb < 0x7800 {
      if mb < 0x77FF {
        UnitsOrder(mb, 0x77FF);
      }
      assert false;
    } else if mb > 0x7800 {
      if mb > 0x7801 {
        UnitsOrder(0x7801, mb);
      }
      assert false;
    }
    SignAndMagnitude(h);
  }

  /** As written, `Half(exactly: Int16(32767))` traps: the half is 32768,
      and `Int16(32768)` is out of range. The corrected initializer
      returns nil, since no half is 32767. */
  lemma ExactlyInt16MaxTraps(k: Kernel)
    requires Lawful(k)
    ensures InRange(Int16Type, 32767)
    ensures ExactlyFromIntegerAsWritten(k, Int16Type, 32767) == Trapped
    ensures ExactlyFromInteger(k, Int16Type, 32767) == None
  {
    Pow2Values();
    FromIntegerRounds(k, Int16Type, 32767);
    var h := FromInteger(k, Int16Type, 32767);
    Nearest32767(h);
    assert Truncate(h) == 32768;
  }

  // ------------------------------------------- exact integers and truncation

  /** The magnitude of a normal encoding from its fields, the exponent
      field being `p + 1`. */
  lemma NormalMagnitude(mb: nat, p: nat, f: nat)
    requires p < 30 && f < 0x400 && mb == (p + 1) * 0x400 + f
    ensures mb < 0x7C00 && MagnitudeUnits(mb) == (0x400 + f) * Pow2(p)
  {
    DivModUnique(mb, 0x400, p + 1, f);
  }

  /** Every integer from 0 to 2048 is the value of some encoding. */
  lemma SmallIntegerRepresentable(j: nat)
    requires j <= 2048
    ensures RepresentableUnits(j as real * UnitsPerOne)
  {
    var mb := SmallIntegerReal(j);
  }

  /** The encoding of a small integer, its magnitude read as a real. */
  lemma SmallIntegerReal(j: nat) returns (mb: nat)
    requires j <= 2048
    ensures mb < 0x7C00 && MagnitudeUnits(mb) as real == j as real * UnitsPerOne
  {
    mb := SmallIntegerEncoding(j);
    IntegerUnits(j);
  }

  /** The encoding of the integer `j`, from 0 to 2048: exponent field
      `15 + log2 j` and the bits of `j` below its highest one. */
  lemma SmallIntegerEncoding(j: nat) returns (mb: nat)
    requires j <= 2048
    ensures mb < 0x7C00 && MagnitudeUnits(mb) == j * 0x100_0000
  {
    Pow2Values();
    Pow2Near30();
    if j == 0 {
      mb := 0;
    } else if j == 2048 {
      mb := 0x6800;
      NormalMagnitude(mb, 25, 0);
      Pow2Add(24, 1);
    } else {
      var l := BinaryLogarithm(j);
      Pow2Add(10, 1);
      if l > 10 {
        Pow2Monotone(11, l);
        assert false;
      }
      var sh: nat := 10 - l;
      ScaledBracket(j, sh, l);
      var m := j * Pow2(sh);
      mb := (l + 15) * 0x400 + (m - 0x400);
      NormalMagnitude(mb, l + 14, m - 0x400);
      PowerProduct(j, sh, l + 14);
    }
  }

  /** From 2048 up every half is an integer. */
  lemma LargeIsIntegral(h: Half)
    requires IsFinite(h) && Units(h) >= 2048 * 0x100_0000
    ensures Units(h) % 0x100_0000 == 0
  {
    Pow2Values();
    Pow2Near30();
    Pow2Add(24, 1);
    NormalMagnitude(0x6800, 25, 0);
    MagnitudeFields(h);
    UnitsOrder(MagnitudeBits(h), 0x6800);
    NormalUnits(h);
    var f := SignificandBitPattern(h);
    var d: nat := ExponentBitPattern(h) - 25;
    PowerProduct(0x400 + f, d, 24);
    DivModUnique(Units(h), 0x100_0000, (0x400 + f) * Pow2(d), 0);
  }

  /** A half nearest an integer that truncates back to it is that integer:
      below 2048 the integer has an encoding, and from 2048 up the half is
      an integer itself. */
  lemma TruncationExact(n: int, h: Half)
    requires RoundsTo(IntegerSign(n), AbsoluteValue(n) as real * UnitsPerOne, h)
    requires IsFinite(h) && Truncate(h) == n
    ensures SignedUnits(h) == n * 0x100_0000
  {
    RoundedSign(IntegerSign(n), AbsoluteValue(n) as real * UnitsPerOne, h);
    if AbsoluteValue(n) <= 2048 {
      SmallRounded(n, h);
    }
    TruncationArithmetic(n, h);
  }

  lemma RoundedSign(s: FloatingPointSign, x: real, h: Half)
    requires x >= 0.0 && RoundsTo(s, x, h)
    ensures Sign(h) == s && !IsNaN(h)
  {
  }

  /** An integer up to 2048 in magnitude rounds to itself. */
  lemma SmallRounded(n: int, h: Half)
    requires AbsoluteValue(n) <= 2048
    requires RoundsTo(IntegerSign(n), AbsoluteValue(n) as real * UnitsPerOne, h)
    ensures IsFinite(h) && Units(h) as real == AbsoluteValue(n) as real * UnitsPerOne
  {
    var mb := SmallIntegerReal(AbsoluteValue(n));
    NearestOfEncoding(IntegerSign(n), AbsoluteValue(n) as real * UnitsPerOne, h, mb);
  }

  /** `j` in units of 2^-24, as an integer and as a real. */
  lemma IntegerUnits(j: int)
    ensures (j * 0x100_0000) as real == j as real * UnitsPerOne
  {
  }

  lemma TruncationArithmetic(n: int, h: Half)
    requires IsFinite(h) && Sign(h) == IntegerSign(n) && Truncate(h) == n
    requires AbsoluteValue(n) <= 2048 ==> Units(h) as real == AbsoluteValue(n) as real * UnitsPerOne
    ensures SignedUnits(h) == n * 0x100_0000
  {
    var a := AbsoluteValue(n);
    var u := Units(h);
    assert u / 0x100_0000 == a;
    if a > 2048 {
      LargeIsIntegral(h);
      DivModUnique(u, 0x100_0000, a, 0);
    }
    IntegerMatch(n, h);
  }

  /** The outcome the corrected initializer stands for. */
  function AsOutcome(o: Option<Half>): Outcome
  {
    match o
    case Some(h) => Exact(h)
    case None => NotExact
  }

  /** Whenever the initializer as written does not trap, it agrees with the
      corrected one: it returns the same half, or nil when that does. */
  lemma AsWrittenAgreesUnlessTrapped(k: Kernel, t: IntegerType, n: int)
    requires Lawful(k) && InRange(t, n)
    ensures ExactlyFromIntegerAsWritten(k, t, n) != Trapped ==>
      ExactlyFromIntegerAsWritten(k, t, n) == AsOutcome(ExactlyFromInteger(k, t, n))
  {
    FromIntegerRounds(k, t, n);
    AgreementFromRounding(k, t, n);
  }

  lemma AgreementFromRounding(k: Kernel, t: IntegerType, n: int)
    requires InRange(t, n)
    requires RoundsTo(IntegerSign(n), AbsoluteValue(n) as real * UnitsPerOne, FromInteger(k, t, n))
    ensures ExactlyFromIntegerAsWritten(k, t, n) != Trapped ==>
      ExactlyFromIntegerAsWritten(k, t, n) == AsOutcome(ExactlyFromInteger(k, t, n))
  {
    var h := FromInteger(k, t, n);
    if ExactlyFromInteger(k, t, n).Some? {
      CorrectedAcceptsAsWritten(k, t, n);
    } else if ExactlyFromIntegerAsWritten(k, t, n).Exact? {
      TruncationExact(n, h);
      assert false;
    }
  }
}
