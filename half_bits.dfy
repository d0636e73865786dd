/** The bit-pattern layer of the Swift `Half` struct: the derived constants,
    the three fields of the binary16 encoding (1 sign bit, 5 exponent bits
    biased by 15, 10 trailing-significand bits, as in sections 3.4 and 3.6 of
    IEEE 754-2008), the field constructor, the classification predicates, the
    NaN-with-payload constructor and the fixed constants. */
module HalfBits {
  import opened Bitwise
  import CHalf

  datatype Option<T> = None | Some(value: T)

  /** Swift `FloatingPointSign`, whose raw values are 0 (plus) and 1 (minus). */
  datatype FloatingPointSign = Plus | Minus

  /** `FloatingPointSign(rawValue:)`: fails on any raw value but 0 and 1. */
  function SignFromRawValue(raw: Int): (r: Option<FloatingPointSign>)
    ensures r.Some? <==> raw == 0 || raw == 1
    ensures r == Some(Minus) <==> raw == 1
  {
    if raw == 0 then Some(Plus) else if raw == 1 then Some(Minus) else None
  }

  /** The `Half` struct: a wrapper around one `half_t`. */
  datatype Half = Half(value: CHalf.HalfT)

  const ExponentBitCount: Int := 5
  const SignificandBitCount: Int := 10

  /** `significandMask`: the ten trailing-significand bits. */
  const SignificandMask: UInt16 := 0x3FF
  /** `infinityExponent`: the all-ones exponent field. */
  const InfinityExponent: UInt := 0x1F
  /** `exponentBias`. */
  const ExponentBias: UInt := 15
  /** `quietNaNMask`: the first trailing-significand bit. */
  const QuietNaNMask: UInt16 := 0x200

  /** The derived constants are `1 &<< 10 - 1`, `1 &<< 5 - 1`,
      `infinityExponent &>> 1` and `1 &<< 9`, computed from the bit counts. */
  lemma DerivedConstants()
    ensures SignificandMask == ShiftLeft16(1, SignificandBitCount) - 1
    ensures InfinityExponent == ShiftLeft64(1, ExponentBitCount) - 1
    ensures ExponentBias == ShiftRight64(InfinityExponent, 1)
    ensures QuietNaNMask == ShiftLeft16(1, SignificandBitCount - 1)
  {
    Pow2Values();
  }

  /** `bitPattern`: the raw bits of the wrapped `half_t`. */
  function BitPattern(h: Half): UInt16
  {
    CHalf.ToRaw(h.value)
  }

  /** `init(bitPattern:)`. */
  function FromBitPattern(b: UInt16): (h: Half)
    ensures BitPattern(h) == b
  {
    Half(CHalf.FromRaw(b))
  }

  lemma BitPatternRoundTrip(h: Half)
    ensures FromBitPattern(BitPattern(h)) == h
  {
    CHalf.HalfRoundTrip(h.value);
  }

  /** `exponentBitPattern`: bits 14 to 10 of the bit pattern. Lemma
      ExponentBitPatternMasks ties it to the source's shift-and-mask. */
  function ExponentBitPattern(h: Half): UInt
  {
    BitPattern(h) / 0x400 % 0x20
  }

  /** `exponentBitPattern` is `UInt(bitPattern &>> 10) & infinityExponent`. */
  lemma ExponentBitPatternMasks(h: Half)
    ensures ExponentBitPattern(h)
            == And(ShiftRight16(BitPattern(h), SignificandBitCount), InfinityExponent)
  {
    Pow2Values();
    AndLowMask(ShiftRight16(BitPattern(h), SignificandBitCount), 5);
  }

  /** `significandBitPattern`: bits 9 to 0 of the bit pattern. */
  function SignificandBitPattern(h: Half): UInt16
  {
    BitPattern(h) % 0x400
  }

  /** `significandBitPattern` is `bitPattern & significandMask`. */
  lemma SignificandBitPatternMasks(h: Half)
    ensures SignificandBitPattern(h) == And(BitPattern(h), SignificandMask)
  {
    Pow2Values();
    AndLowMask(BitPattern(h), 10);
  }

  /** `sign`: `FloatingPointSign(rawValue: Int(bitPattern &>> 15))!`. The
      unwrap cannot fail: a 16-bit value shifted right by 15 is 0 or 1. */
  function Sign(h: Half): (s: FloatingPointSign)
    ensures s == Minus <==> BitPattern(h) >= 0x8000
  {
    Pow2Values();
    var shift := SignificandBitCount + ExponentBitCount;
    var raw := SignFromRawValue(ShiftRight16(BitPattern(h), shift));
    raw.value
  }

  /** Sign, exponent and significand fields placed side by side: the ORs of
      the field constructor are sums. */
  lemma ComposeFields(signBit: nat, exponentField: nat, significandField: nat)
    requires signBit <= 1 && exponentField < 0x20 && significandField < 0x400
    ensures Or(Or(signBit * 0x8000, exponentField * 0x400), significandField)
            == signBit * 0x8000 + exponentField * 0x400 + significandField
  {
    Pow2Values();
    var middle := exponentField * 0x400;
    OrShifted(signBit, middle, 15);
    var highAndMiddle := Or(signBit * 0x8000, middle);
    assert highAndMiddle == signBit * 0x8000 + middle;
    var top := signBit * 0x20 + exponentField;
    assert top * Pow2(10) == highAndMiddle;
    OrShifted(top, significandField, 10);
  }

  /** Reading the three fields back out of a pattern built from them. */
  lemma SplitFields(signBit: nat, exponentField: nat, significandField: nat)
    requires signBit <= 1 && exponentField < 0x20 && significandField < 0x400
    ensures var b := signBit * 0x8000 + exponentField * 0x400 + significandField;
            b / 0x400 % 0x20 == exponentField && b % 0x400 == significandField
            && (b >= 0x8000 <==> signBit == 1)
  {
    var b := signBit * 0x8000 + exponentField * 0x400 + significandField;
    DivModUnique(b, 0x400, signBit * 0x20 + exponentField, significandField);
    DivModUnique(signBit * 0x20 + exponentField, 0x20, signBit, exponentField);
  }

  /** Every 16-bit pattern is its three fields side by side. */
  lemma JoinFields(b: UInt16)
    ensures b == (if b >= 0x8000 then 0x8000 else 0) + b / 0x400 % 0x20 * 0x400 + b % 0x400
  {
    var q := b / 0x400;
    assert b == q * 0x400 + b % 0x400;
    assert q == q / 0x20 * 0x20 + q % 0x20;
    DivModUnique(b, 0x8000, q / 0x20, q % 0x20 * 0x400 + b % 0x400);
  }

  /** `init(sign:exponentBitPattern:significandBitPattern:)`: the exponent is
      cut to 5 bits and the significand to 10 bits, and the three fields are
      placed side by side (lemma FromFieldsIsOr: the source's ORs of masked,
      shifted fields). */
  function FromFields(sign: FloatingPointSign, exponentBitPattern: UInt, significandBitPattern: UInt16): (h: Half)
    ensures Sign(h) == sign
    ensures ExponentBitPattern(h) == exponentBitPattern % 0x20
    ensures SignificandBitPattern(h) == significandBitPattern % 0x400
  {
    var signBit := if sign == Minus then 1 else 0;
    SplitFields(signBit, exponentBitPattern % 0x20, significandBitPattern % 0x400);
    FromBitPattern(signBit * 0x8000 + exponentBitPattern % 0x20 * 0x400 + significandBitPattern % 0x400)
  }

  /** The field constructor computes `signBits | exponentBits | significandBits`,
      where `exponentBits` fits the `UInt16` conversion. */
  lemma FromFieldsIsOr(sign: FloatingPointSign, exponentBitPattern: UInt, significandBitPattern: UInt16)
    ensures var signBits := ShiftLeft16(if sign == Minus then 1 else 0, ExponentBitCount + SignificandBitCount);
            var exponentBits := ShiftLeft64(And(exponentBitPattern, InfinityExponent), SignificandBitCount);
            var significandBits := And(significandBitPattern, SignificandMask);
            exponentBits < 0x1_0000
            && BitPattern(FromFields(sign, exponentBitPattern, significandBitPattern))
               == Or(Or(signBits, exponentBits), significandBits)
  {
    var signBit := if sign == Minus then 1 else 0;
    SignBitsValue(signBit);
    ExponentBitsValue(exponentBitPattern);
    SignificandBitsValue(significandBitPattern);
    ComposeFields(signBit, exponentBitPattern % 0x20, significandBitPattern % 0x400);
  }

  lemma SignBitsValue(signBit: nat)
    requires signBit <= 1
    ensures ShiftLeft16(signBit, ExponentBitCount + SignificandBitCount) == signBit * 0x8000
  {
    assert Pow2(15) == 0x8000 by { Pow2Values(); }
    ShiftLeftBy16(signBit, 15, 0x8000);
  }

  lemma ExponentBitsValue(exponentBitPattern: UInt)
    ensures ShiftLeft64(And(exponentBitPattern, InfinityExponent), SignificandBitCount)
            == exponentBitPattern % 0x20 * 0x400
  {
    assert Pow2(10) == 0x400 && Pow2(5) == 0x20 by { Pow2Values(); }
    var field := And(exponentBitPattern, InfinityExponent);
    assert field == exponentBitPattern % 0x20 by {
      AndLowMask(exponentBitPattern, 5);
    }
    ShiftLeftBy64(field, 10, 0x400);
  }

  lemma SignificandBitsValue(significandBitPattern: UInt16)
    ensures And(significandBitPattern, SignificandMask) == significandBitPattern % 0x400
  {
    assert Pow2(10) == 0x400 by { Pow2Values(); }
    AndLowMask(significandBitPattern, 10);
  }

  /** Rebuilding a value from its own three fields gives it back. */
  lemma FieldsRoundTrip(h: Half)
    ensures FromFields(Sign(h), ExponentBitPattern(h), SignificandBitPattern(h)) == h
  {
    JoinFields(BitPattern(h));
    BitPatternRoundTrip(h);
  }

  /** `isFinite`: the exponent field is not all ones. */
  predicate IsFinite(h: Half)
  {
    ExponentBitPattern(h) < InfinityExponent
  }

  /** `isInfinite`. */
  predicate IsInfinite(h: Half)
  {
    !IsFinite(h) && SignificandBitPattern(h) == 0
  }

  /** `isNaN`. */
  predicate IsNaN(h: Half)
  {
    !IsFinite(h) && SignificandBitPattern(h) != 0
  }

  /** `isNormal`. */
  predicate IsNormal(h: Half)
  {
    ExponentBitPattern(h) > 0 && IsFinite(h)
  }

  /** `isSignalingNaN`: a NaN whose quiet bit is clear. */
  predicate IsSignalingNaN(h: Half)
  {
    IsNaN(h) && SignificandBitPattern(h) < QuietNaNMask
  }

  /** `isSubnormal`. */
  predicate IsSubnormal(h: Half)
  {
    ExponentBitPattern(h) == 0 && SignificandBitPattern(h) != 0
  }

  /** `isZero`. */
  predicate IsZero(h: Half)
  {
    ExponentBitPattern(h) == 0 && SignificandBitPattern(h) == 0
  }

  /** `isSignalingNaN` is `isNaN && (significandBitPattern & quietNaNMask) == 0`. */
  lemma SignalingNaNMasks(h: Half)
    ensures IsSignalingNaN(h) <==> IsNaN(h) && And(SignificandBitPattern(h), QuietNaNMask) == 0
  {
    QuietBit(SignificandBitPattern(h));
  }

  /** Bit 9 of a 10-bit significand is clear exactly below 0x200. */
  lemma QuietBit(s: nat)
    requires s < 0x400
    ensures And(s, QuietNaNMask) == 0 <==> s < QuietNaNMask
  {
    var p := 0x200;
    assert Pow2(9) == p by { Pow2Values(); }
    AndBit(s, 9);
    if s < p {
      DivModUnique(s, p, 0, s);
    } else {
      DivModUnique(s, p, 1, s - p);
    }
  }

  /** The five classes of the encoding. */
  datatype FloatClass = ZeroClass | SubnormalClass | NormalClass | InfiniteClass | NaNClass

  /** The class a value falls in, read from the two non-sign fields. */
  function Classify(h: Half): (c: FloatClass)
    ensures c == ZeroClass <==> IsZero(h)
    ensures c == SubnormalClass <==> IsSubnormal(h)
    ensures c == NormalClass <==> IsNormal(h)
    ensures c == InfiniteClass <==> IsInfinite(h)
    ensures c == NaNClass <==> IsNaN(h)
  {
    var e, s := ExponentBitPattern(h), SignificandBitPattern(h);
    if e == 0 then (if s == 0 then ZeroClass else SubnormalClass)
    else if e < 0x1F then NormalClass
    else if s == 0 then InfiniteClass
    else NaNClass
  }

  /** Every bit pattern satisfies exactly one classification predicate, and
      the finite ones are the zeros, subnormals and normals. */
  lemma ExactlyOneClass(h: Half)
    ensures IsZero(h) || IsSubnormal(h) || IsNormal(h) || IsInfinite(h) || IsNaN(h)
    ensures IsFinite(h) <==> IsZero(h) || IsSubnormal(h) || IsNormal(h)
    ensures !(IsZero(h) && IsSubnormal(h)) && !(IsZero(h) && IsNormal(h))
    ensures !(IsZero(h) && IsInfinite(h)) && !(IsZero(h) && IsNaN(h))
    ensures !(IsSubnormal(h) && IsNormal(h)) && !(IsSubnormal(h) && IsInfinite(h))
    ensures !(IsSubnormal(h) && IsNaN(h)) && !(IsNormal(h) && IsInfinite(h))
    ensures !(IsNormal(h) && IsNaN(h)) && !(IsInfinite(h) && IsNaN(h))
  {
    var _ := Classify(h);
  }

  /** `init(nan:signaling:)`: the payload, which must fit below the quiet
      bit's lower neighbour, gets 0x200 added for a quiet NaN or 0x100 for a
      signaling one (the source ORs them in; PayloadBelowMark shows the OR is
      this sum), under an all-ones exponent and a plus sign. */
  function NanWithPayload(payload: UInt16, signaling: bool): (h: Half)
    requires payload < ShiftRight16(QuietNaNMask, 1)
    ensures IsNaN(h) && Sign(h) == Plus
    ensures IsSignalingNaN(h) <==> signaling
    ensures SignificandBitPattern(h) % 0x100 == payload
    ensures BitPattern(h) == (if signaling then 0x7D00 else 0x7E00) + payload
  {
    MarkValue(true);
    MarkValue(signaling);
    var mark := ShiftRight16(QuietNaNMask, if signaling then 1 else 0);
    NanFields(payload, mark);
    FromFields(Plus, InfinityExponent, payload + mark)
  }

  /** The quiet mark is 0x200 and the signaling mark 0x100. */
  lemma MarkValue(signaling: bool)
    ensures ShiftRight16(QuietNaNMask, if signaling then 1 else 0) == if signaling then 0x100 else 0x200
  {
    if signaling {
      ShiftRightBy(QuietNaNMask, 1, 2);
    } else {
      ShiftRightBy(QuietNaNMask, 0, 1);
    }
  }

  lemma NanFields(payload: nat, mark: nat)
    requires payload < 0x100 && (mark == 0x100 || mark == 0x200)
    ensures var h := FromFields(Plus, InfinityExponent, payload + mark);
      IsNaN(h) && Sign(h) == Plus && (IsSignalingNaN(h) <==> mark == 0x100)
      && SignificandBitPattern(h) % 0x100 == payload
      && BitPattern(h) == 0x7C00 + mark + payload
  {
    NanSignificand(payload, mark);
    NanBitPattern(payload + mark);
  }

  lemma NanSignificand(payload: nat, mark: nat)
    requires payload < 0x100 && (mark == 0x100 || mark == 0x200)
    ensures (payload + mark) % 0x100 == payload
    ensures (payload + mark) % 0x400 == payload + mark
  {
    DivModUnique(payload + mark, 0x100, mark / 0x100, payload);
  }

  lemma NanBitPattern(f: nat)
    requires 0 < f < 0x400
    ensures var h := FromFields(Plus, InfinityExponent, f);
      IsNaN(h) && Sign(h) == Plus && SignificandBitPattern(h) == f
      && BitPattern(h) == 0x7C00 + f
  {
  }

  /** The payload and the quiet or signaling mark share no bit. */
  lemma PayloadBelowMark(payload: UInt16, signaling: bool)
    requires payload < ShiftRight16(QuietNaNMask, 1)
    ensures Or(payload, ShiftRight16(QuietNaNMask, if signaling then 1 else 0))
            == payload + if signaling then 0x100 else 0x200
  {
    Pow2Values();
    var mark := ShiftRight16(QuietNaNMask, if signaling then 1 else 0);
    var m := if signaling then 1 else 2;
    assert mark == m * Pow2(8);
    AndShiftedDisjoint(m, payload, 8);
    AndCommutes(payload, mark);
    OrDisjoint(payload, mark);
  }

  /** `greatestFiniteMagnitude`: 0x7BFF. */
  function GreatestFiniteMagnitude(): (h: Half)
    ensures IsNormal(h) && Sign(h) == Plus
    ensures ExponentBitPattern(h) == 0x1E && SignificandBitPattern(h) == 0x3FF
  {
    FromBitPattern(0x7BFF)
  }

  /** `infinity`: 0x7C00. */
  function Infinity(): (h: Half)
    ensures IsInfinite(h) && Sign(h) == Plus
  {
    FromBitPattern(0x7C00)
  }

  /** `leastNonzeroMagnitude` off ARM: exponent field 0, significand 1. */
  function LeastNonzeroMagnitude(): (h: Half)
    ensures IsSubnormal(h) && Sign(h) == Plus && BitPattern(h) == 0x0001
  {
    FromFields(Plus, 0, 1)
  }

  /** `leastNormalMagnitude`: exponent field 1, significand 0. */
  function LeastNormalMagnitude(): (h: Half)
    ensures IsNormal(h) && Sign(h) == Plus && BitPattern(h) == 0x0400
  {
    FromFields(Plus, 1, 0)
  }

  /** `nan`: the wrapped `_half_nan`, a quiet NaN. */
  function Nan(): (h: Half)
    ensures IsNaN(h) && !IsSignalingNaN(h) && Sign(h) == Plus && BitPattern(h) == 0x7E00
  {
    Half(CHalf.Nan())
  }

  /** `signalingNaN`: `init(nan: 0, signaling: true)`. */
  function SignalingNaN(): (h: Half)
    ensures IsSignalingNaN(h) && Sign(h) == Plus && BitPattern(h) == 0x7D00
  {
    Pow2Values();
    NanWithPayload(0, true)
  }

  /** `magnitude`: the wrapped `_half_abs`. */
  function Magnitude(h: Half): (r: Half)
    ensures Sign(r) == Plus
    ensures ExponentBitPattern(r) == ExponentBitPattern(h)
    ensures SignificandBitPattern(r) == SignificandBitPattern(h)
  {
    var r := Half(CHalf.Abs(h.value));
    var b := BitPattern(h);
    CHalf.AbsKeepsNonSignBits(h.value);
    JoinFields(b);
    SplitFields(0, b / 0x400 % 0x20, b % 0x400);
    r
  }

  /** Clearing the sign bit keeps the class, the signaling flag included. */
  lemma MagnitudeKeepsClass(h: Half)
    ensures Classify(Magnitude(h)) == Classify(h)
    ensures IsSignalingNaN(Magnitude(h)) <==> IsSignalingNaN(h)
  {
  }
}
