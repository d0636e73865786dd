/** The floating-point arithmetic of `half.h`: additions, products,
    negation and conversions computed by the compiler's `__fp16` support.
    Their numerics are not modelled; a `Kernel` value supplies them, and
    `Lawful` states the few IEEE 754 facts the `Half` layer relies on:
    conversions round to nearest, adding +0 returns the value (turning -0
    into +0), and `_half_neg`, written `0.0 - x`, is exact. The sign-flip
    negation that IEEE 754 calls `negate` (section 5.5.1) is defined here
    too, for comparison with `_half_neg`. */
module Kernel {
  import opened Bitwise
  import CHalf
  import opened HalfBits
  import opened HalfValue

  type NonNegativeReal = r: real | r >= 0.0

  /** The arithmetic entry points of `half.h`. */
  datatype Kernel = Kernel(
    add: (CHalf.HalfT, CHalf.HalfT) -> CHalf.HalfT,
    mul: (CHalf.HalfT, CHalf.HalfT) -> CHalf.HalfT,
    neg: CHalf.HalfT -> CHalf.HalfT,
    fromInt: Int -> CHalf.HalfT,
    fromUInt: UInt -> CHalf.HalfT,
    fromFloat: (FloatingPointSign, NonNegativeReal) -> CHalf.HalfT)

  /** 2^24 units make 1. */
  const UnitsPerOne: real := 16777216.0
  /** Magnitudes from 65520 (halfway between 65504 and 2^16) up round to
      infinity. */
  const OverflowUnits: real := 65520.0 * UnitsPerOne

  function Distance(a: real, b: real): (d: real)
    ensures d >= 0.0 && (d == a - b || d == b - a)
  {
    if a >= b then a - b else b - a
  }

  /** Positive zero. */
  function Zero(): (h: Half)
    ensures IsZero(h) && Sign(h) == Plus
  {
    FromBitPattern(0)
  }

  /** `r` is what round-to-nearest makes of the value of sign `sign` and
      magnitude `units * 2^-24`: from 65520 up it is the infinity of that
      sign, below that a finite value of that sign at least as close as any
      other finite value. */
  ghost predicate RoundsTo(sign: FloatingPointSign, units: real, r: Half)
    requires units >= 0.0
  {
    !IsNaN(r) && Sign(r) == sign
    && if units >= OverflowUnits then IsInfinite(r)
       else IsFinite(r)
            && forall c: Half {:trigger Units(c)} :: IsFinite(c) ==>
                 Distance(Units(r) as real, units) <= Distance(Units(c) as real, units)
  }

  /** The sign of an integer, zero counting as plus. */
  function IntegerSign(n: int): FloatingPointSign
  {
    if n < 0 then Minus else Plus
  }

  function AbsoluteValue(n: int): (a: nat)
    ensures a == n || a == -n
  {
    if n < 0 then -n else n
  }

  /** `_half_from` on integers and on finite `Float`s rounds to nearest. */
  ghost predicate RoundingLaws(k: Kernel)
  {
    (forall n: Int :: RoundsTo(IntegerSign(n), AbsoluteValue(n) as real * UnitsPerOne, Half(k.fromInt(n))))
    && (forall n: UInt :: RoundsTo(Plus, n as real * UnitsPerOne, Half(k.fromUInt(n))))
    && (forall s: FloatingPointSign, m: NonNegativeReal ::
          RoundsTo(s, m * UnitsPerOne, Half(k.fromFloat(s, m))))
  }

  /** `x + 0` is `x`, except that -0 + +0 is +0, and a NaN stays a NaN. */
  ghost predicate AddZeroLaw(k: Kernel)
  {
    forall x: CHalf.HalfT ::
      var r := Half(k.add(x, Zero().value));
      if IsNaN(Half(x)) then IsNaN(r)
      else r == if IsZero(Half(x)) then Zero() else Half(x)
  }

  /** `0.0 - x`, computed exactly in `double` and narrowed back: the sign of
      every non-zero value flips, and both zeros give +0. */
  ghost predicate NegationLaw(k: Kernel)
  {
    forall x: CHalf.HalfT ::
      var r := Half(k.neg(x));
      if IsNaN(Half(x)) then IsNaN(r)
      else r == if IsZero(Half(x)) then Zero() else Negate(Half(x))
  }

  ghost predicate Lawful(k: Kernel)
  {
    RoundingLaws(k) && AddZeroLaw(k) && NegationLaw(k)
  }

  /** `+` (`_half_add`). */
  function Add(k: Kernel, a: Half, b: Half): Half
  {
    Half(k.add(a.value, b.value))
  }

  /** `*` (`_half_mul`). */
  function Multiply(k: Kernel, a: Half, b: Half): Half
  {
    Half(k.mul(a.value, b.value))
  }

  /** `init(_ value: Int)`, and the integer literals, which go through it. */
  function FromInt(k: Kernel, n: Int): Half
  {
    Half(k.fromInt(n))
  }

  /** `init(_ value: Float)` on a finite value, and the float literals,
      which go through it: `_half_from` on a `float`. */
  function FromFloat(k: Kernel, sign: FloatingPointSign, magnitude: NonNegativeReal): Half
  {
    Half(k.fromFloat(sign, magnitude))
  }

  /** `ulpOfOne`: `_half_epsilon`, the `__fp16` constant 0x1p-10, which the
      compiler encodes exactly as 0x1400. */
  function UlpOfOne(): (h: Half)
    ensures IsNormal(h) && Sign(h) == Plus
    ensures ExponentBitPattern(h) == 5 && SignificandBitPattern(h) == 0
  {
    FromBitPattern(0x1400)
  }

  /** IEEE 754 `negate`: the sign bit flips and nothing else changes. */
  function Negate(h: Half): (r: Half)
    ensures Sign(r) != Sign(h)
    ensures MagnitudeBits(r) == MagnitudeBits(h)
    ensures Classify(r) == Classify(h)
    ensures IsSignalingNaN(r) <==> IsSignalingNaN(h)
  {
    var b := BitPattern(h);
    var r := FromBitPattern(if b >= 0x8000 then b - 0x8000 else b + 0x8000);
    SignAndMagnitude(h);
    SignAndMagnitude(r);
    MagnitudeFields(h);
    MagnitudeFields(r);
    r
  }

  /** Negating twice gives the value back. */
  lemma NegateInvolutive(h: Half)
    ensures Negate(Negate(h)) == h
  {
    BitPatternRoundTrip(h);
  }

  /** Negation mirrors values: the rank changes sign. */
  lemma NegateRank(h: Half)
    requires !IsNaN(h)
    ensures Rank(Negate(h)) == -Rank(h)
  {
  }

  /** Prefix `-`, as written: `_half_neg`. */
  function KernelNegate(k: Kernel, h: Half): Half
  {
    Half(k.neg(h.value))
  }

  /** `-(+0)` is +0 under `_half_neg`, where IEEE `negate` gives -0. */
  lemma KernelNegateOfZero(k: Kernel)
    requires Lawful(k)
    ensures KernelNegate(k, Zero()) == Zero()
    ensures Sign(KernelNegate(k, Zero())) == Plus && Sign(Negate(Zero())) == Minus
  {
    assert NegationLaw(k);
    var x := Zero().value;
    assert Half(x) == Zero();
  }

  /** On everything but the zeros and the NaNs, `_half_neg` is `negate`. */
  lemma KernelNegateAgrees(k: Kernel, h: Half)
    requires Lawful(k) && !IsNaN(h) && !IsZero(h)
    ensures KernelNegate(k, h) == Negate(h)
  {
    assert NegationLaw(k);
    assert Half(h.value) == h;
  }

  /** The integer 0 converts to +0. */
  lemma FromIntZero(k: Kernel)
    requires Lawful(k)
    ensures FromInt(k, 0) == Zero()
  {
    var zero: Int := 0;
    IntRounds(k, zero);
    NearestIntegerZero(zero, FromInt(k, zero));
  }

  lemma NearestIntegerZero(n: Int, r: Half)
    requires n == 0 && RoundsTo(IntegerSign(n), AbsoluteValue(n) as real * UnitsPerOne, r)
    ensures r == Zero()
  {
    assert IntegerSign(n) == Plus && AbsoluteValue(n) == 0;
    SameRounding(IntegerSign(n), AbsoluteValue(n) as real * UnitsPerOne, Plus, 0.0, r);
    NearestZero(r);
  }

  /** Rounding depends only on the sign and the magnitude rounded. */
  lemma SameRounding(s: FloatingPointSign, x: real, t: FloatingPointSign, y: real, r: Half)
    requires x >= 0.0 && RoundsTo(s, x, r) && s == t && x == y
    ensures RoundsTo(t, y, r)
  {
  }

  /** `_half_from` on an `Int` rounds to nearest. */
  lemma IntRounds(k: Kernel, n: Int)
    requires RoundingLaws(k)
    ensures RoundsTo(IntegerSign(n), AbsoluteValue(n) as real * UnitsPerOne, FromInt(k, n))
  {
  }

  /** The value nearest +0 with a plus sign is +0. */
  lemma NearestZero(r: Half)
    requires RoundsTo(Plus, 0.0, r)
    ensures r == Zero()
  {
    var z := Zero();
    MagnitudeFields(z);
    assert Distance(Units(r) as real, 0.0) <= Distance(Units(z) as real, 0.0);
    MagnitudeFields(r);
    UnitsOrder(0, MagnitudeBits(r));
    SignAndMagnitude(r);
    BitPatternRoundTrip(r);
  }

  /** Adding the literal 0 keeps every non-NaN value but -0, which becomes
      +0, and keeps a NaN a NaN. */
  lemma AddLiteralZero(k: Kernel, h: Half)
    requires Lawful(k)
    ensures IsNaN(h) ==> IsNaN(Add(k, h, FromInt(k, 0)))
    ensures !IsNaN(h) ==> Add(k, h, FromInt(k, 0)) == if IsZero(h) then Zero() else h
  {
    FromIntZero(k);
    assert AddZeroLaw(k);
    assert Half(h.value) == h;
  }
}
