/** What a binary16 encoding stands for. Every finite value is an integer
    multiple of 2^-24 (the least subnormal), so a finite magnitude is given
    exactly by a natural number of such units. The order of the encodings,
    and the IEEE comparisons `==` and `<` that `half.h` takes from the
    compiler's `__fp16`, are defined on those units. */
module HalfValue {
  import opened Bitwise
  import opened HalfBits

  /** Units of the largest finite magnitude, 65504 * 2^24. */
  const MaxFiniteUnits: nat := 0x7FF * 0x2000_0000
  /** A rank above every finite magnitude, standing for infinity. */
  const InfinityUnits: nat := 0x1_0000_0000_0000

  /** The 15 bits below the sign: exponent field, then significand field. */
  function MagnitudeBits(h: Half): (m: nat)
    ensures m < 0x8000
  {
    BitPattern(h) % 0x8000
  }

  lemma MagnitudeFields(h: Half)
    ensures MagnitudeBits(h) / 0x400 == ExponentBitPattern(h)
    ensures MagnitudeBits(h) % 0x400 == SignificandBitPattern(h)
    ensures IsFinite(h) <==> MagnitudeBits(h) < 0x7C00
    ensures IsInfinite(h) <==> MagnitudeBits(h) == 0x7C00
    ensures IsZero(h) <==> MagnitudeBits(h) == 0
  {
    var b := BitPattern(h);
    JoinFields(b);
    var s := if b >= 0x8000 then 1 else 0;
    DivModUnique(b, 0x8000, s, b / 0x400 % 0x20 * 0x400 + b % 0x400);
    DivModUnique(MagnitudeBits(h), 0x400, b / 0x400 % 0x20, b % 0x400);
  }

  /** A bit pattern is its sign bit plus its magnitude bits. */
  lemma SignAndMagnitude(h: Half)
    ensures BitPattern(h) == (if Sign(h) == Minus then 0x8000 else 0) + MagnitudeBits(h)
  {
    var b := BitPattern(h);
    DivModUnique(b, 0x8000, if b >= 0x8000 then 1 else 0, if b >= 0x8000 then b - 0x8000 else b);
  }

  /** The magnitude, in units of 2^-24, of the finite 15-bit magnitude `m`:
      `(1024 + f) * 2^(e-1)` for a normal and `f` for a subnormal or zero. */
  function MagnitudeUnits(m: nat): nat
    requires m < 0x7C00
  {
    var e, f := m / 0x400, m % 0x400;
    if e == 0 then f else (0x400 + f) * Pow2(e - 1)
  }

  /** The next encoding up is a strictly larger magnitude. */
  lemma {:induction false} UnitsStep(m: nat)
    requires m + 1 < 0x7C00
    ensures MagnitudeUnits(m) < MagnitudeUnits(m + 1)
  {
    var e, f := m / 0x400, m % 0x400;
    if f < 0x3FF {
      DivModUnique(m + 1, 0x400, e, f + 1);
      if e > 0 {
        var p := Pow2(e - 1);
        assert (0x400 + f + 1) * p == (0x400 + f) * p + p;
      }
    } else {
      DivModUnique(m + 1, 0x400, e + 1, 0);
      if e > 0 {
        var p := Pow2(e - 1);
        assert MagnitudeUnits(m + 1) == 0x400 * (2 * p);
        assert MagnitudeUnits(m) == 0x7FF * p;
      }
    }
  }

  /** Magnitude units grow strictly with the 15-bit magnitude. */
  lemma {:induction false} UnitsMonotone(a: nat, b: nat)
    requires a < b < 0x7C00
    ensures MagnitudeUnits(a) < MagnitudeUnits(b)
    decreases b - a
  {
    UnitsStep(a);
    if a + 1 < b {
      UnitsMonotone(a + 1, b);
    }
  }

  /** So comparing units is comparing magnitudes, both ways. */
  lemma UnitsOrder(a: nat, b: nat)
    requires a < 0x7C00 && b < 0x7C00
    ensures a < b <==> MagnitudeUnits(a) < MagnitudeUnits(b)
    ensures a == b <==> MagnitudeUnits(a) == MagnitudeUnits(b)
  {
    if a < b {
      UnitsMonotone(a, b);
    } else if b < a {
      UnitsMonotone(b, a);
    }
  }

  /** The largest finite magnitude is 65504. */
  lemma MaxFiniteUnitsValue()
    ensures MagnitudeUnits(0x7BFF) == MaxFiniteUnits
    ensures MaxFiniteUnits == 65504 * 0x100_0000
  {
    Pow2Values();
    Pow2Add(15, 14);
  }

  lemma UnitsAtMostMax(m: nat)
    requires m < 0x7C00
    ensures MagnitudeUnits(m) <= MaxFiniteUnits
  {
    MaxFiniteUnitsValue();
    if m < 0x7BFF {
      UnitsMonotone(m, 0x7BFF);
    }
  }

  /** The magnitude of a finite value in units of 2^-24; its value is
      `Units(h) * 2^-24`, negated when the sign is minus. */
  function Units(h: Half): (u: nat)
    requires IsFinite(h)
    ensures u <= MaxFiniteUnits
  {
    MagnitudeFields(h);
    UnitsAtMostMax(MagnitudeBits(h));
    MagnitudeUnits(MagnitudeBits(h))
  }

  /** A normal value is `1.f * 2^(e - 15)`: `(1024 + f) * 2^(e - 1)` units
      (section 3.4 of IEEE 754-2008). */
  lemma NormalUnits(h: Half)
    requires IsNormal(h)
    ensures Units(h) == (0x400 + SignificandBitPattern(h)) * Pow2(ExponentBitPattern(h) - 1)
  {
    MagnitudeFields(h);
  }

  /** A normal value with an empty significand field is the power of two
      `2^(e - 15)`, which is `2^(e + 9)` units. */
  lemma PowerOfTwoUnits(h: Half)
    requires IsNormal(h) && SignificandBitPattern(h) == 0
    ensures Units(h) == Pow2(ExponentBitPattern(h) + 9)
  {
    NormalUnits(h);
    var p: nat := ExponentBitPattern(h) - 1;
    Pow2Values();
    Pow2Add(10, p);
  }

  /** A subnormal or zero value is `0.f * 2^-14`: `f` units. */
  lemma SubnormalUnits(h: Half)
    requires IsFinite(h) && !IsNormal(h)
    ensures Units(h) == SignificandBitPattern(h)
  {
    MagnitudeFields(h);
  }

  /** The units of a magnitude of at most infinity's. */
  function RankUnits(m: nat): (u: nat)
    requires m <= 0x7C00
  {
    if m == 0x7C00 then InfinityUnits else MagnitudeUnits(m)
  }

  lemma RankUnitsOrder(a: nat, b: nat)
    requires a <= 0x7C00 && b <= 0x7C00
    ensures a < b <==> RankUnits(a) < RankUnits(b)
    ensures a == b <==> RankUnits(a) == RankUnits(b)
  {
    MaxFiniteUnitsValue();
    if a < 0x7C00 && b < 0x7C00 {
      UnitsOrder(a, b);
    } else if a < 0x7C00 {
      UnitsOrder(a, 0x7BFF);
    } else if b < 0x7C00 {
      UnitsOrder(b, 0x7BFF);
    }
  }

  /** The position of a non-NaN encoding on the number line of encodings:
      the magnitude bits, negated for a minus sign, so both zeros are 0 and
      the infinities are -0x7C00 and 0x7C00. */
  function Ordinal(h: Half): (o: int)
    requires !IsNaN(h)
    ensures -0x7C00 <= o <= 0x7C00
  {
    MagnitudeFields(h);
    var m: int := MagnitudeBits(h);
    if Sign(h) == Minus then -m else m
  }

  /** The value of a non-NaN encoding in units of 2^-24, infinities being
      given a rank beyond every finite value. */
  function Rank(h: Half): int
    requires !IsNaN(h)
  {
    MagnitudeFields(h);
    var u: int := RankUnits(MagnitudeBits(h));
    if Sign(h) == Minus then -u else u
  }

  /** The rank grows strictly with the ordinal: the encoding order is the
      order of values. */
  lemma OrdinalOrder(a: Half, b: Half)
    requires !IsNaN(a) && !IsNaN(b)
    ensures Ordinal(a) < Ordinal(b) <==> Rank(a) < Rank(b)
    ensures Ordinal(a) == Ordinal(b) <==> Rank(a) == Rank(b)
  {
    MagnitudeFields(a);
    MagnitudeFields(b);
    var ma, mb := MagnitudeBits(a), MagnitudeBits(b);
    RankUnitsOrder(ma, mb);
    RankUnitsOrder(0, ma);
    RankUnitsOrder(0, mb);
  }

  /** Two non-NaN encodings have the same ordinal exactly when they are the
      same encoding or both are zeros. */
  lemma OrdinalSame(a: Half, b: Half)
    requires !IsNaN(a) && !IsNaN(b)
    ensures Ordinal(a) == Ordinal(b) <==> a == b || (IsZero(a) && IsZero(b))
  {
    MagnitudeFields(a);
    MagnitudeFields(b);
    if Ordinal(a) == Ordinal(b) && !(IsZero(a) && IsZero(b)) {
      SignAndMagnitude(a);
      SignAndMagnitude(b);
      BitPatternRoundTrip(a);
      BitPatternRoundTrip(b);
    }
  }

  /** `_half_equal`: IEEE equality, false whenever a NaN is involved. */
  predicate Equal(a: Half, b: Half)
  {
    !IsNaN(a) && !IsNaN(b) && Rank(a) == Rank(b)
  }

  /** `_half_lt`: IEEE less-than, false whenever a NaN is involved. */
  predicate Less(a: Half, b: Half)
  {
    !IsNaN(a) && !IsNaN(b) && Rank(a) < Rank(b)
  }

  /** `_half_lte`: IEEE less-than-or-equal. */
  predicate LessOrEqual(a: Half, b: Half)
  {
    !IsNaN(a) && !IsNaN(b) && Rank(a) <= Rank(b)
  }

  /** Equality of values is equality of encodings, except that the two zeros
      are equal and a NaN equals nothing. */
  lemma EqualIffSameEncoding(a: Half, b: Half)
    ensures Equal(a, b) <==> !IsNaN(a) && (a == b || (IsZero(a) && IsZero(b)))
  {
    if !IsNaN(a) && !IsNaN(b) {
      OrdinalOrder(a, b);
      OrdinalSame(a, b);
    }
  }

  /** Less-than on values is less-than on ordinals. */
  lemma LessIffOrdinal(a: Half, b: Half)
    requires !IsNaN(a) && !IsNaN(b)
    ensures Less(a, b) <==> Ordinal(a) < Ordinal(b)
    ensures LessOrEqual(a, b) <==> Ordinal(a) <= Ordinal(b)
  {
    OrdinalOrder(a, b);
  }

  /** Exactly the non-NaN values other than +infinity are below +infinity. */
  lemma BelowInfinity(h: Half)
    ensures Less(h, Infinity()) <==> !IsNaN(h) && h != Infinity()
  {
    var inf := Infinity();
    MagnitudeFields(inf);
    if !IsNaN(h) {
      LessIffOrdinal(h, inf);
      OrdinalSame(h, inf);
    }
  }
}
