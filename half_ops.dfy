/** The queries of `Half` that work on the encoding: `nextUp`, `exponent`,
    `significand`, `significandWidth`, `binade` and the hash key. The
    arithmetic they call (`self + 0`, `*`, prefix `-`) is the kernel's. */
module HalfOps {
  import opened Bitwise
  import opened HalfBits
  import opened HalfValue
  import opened Kernel

  // ---------------------------------------------------------------- nextUp

  /** The increment of the `nextUp` trick: `Int16(bitPattern: b) &>> 15 | 1`
      as a bit pattern, which is 1 when the sign bit is clear and -1 (all
      ones) when it is set. */
  function Increment(b: UInt16): UInt16
  {
    Int16Bits(OrInt16(ShiftRightInt16(Int16FromBits(b), 15), 1))
  }

  lemma IncrementValue(b: UInt16)
    ensures Increment(b) == if b >= 0x8000 then 0xFFFF else 1
  {
    Pow2Values();
    var x := Int16FromBits(b);
    var s := ShiftRightInt16(x, 15);
    if b >= 0x8000 {
      var y: nat := -(x as int) - 1;
      DivModUnique(y, 0x8000, 0, y);
      assert s == -1;
      var m := Int16Bits(s);
      assert m == 0xFFFF;
      OrOne(m);
      assert Or(m, 1) == 0xFFFF;
    } else {
      DivModUnique(x, 0x8000, 0, x);
      assert s == 0;
      var m := Int16Bits(s);
      assert m == 0;
      OrOne(m);
    }
  }

  /** `nextUp`: `self + 0` first turns -0 into +0; below +infinity the bit
      pattern then moves one step away from the sign (`&+` the increment,
      wrapping at 16 bits), and otherwise `self + 0` is the result. */
  function NextUp(k: Kernel, h: Half): Half
  {
    var next := Add(k, h, FromInt(k, 0));
    StepUp(next, Less(next, Infinity()))
  }

  /** The step `nextUp` takes from `next`, the value of `self + 0`, given
      whether `next` is below +infinity. */
  function StepUp(next: Half, belowInfinity: bool): Half
  {
    if belowInfinity then
      var b := BitPattern(next);
      FromBitPattern((b + Increment(b)) % 0x1_0000)
    else
      next
  }

  /** Adding the increment steps a pattern below +infinity one encoding
      away from its sign. */
  lemma StepBits(b: UInt16)
    requires b < 0x7C00 || b >= 0x8000
    ensures (b + Increment(b)) % 0x1_0000 == if b >= 0x8000 then b - 1 else b + 1
  {
    IncrementValue(b);
    if b >= 0x8000 {
      DivModUnique(b + 0xFFFF, 0x1_0000, 1, b - 1);
    }
  }

  /** On the bit pattern: -0 and +0 go to 0x0001, a positive value one
      encoding up and a negative one one encoding down; +infinity and the
      NaNs stay where they are in class. */
  lemma NextUpBits(k: Kernel, h: Half)
    requires Lawful(k)
    ensures IsNaN(h) ==> IsNaN(NextUp(k, h))
    ensures h == Infinity() ==> NextUp(k, h) == Infinity()
    ensures !IsNaN(h) && h != Infinity() ==>
      BitPattern(NextUp(k, h)) ==
        if IsZero(h) then 1
        else if Sign(h) == Plus then BitPattern(h) + 1
        else BitPattern(h) - 1
  {
    AddLiteralZero(k, h);
    NextUpFromSum(k, h, Add(k, h, FromInt(k, 0)));
  }

  /** The same, from what `self + 0` gives. */
  lemma NextUpFromSum(k: Kernel, h: Half, next: Half)
    requires next == Add(k, h, FromInt(k, 0))
    requires IsNaN(h) ==> IsNaN(next)
    requires !IsNaN(h) ==> next == if IsZero(h) then Zero() else h
    ensures IsNaN(h) ==> IsNaN(NextUp(k, h))
    ensures h == Infinity() ==> NextUp(k, h) == Infinity()
    ensures !IsNaN(h) && h != Infinity() ==>
      BitPattern(NextUp(k, h)) ==
        if IsZero(h) then 1
        else if Sign(h) == Plus then BitPattern(h) + 1
        else BitPattern(h) - 1
  {
    BelowInfinity(next);
    if !IsNaN(h) && h != Infinity() {
      RegularBits(next);
      NextUpPattern(next);
      NextUpRegular(h, next, NextUp(k, h));
    } else {
      NextUpKeeps(k, h, next);
    }
  }

  /** A NaN or +infinity from `self + 0` is the result as it is. */
  lemma NextUpKeeps(k: Kernel, h: Half, next: Half)
    requires next == Add(k, h, FromInt(k, 0)) && (IsNaN(next) || next == Infinity())
    ensures NextUp(k, h) == next
  {
    BelowInfinity(next);
  }

  /** Below +infinity, `nextUp` steps the pattern of `self + 0`. */
  lemma NextUpPattern(next: Half)
    requires BitPattern(next) < 0x7C00 || BitPattern(next) >= 0x8000
    ensures BitPattern(StepUp(next, true)) ==
      if BitPattern(next) >= 0x8000 then BitPattern(next) - 1 else BitPattern(next) + 1
  {
    StepBits(BitPattern(next));
  }

  lemma NextUpRegular(h: Half, next: Half, r: Half)
    requires !IsNaN(h) && h != Infinity()
    requires next == if IsZero(h) then Zero() else h
    requires BitPattern(r) == if BitPattern(next) >= 0x8000 then BitPattern(next) - 1 else BitPattern(next) + 1
    ensures BitPattern(r) ==
        if IsZero(h) then 1
        else if Sign(h) == Plus then BitPattern(h) + 1
        else BitPattern(h) - 1
  {
    if IsZero(h) {
      assert BitPattern(next) == 0;
    } else {
      assert BitPattern(next) == BitPattern(h);
    }
  }

  /** A value that is neither a NaN nor +infinity has a pattern below that
      of +infinity or a minus sign. */
  lemma RegularBits(x: Half)
    requires Less(x, Infinity())
    ensures BitPattern(x) < 0x7C00 || BitPattern(x) >= 0x8000
  {
    BelowInfinity(x);
    SignAndMagnitude(x);
    MagnitudeFields(x);
    PatternInjective(x, Infinity());
  }

  /** The next value up from any non-NaN value but +infinity is one step
      along the encoding order. */
  lemma NextUpOrdinal(k: Kernel, h: Half)
    requires Lawful(k) && !IsNaN(h) && h != Infinity()
    ensures !IsNaN(NextUp(k, h))
    ensures Ordinal(NextUp(k, h)) == Ordinal(h) + 1
  {
    NextUpBits(k, h);
    OrdinalStep(h, NextUp(k, h));
  }

  /** Stepping the bit pattern as `nextUp` does adds one to the ordinal. */
  lemma OrdinalStep(h: Half, r: Half)
    requires !IsNaN(h) && h != Infinity()
    requires BitPattern(r) ==
        if IsZero(h) then 1
        else if Sign(h) == Plus then BitPattern(h) + 1
        else BitPattern(h) - 1
    ensures !IsNaN(r) && Ordinal(r) == Ordinal(h) + 1
  {
    SignAndMagnitude(h);
    SignAndMagnitude(r);
    MagnitudeFields(h);
    MagnitudeFields(r);
    MagnitudeFields(Infinity());
  }

  /** `nextUp` is the successor: the least value greater than `h`. */
  lemma NextUpIsSuccessor(k: Kernel, h: Half, c: Half)
    requires Lawful(k) && !IsNaN(h) && h != Infinity() && !IsNaN(c)
    ensures Less(h, NextUp(k, h))
    ensures Less(h, c) <==> LessOrEqual(NextUp(k, h), c)
  {
    NextUpOrdinal(k, h);
    var r := NextUp(k, h);
    LessIffOrdinal(h, r);
    LessIffOrdinal(h, c);
    LessIffOrdinal(r, c);
  }

  /** Three edge cases of `nextUp`: 65504 goes to +infinity, the negative
      least subnormal to -0 and -infinity to -65504. */
  lemma NextUpExamples(k: Kernel)
    requires Lawful(k)
    ensures NextUp(k, FromBitPattern(0x7BFF)) == Infinity()
    ensures NextUp(k, FromBitPattern(0x8001)) == FromBitPattern(0x8000)
    ensures NextUp(k, FromBitPattern(0xFC00)) == FromBitPattern(0xFBFF)
  {
    NextUpStep(k, 0x7BFF, 0x7C00);
    NextUpStep(k, 0x8001, 0x8000);
    NextUpStep(k, 0xFC00, 0xFBFF);
  }

  /** One step of `nextUp` away from zero on a concrete pattern. */
  lemma NextUpStep(k: Kernel, b: UInt16, r: UInt16)
    requires Lawful(k)
    requires (0 < b < 0x7C00 && r == b + 1) || (0x8000 < b <= 0xFC00 && r == b - 1)
    ensures NextUp(k, FromBitPattern(b)) == FromBitPattern(r)
  {
    var h := FromBitPattern(b);
    StepClass(b, r);
    NextUpBits(k, h);
    BitPatternRoundTrip(NextUp(k, h));
  }

  lemma StepClass(b: UInt16, r: UInt16)
    requires (0 < b < 0x7C00 && r == b + 1) || (0x8000 < b <= 0xFC00 && r == b - 1)
    ensures var h := FromBitPattern(b);
      !IsNaN(h) && h != Infinity() && !IsZero(h) && BitPattern(h) == b
      && r == if Sign(h) == Plus then b + 1 else b - 1
  {
    var h := FromBitPattern(b);
    MagnitudeFields(h);
    MagnitudeFields(Infinity());
  }

  // ------------------------------------------------- exponent, significand

  /** `exponent`: `Int.max` for infinities and NaNs, `Int.min` for zeros,
      the unbiased exponent field for normals, and for subnormals that of
      the highest set significand bit, `-24 + log2(significand field)`. */
  function Exponent(h: Half): (e: Int)
    ensures !IsFinite(h) ==> e == IntMax
    ensures IsZero(h) ==> e == IntMin
    ensures IsNormal(h) ==> -14 <= e <= 15
    ensures IsSubnormal(h) ==> -24 <= e <= -15
  {
    if !IsFinite(h) then IntMax
    else if IsZero(h) then IntMin
    else
      var provisional := ExponentBitPattern(h) as int - ExponentBias as int;
      if IsNormal(h) then provisional
      else
        LogBelowTen(SignificandBitPattern(h));
        var shift := SignificandBitCount - BinaryLogarithm(SignificandBitPattern(h));
        provisional + 1 - shift
  }

  /** The exponent places a finite non-zero magnitude between two powers of
      two: `2^e <= |h| < 2^(e+1)`, in units of 2^-24. */
  lemma ExponentBrackets(h: Half)
    requires IsFinite(h) && !IsZero(h)
    ensures Exponent(h) + 24 >= 0
    ensures Pow2(Exponent(h) + 24) <= Units(h) < Pow2(Exponent(h) + 25)
  {
    MagnitudeFields(h);
    var e, f := ExponentBitPattern(h), SignificandBitPattern(h);
    if IsNormal(h) {
      Pow2Values();
      assert Pow2(11) == 0x800;
      NormalUnits(h);
      ScaledBracket(0x400 + f, e - 1, 10);
    } else {
      SubnormalUnits(h);
    }
  }

  /** `significand`: a NaN is returned as is; a finite non-zero value gives
      the value in [1, 2) with its significand bits (a subnormal's shifted up
      to the implicit bit); a zero or an infinity gives the same class with
      the sign dropped. */
  function Significand(h: Half): (r: Half)
    ensures IsNaN(h) ==> r == h
    ensures IsFinite(h) && !IsZero(h) ==>
      IsNormal(r) && Sign(r) == Plus && ExponentBitPattern(r) == ExponentBias
  {
    if IsNaN(h) then h
    else if IsNormal(h) then
      InUnitBinade(SignificandBitPattern(h))
    else if IsSubnormal(h) then
      var shift := SignificandBitCount - BinaryLogarithm(SignificandBitPattern(h));
      InUnitBinade(ShiftLeft16(SignificandBitPattern(h), shift))
    else
      var e := ExponentBitPattern(h);
      FromFields(Plus, e, 0)
  }

  /** The positive value in [1, 2) with significand field `s & 0x3FF`:
      `Half(sign: .plus, exponentBitPattern: exponentBias,
      significandBitPattern: s)`. */
  function InUnitBinade(s: UInt16): (r: Half)
    ensures IsNormal(r) && Sign(r) == Plus && ExponentBitPattern(r) == ExponentBias
    ensures SignificandBitPattern(r) == s % 0x400
  {
    var r := FromFields(Plus, ExponentBias, s);
    assert ExponentBitPattern(r) == ExponentBias by {
      DivModUnique(ExponentBias, 0x20, 0, ExponentBias);
    }
    r
  }

  /** The significand of a zero is +0, and of an infinity +infinity. */
  lemma SignificandOfZeroOrInfinity(h: Half)
    requires IsZero(h) || IsInfinite(h)
    ensures IsZero(h) ==> IsZero(Significand(h)) && Sign(Significand(h)) == Plus
    ensures IsInfinite(h) ==> IsInfinite(Significand(h)) && Sign(Significand(h)) == Plus
  {
    var e := ExponentBitPattern(h);
    assert e == 0 || e == 0x1F;
    var r := FromFields(Plus, e, 0);
    assert Significand(h) == r;
    assert ExponentBitPattern(r) == e && SignificandBitPattern(r) == 0;
  }

  /** A subnormal's significand field shifted up to the implicit bit: the
      shift keeps it below 2^11, and the field of the result drops the
      implicit bit. */
  lemma SubnormalShift(f: UInt16)
    requires 0 < f < 0x400
    ensures var l := BinaryLogarithm(f);
      l < 10
      && ShiftLeft16(f, SignificandBitCount - l) == f * Pow2(10 - l)
      && 0x400 <= f * Pow2(10 - l) < 0x800
  {
    var l := BinaryLogarithm(f);
    LogBelowTen(f);
    var n: nat := 10 - l;
    assert Pow2(10) == 0x400 && Pow2(11) == 0x800 by { Pow2Values(); }
    assert 0x400 <= f * Pow2(n) < 0x800 by { ScaledBracket(f, n, l); }
    ShiftLeftBy16(f, n, Pow2(n));
  }

  lemma LogBelowTen(f: UInt16)
    requires 0 < f < 0x400
    ensures BinaryLogarithm(f) < 10
  {
    var l := BinaryLogarithm(f);
    Pow2Values();
    if l >= 10 {
      Pow2Monotone(10, l);
    }
  }

  /** The significand bits of `significand`. */
  lemma SignificandField(h: Half)
    requires IsFinite(h) && !IsZero(h)
    ensures IsNormal(h) ==> SignificandBitPattern(Significand(h)) == SignificandBitPattern(h)
    ensures IsSubnormal(h) ==>
      var f := SignificandBitPattern(h);
      SignificandBitPattern(Significand(h)) + 0x400 == ShiftLeft16(f, SignificandBitCount - BinaryLogarithm(f))
  {
    if IsSubnormal(h) {
      SubnormalSignificandField(h);
    } else {
      NormalSignificandField(h);
    }
  }

  lemma NormalSignificandField(h: Half)
    requires IsNormal(h)
    ensures SignificandBitPattern(Significand(h)) == SignificandBitPattern(h)
  {
    assert Significand(h) == FromFields(Plus, ExponentBias, SignificandBitPattern(h));
  }

  lemma SubnormalSignificandField(h: Half)
    requires IsSubnormal(h)
    ensures var f := SignificandBitPattern(h);
      SignificandBitPattern(Significand(h)) + 0x400 == ShiftLeft16(f, SignificandBitCount - BinaryLogarithm(f))
  {
    var f := SignificandBitPattern(h);
    SubnormalShift(f);
    var x := ShiftLeft16(f, SignificandBitCount - BinaryLogarithm(f));
    assert Significand(h) == FromFields(Plus, ExponentBias, x);
    DivModUnique(x, 0x400, 1, x - 0x400);
  }

  /** A finite non-zero value is its significand times two to its exponent:
      `|h| * 2^24 == significand * 2^(exponent + 24)`, both sides in units of
      2^-24, and the significand is positive. */
  lemma SignificandTimesPowerOfTwo(h: Half)
    requires IsFinite(h) && !IsZero(h)
    ensures Exponent(h) + 24 >= 0
    ensures Units(h) * Pow2(24) == Units(Significand(h)) * Pow2(Exponent(h) + 24)
  {
    ExponentBrackets(h);
    if IsNormal(h) {
      NormalSignificand(h);
    } else {
      SubnormalSignificand(h);
    }
  }

  lemma NormalSignificand(h: Half)
    requires IsNormal(h)
    ensures Exponent(h) + 24 >= 0
    ensures Units(h) * Pow2(24) == Units(Significand(h)) * Pow2(Exponent(h) + 24)
  {
    var p: nat := ExponentBitPattern(h) - 1;
    var m := 0x400 + SignificandBitPattern(h);
    var u, v := Units(h), Units(Significand(h));
    assert u == m * Pow2(p) by { NormalUnits(h); }
    assert v == m * Pow2(14) by { SignificandOfNormal(h); }
    var n := NormalExponent(h);
    NormalDecomposition(m, p, u, v);
  }

  lemma SignificandOfNormal(h: Half)
    requires IsNormal(h)
    ensures Units(Significand(h)) == (0x400 + SignificandBitPattern(h)) * Pow2(14)
  {
    var f := SignificandBitPattern(h);
    assert Significand(h) == FromFields(Plus, ExponentBias, f);
    UnitsOfFields(Plus, ExponentBias, f);
  }

  /** The magnitude of a normal value built from its fields. */
  lemma UnitsOfFields(sign: FloatingPointSign, e: UInt, f: UInt16)
    requires 1 <= e < 31 && f < 0x400
    ensures IsNormal(FromFields(sign, e, f))
    ensures Units(FromFields(sign, e, f)) == (0x400 + f) * Pow2(e - 1)
  {
    DivModUnique(e, 0x20, 0, e);
    DivModUnique(f, 0x400, 0, f);
    NormalUnits(FromFields(sign, e, f));
  }

  lemma SubnormalSignificand(h: Half)
    requires IsSubnormal(h)
    ensures Exponent(h) + 24 >= 0
    ensures Units(h) * Pow2(24) == Units(Significand(h)) * Pow2(Exponent(h) + 24)
  {
    SubnormalExponent(h);
    SubnormalUnits(h);
    SubnormalSignificandUnits(h);
    Substitute(Units(h), SignificandBitPattern(h), Units(Significand(h)),
      Exponent(h) + 24, BinaryLogarithm(SignificandBitPattern(h)));
  }

  lemma Substitute(u: nat, f: nat, v: nat, e: int, l: nat)
    requires u == f && e == l && f * Pow2(24) == v * Pow2(l)
    ensures e >= 0 && u * Pow2(24) == v * Pow2(e)
  {
  }

  /** A subnormal's exponent is 24 below the position of its field's leading bit. */
  lemma SubnormalExponent(h: Half)
    requires IsSubnormal(h)
    ensures Exponent(h) + 24 == BinaryLogarithm(SignificandBitPattern(h))
  {
  }

  /** The subnormal significand field `f`, shifted up to the implicit bit
      and read in [1, 2), times `2^l`, is `f` itself. */
  lemma SubnormalScaling(f: UInt16, l: nat, v: nat)
    requires 0 < f < 0x400 && l == BinaryLogarithm(f)
    requires v == ShiftLeft16(f, SignificandBitCount - l) * Pow2(14)
    ensures f * Pow2(24) == v * Pow2(l)
  {
    SubnormalShift(f);
    var sh: nat := 10 - l;
    SubnormalDecomposition(f, l, sh, f * Pow2(sh), v);
  }

  lemma SubnormalSignificandUnits(h: Half)
    requires IsSubnormal(h)
    ensures SignificandBitPattern(h) * Pow2(24)
      == Units(Significand(h)) * Pow2(BinaryLogarithm(SignificandBitPattern(h)))
  {
    var f := SignificandBitPattern(h);
    SubnormalShift(f);
    var x := ShiftLeft16(f, SignificandBitCount - BinaryLogarithm(f));
    assert Units(Significand(h)) == x * Pow2(14) by {
      assert Significand(h) == InUnitBinade(x);
      UnitBinadeUnits(x);
    }
    SubnormalScaling(f, BinaryLogarithm(f), Units(Significand(h)));
  }

  /** A value in [1, 2) built from a significand with its implicit bit. */
  lemma UnitBinadeUnits(x: UInt16)
    requires 0x400 <= x < 0x800
    ensures Units(InUnitBinade(x)) == x * Pow2(14)
  {
    var r := InUnitBinade(x);
    NormalUnits(r);
    DivModUnique(x, 0x400, 1, x - 0x400);
    assert SignificandBitPattern(r) == x - 0x400;
  }

  lemma NormalDecomposition(m: nat, p: nat, u: nat, v: nat)
    requires u == m * Pow2(p) && v == m * Pow2(14)
    ensures u * Pow2(24) == v * Pow2(p + 10)
  {
    PowerProduct(m, p, 24);
    PowerProduct(m, 14, p + 10);
  }

  lemma SubnormalDecomposition(f: nat, l: nat, shift: nat, m: nat, v: nat)
    requires l + shift == 10 && m == f * Pow2(shift) && v == m * Pow2(14)
    ensures f * Pow2(24) == v * Pow2(l)
  {
    PowerProduct(f, shift, 14);
    PowerProduct(f, shift + 14, l);
    assert shift + 14 + l == 24;
  }

  // ----------------------------------------------------- significandWidth

  /** `significandWidth`: -1 for zeros, infinities and NaNs; for a normal, 0
      when the significand field is empty and otherwise 10 less its trailing
      zeros; for a subnormal, 16 less its trailing zeros, its leading zeros
      (over 16 bits) and one. */
  function SignificandWidth(h: Half): (w: Int)
    ensures -1 <= w <= 10
    ensures w == -1 <==> !IsFinite(h) || IsZero(h)
  {
    var f := SignificandBitPattern(h);
    var trailingZeroBits := TrailingZeroBitCount(f);
    if IsNormal(h) then
      if f == 0 then 0
      else
        Pow2Values();
        MultipleBelow(f, trailingZeroBits, 10);
        SignificandBitCount - trailingZeroBits
    else if IsSubnormal(h) then
      var leadingZeroBits := LeadingZeroBitCount(f);
      LogBelowTen(f);
      MultipleBelow(f, trailingZeroBits, BinaryLogarithm(f) + 1);
      16 - (trailingZeroBits + leadingZeroBits + 1)
    else
      -1
  }

  /** The significand `g` (the field of `significand`) scaled by `2^sh`
      from a field `f` with `t` trailing zeros and highest bit `l`, less the
      implicit bit, has its lowest set bit at `sh + t`, unless `f` is a
      power of two and `g` is empty. */
  lemma ShiftedFraction(f: nat, t: nat, l: nat, sh: nat, g: nat)
    requires f % Pow2(t) == 0 && f % Pow2(t + 1) != 0
    requires Pow2(l) <= f < Pow2(l + 1)
    requires l + sh == 10 && g + 0x400 == f * Pow2(sh)
    ensures t <= l
    ensures g % Pow2(sh + t) == 0
    ensures t < l ==> g % Pow2(sh + t + 1) != 0
  {
    MultipleBelow(f, t, l + 1);
    var c := ShiftedQuotient(f, t, l, sh, g);
    var m := Pow2(sh + t);
    DivModUnique(g, m, c, 0);
    if t < l {
      OddTimes(g, c, m);
    }
  }

  /** `g` is `2^(sh + t)` times a quotient that is odd unless `t == l`. */
  lemma ShiftedQuotient(f: nat, t: nat, l: nat, sh: nat, g: nat) returns (c: nat)
    requires f % Pow2(t) == 0 && f % Pow2(t + 1) != 0
    requires t <= l && l + sh == 10 && g + 0x400 == f * Pow2(sh)
    ensures g == c * Pow2(sh + t)
    ensures t < l ==> c % 2 == 1
  {
    var q := OddQuotient(f, t, sh, g);
    var d: nat := l - t;
    var m, p := Pow2(sh + t), Pow2(d);
    assert m * p == 0x400 by {
      Pow2Add(sh + t, d);
      Pow2Values();
      assert sh + t + d == 10;
    }
    c := FactorOut(g, q, p, m);
    if t < l {
      OddLessEven(q, Pow2(d - 1), c);
    }
  }

  /** An odd number less an even one is odd. */
  lemma OddLessEven(q: int, j: int, c: nat)
    requires q % 2 == 1 && c == q - 2 * j
    ensures c % 2 == 1
  {
    DivModUnique(q, 2, q / 2, 1);
    DivModUnique(c, 2, q / 2 - j, 1);
  }

  /** `g + 2^10` is an odd multiple of `2^(sh + t)`. */
  lemma OddQuotient(f: nat, t: nat, sh: nat, g: nat) returns (q: nat)
    requires f % Pow2(t) == 0 && f % Pow2(t + 1) != 0
    requires g + 0x400 == f * Pow2(sh)
    ensures g + 0x400 == q * Pow2(sh + t) && q % 2 == 1
  {
    OddMultiple(f, t);
    q := f / Pow2(t);
    PowerProduct(q, t, sh);
    assert t + sh == sh + t;
  }

  /** From `g + m*p == q*m`: `g == (q - p) * m`, with `q - p` natural. */
  lemma FactorOut(g: nat, q: int, p: int, m: nat) returns (c: nat)
    requires m > 0 && g + m * p == q * m
    ensures g == c * m && c == q - p
  {
    assert g == (q - p) * m;
    if q - p < 0 {
      MulStrict(q - p, 0, m);
    }
    c := q - p;
  }

  /** An odd multiple of `m` leaves `m` over when divided by `2m`. */
  lemma OddTimes(g: nat, c: nat, m: nat)
    requires m > 0 && g == c * m && c % 2 == 1
    ensures g % (2 * m) == m
  {
    var j := c / 2;
    assert c == 2 * j + 1;
    assert g == j * (2 * m) + m;
    DivModUnique(g, 2 * m, j, m);
  }

  /** The width is the number of fraction bits the significand needs: its
      field `g` is a multiple of `2^(10 - w)`, and not of `2^(11 - w)`
      unless the width is 0 (the significand is exactly 1). */
  lemma SignificandWidthCountsFractionBits(h: Half)
    requires IsFinite(h) && !IsZero(h)
    ensures var w := SignificandWidth(h);
      var g := SignificandBitPattern(Significand(h));
      0 <= w <= 10
      && g % Pow2(10 - w) == 0
      && (w > 0 ==> g % Pow2(11 - w) != 0)
  {
    if IsNormal(h) {
      NormalWidth(h);
    } else {
      SubnormalWidth(h);
    }
  }

  lemma NormalWidth(h: Half)
    requires IsNormal(h)
    ensures var w := SignificandWidth(h);
      var g := SignificandBitPattern(Significand(h));
      0 <= w <= 10
      && g % Pow2(10 - w) == 0
      && (w > 0 ==> g % Pow2(11 - w) != 0)
  {
    var f := SignificandBitPattern(h);
    var w := SignificandWidth(h);
    SignificandField(h);
    if f == 0 {
      assert w == 0;
      var p := Pow2(10);
      assert 0 % p == 0;
    } else {
      var t := TrailingZeroBitCount(f);
      assert 10 - w == t;
    }
  }

  lemma SubnormalWidth(h: Half)
    requires IsSubnormal(h)
    ensures var w := SignificandWidth(h);
      var g := SignificandBitPattern(Significand(h));
      0 <= w <= 10
      && g % Pow2(10 - w) == 0
      && (w > 0 ==> g % Pow2(11 - w) != 0)
  {
    var f := SignificandBitPattern(h);
    var t := TrailingZeroBitCount(f);
    var w := SignificandWidth(h);
    var g := SignificandBitPattern(Significand(h));
    var l := BinaryLogarithm(f);
    SignificandField(h);
    SubnormalShift(f);
    var sh: nat := 10 - l;
    ShiftedFraction(f, t, l, sh, g);
    assert w == l - t;
    assert 10 - w == sh + t;
  }

  // ----------------------------------------------------------------- binade

  /** `binade`: a NaN for infinities and NaNs; otherwise the bit pattern
      masked with that of `-infinity`, which keeps the sign and exponent
      fields and clears the significand field. A subnormal is first scaled by
      the literal `0x1p10`, masked, and scaled back by `ulpOfOne`. */
  function Binade(k: Kernel, h: Half): Half
  {
    var mask := BitPattern(KernelNegate(k, Infinity()));
    if !IsFinite(h) then Nan()
    else if IsSubnormal(h) then
      var scaled := Multiply(k, h, FromFloat(k, Plus, 1024.0));
      Multiply(k, FromBitPattern(And(BitPattern(scaled), mask)), UlpOfOne())
    else
      FromBitPattern(And(BitPattern(h), mask))
  }

  /** `-infinity` is the pattern 0xFC00: all of the sign and exponent bits. */
  lemma NegativeInfinityBits(k: Kernel)
    requires Lawful(k)
    ensures BitPattern(KernelNegate(k, Infinity())) == 0xFC00
  {
    KernelNegateAgrees(k, Infinity());
  }

  /** Masking with 0xFC00 keeps the sign and exponent fields and empties the
      significand field. */
  lemma ClearSignificand(h: Half)
    ensures FromBitPattern(And(BitPattern(h), 0xFC00)) == FromFields(Sign(h), ExponentBitPattern(h), 0)
  {
    var b := BitPattern(h);
    var e := ExponentBitPattern(h);
    var signBit := if Sign(h) == Minus then 1 else 0;
    assert And(b, 0xFC00) == signBit * 0x8000 + e * 0x400 by {
      AndHighMask(b);
      JoinFields(b);
    }
    DivModUnique(e, 0x20, 0, e);
    DivModUnique(0, 0x400, 0, 0);
  }

  /** `r` is the binade of the normal value `h`: the power of two
      `2^Exponent(h)` of the same sign, the largest one not above `h` in
      magnitude. */
  ghost predicate IsBinadeOf(r: Half, h: Half)
    requires IsNormal(h)
  {
    IsNormal(r) && Sign(r) == Sign(h) && ExponentBitPattern(r) == ExponentBitPattern(h)
    && SignificandBitPattern(r) == 0
    && Units(r) == Pow2(Exponent(h) + 24)
    && Units(r) <= Units(h) < 2 * Units(r)
  }

  /** The binade of a normal value is its leading power of two; a zero is
      its own binade; an infinity or a NaN has a NaN. */
  lemma BinadeProperties(k: Kernel, h: Half)
    requires Lawful(k)
    ensures !IsFinite(h) ==> IsNaN(Binade(k, h))
    ensures IsZero(h) ==> Binade(k, h) == h
    ensures IsNormal(h) ==> IsBinadeOf(Binade(k, h), h)
  {
    NegativeInfinityBits(k);
    MaskedBinade(k, h);
  }

  lemma MaskedBinade(k: Kernel, h: Half)
    requires BitPattern(KernelNegate(k, Infinity())) == 0xFC00
    ensures IsZero(h) ==> Binade(k, h) == h
    ensures IsNormal(h) ==> IsBinadeOf(Binade(k, h), h)
  {
    if IsZero(h) || IsNormal(h) {
      ClearSignificand(h);
      var r := FromFields(Sign(h), ExponentBitPattern(h), 0);
      assert Binade(k, h) == r;
      if IsZero(h) {
        FieldsRoundTrip(h);
      } else {
        LeadingPowerOfTwo(h, r);
      }
    }
  }

  lemma LeadingPowerOfTwo(h: Half, r: Half)
    requires IsNormal(h) && r == FromFields(Sign(h), ExponentBitPattern(h), 0)
    ensures IsBinadeOf(r, h)
  {
    ClearedFields(h, r);
    PowerOfTwoBelow(h, r);
  }

  lemma ClearedFields(h: Half, r: Half)
    requires IsNormal(h) && r == FromFields(Sign(h), ExponentBitPattern(h), 0)
    ensures IsNormal(r) && Sign(r) == Sign(h) && ExponentBitPattern(r) == ExponentBitPattern(h)
    ensures SignificandBitPattern(r) == 0
  {
    var e := ExponentBitPattern(h);
    DivModUnique(e, 0x20, 0, e);
    DivModUnique(0, 0x400, 0, 0);
  }

  lemma PowerOfTwoBelow(h: Half, r: Half)
    requires IsNormal(h) && IsNormal(r)
    requires ExponentBitPattern(r) == ExponentBitPattern(h) && SignificandBitPattern(r) == 0
    ensures Units(r) == Pow2(Exponent(h) + 24)
    ensures Units(r) <= Units(h) < 2 * Units(r)
  {
    var n: nat := NormalExponent(h);
    PowerOfTwoUnits(r);
    ExponentBrackets(h);
    DoublingBracket(ExponentBitPattern(r) + 9, n, Units(r), Units(h));
  }

  lemma DoublingBracket(a: nat, b: nat, u: nat, v: nat)
    requires u == Pow2(a) && Pow2(b) <= v < Pow2(b + 1) && a == b
    ensures u <= v < 2 * u
  {
  }

  /** A normal's exponent is its unbiased exponent field. */
  lemma NormalExponent(h: Half) returns (n: nat)
    requires IsNormal(h)
    ensures n == Exponent(h) + 24 == ExponentBitPattern(h) + 9
  {
    n := ExponentBitPattern(h) + 9;
  }

  // --------------------------------------------------------------- Hashable

  /** What a `Hasher` has been fed, in order; its mixing function is not
      part of this model. */
  class Hasher {
    var combined: seq<UInt16>

    constructor()
      ensures combined == []
    {
      combined := [];
    }

    /** `combine(_:)` on a `UInt16`. */
    method Combine(v: UInt16)
      modifies this
      ensures combined == old(combined) + [v]
    {
      combined := combined + [v];
    }
  }

  /** The value `hash(into:)` feeds the hasher: the bit pattern, with a zero
      of either sign first replaced by the integer literal 0. */
  function HashKey(k: Kernel, h: Half): UInt16
  {
    BitPattern(if IsZero(h) then FromInt(k, 0) else h)
  }

  /** `hash(into:)`. */
  method HashInto(k: Kernel, h: Half, hasher: Hasher)
    modifies hasher
    ensures hasher.combined == old(hasher.combined) + [HashKey(k, h)]
  {
    var value := h;
    if IsZero(h) {
      value := FromInt(k, 0);
    }
    hasher.Combine(BitPattern(value));
  }

  /** Both zeros hash as the pattern 0; every other value as its own
      pattern. */
  lemma HashKeyValues(k: Kernel, h: Half)
    requires Lawful(k)
    ensures HashKey(k, h) == if IsZero(h) then 0 else BitPattern(h)
  {
    FromIntZero(k);
  }

  /** Hashing agrees with `==`: two non-NaN values have the same key exactly
      when they are equal. */
  lemma HashKeyRespectsEquality(k: Kernel, a: Half, b: Half)
    requires Lawful(k) && !IsNaN(a) && !IsNaN(b)
    ensures HashKey(k, a) == HashKey(k, b) <==> Equal(a, b)
  {
    HashKeyValues(k, a);
    HashKeyValues(k, b);
    ZeroMergedPatterns(a, b);
  }

  lemma ZeroMergedPatterns(a: Half, b: Half)
    requires !IsNaN(a) && !IsNaN(b)
    ensures (if IsZero(a) then 0 else BitPattern(a)) == (if IsZero(b) then 0 else BitPattern(b))
            <==> Equal(a, b)
  {
    EqualIffSameEncoding(a, b);
    NonZeroPattern(a);
    NonZeroPattern(b);
    PatternInjective(a, b);
  }

  lemma NonZeroPattern(h: Half)
    ensures !IsZero(h) ==> BitPattern(h) != 0
  {
    MagnitudeFields(h);
  }

  lemma PatternInjective(a: Half, b: Half)
    ensures BitPattern(a) == BitPattern(b) ==> a == b
  {
    BitPatternRoundTrip(a);
    BitPatternRoundTrip(b);
  }
}
