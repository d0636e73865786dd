/** `init(sign:exponent:significand:)`: the significand, negated for a minus
    sign, multiplied by `2^exponent`. The exponent is first clamped to
    [-42, 45], three times the exponent range, and the power of two is then
    applied as a few factors that are each representable: `2^-14` or `2^15`
    repeatedly while the remaining exponent is out of range, and finally
    the power of two of what remains. The products are `_half_mul`, whose
    rounding is not modelled: the result is the fold of the kernel's
    multiplication over those factors, and the lemmas say what the factors
    are. */
module HalfScale {
  import opened Bitwise
  import opened HalfBits
  import opened HalfValue
  import opened Kernel

  /** `leastNormalExponent`, `1 - exponentBias`. */
  const LeastNormalExponent: int := 1 - ExponentBias as int
  /** `greatestFiniteExponent`, `exponentBias`. */
  const GreatestFiniteExponent: int := ExponentBias as int

  function Max(a: int, b: int): (m: int)
    ensures m >= a && m >= b && (m == a || m == b)
  {
    if a >= b then a else b
  }

  function Min(a: int, b: int): (m: int)
    ensures m <= a && m <= b && (m == a || m == b)
  {
    if a <= b then a else b
  }

  /** The exponent once clamped: an exponent below the normal range is
      raised to at least -42, one above the finite range lowered to at most
      45; the clamp changes nothing in between. */
  function Clamp(exponent: int): (c: int)
    ensures -42 <= c <= 45
    ensures -42 <= exponent <= 45 ==> c == exponent
    ensures exponent < -42 ==> c == -42
    ensures exponent > 45 ==> c == 45
  {
    if exponent < LeastNormalExponent then Max(exponent, 3 * LeastNormalExponent)
    else if exponent > GreatestFiniteExponent then Min(exponent, 3 * GreatestFiniteExponent)
    else exponent
  }

  /** The factor of the loop above the finite range: `2^15`, exponent field
      `infinityExponent - 1`. */
  function ScaleStep(): (h: Half)
    ensures IsNormal(h) && Sign(h) == Plus
    ensures ExponentBitPattern(h) == 30 && SignificandBitPattern(h) == 0
  {
    FromFields(Plus, InfinityExponent - 1, 0)
  }

  /** The factors the two loops multiply by, in order, starting from the
      clamped exponent `c`. */
  function Steps(c: int): seq<Half>
    decreases if c < 0 then -c else c
  {
    if c < LeastNormalExponent then [LeastNormalMagnitude()] + Steps(c - LeastNormalExponent)
    else if c > GreatestFiniteExponent then [ScaleStep()] + Steps(c - GreatestFiniteExponent)
    else []
  }

  /** What is left of the clamped exponent once the loops have run. */
  function Reduced(c: int): (r: int)
    ensures LeastNormalExponent <= r <= GreatestFiniteExponent
    decreases if c < 0 then -c else c
  {
    if c < LeastNormalExponent then Reduced(c - LeastNormalExponent)
    else if c > GreatestFiniteExponent then Reduced(c - GreatestFiniteExponent)
    else c
  }

  /** The last factor: `2^c` for `c` in the normal range, built from its
      exponent field `exponentBias + c`. */
  function PowerOfTwo(c: int): (h: Half)
    requires LeastNormalExponent <= c <= GreatestFiniteExponent
  {
    FromFields(Plus, (ExponentBias as int + c) as UInt, 0)
  }

  /** Every factor applied for the exponent `exponent`, in order. */
  function ScaleFactors(exponent: int): seq<Half>
  {
    var c := Clamp(exponent);
    Steps(c) + [PowerOfTwo(Reduced(c))]
  }

  /** A positive normal power of two. */
  predicate IsPowerOfTwo(h: Half)
  {
    IsNormal(h) && Sign(h) == Plus && SignificandBitPattern(h) == 0
  }

  /** The exponent a normal power of two stands for. */
  function FactorExponent(h: Half): int
  {
    ExponentBitPattern(h) as int - ExponentBias as int
  }

  function ExponentSum(factors: seq<Half>): int
  {
    if factors == [] then 0 else FactorExponent(factors[0]) + ExponentSum(factors[1..])
  }

  /** `result *= f` for each factor `f` in turn. */
  function Fold(k: Kernel, x: Half, factors: seq<Half>): Half
  {
    if factors == [] then x
    else Multiply(k, Fold(k, x, factors[..|factors| - 1]), factors[|factors| - 1])
  }

  /** The first statement, as written: `-result` is `_half_neg`. */
  function SignedSignificandAsWritten(k: Kernel, sign: FloatingPointSign, significand: Half): Half
  {
    if sign == Minus then KernelNegate(k, significand) else significand
  }

  /** The first statement with IEEE `negate`, which flips the sign of a
      zero too. */
  function SignedSignificand(sign: FloatingPointSign, significand: Half): Half
  {
    if sign == Minus then Negate(significand) else significand
  }

  /** The result from the signed significand `start`: scaled when the
      significand is finite and non-zero, returned as is otherwise. */
  function ScaledFrom(k: Kernel, start: Half, exponent: int, significand: Half): Half
  {
    if IsFinite(significand) && !IsZero(significand) then Fold(k, start, ScaleFactors(exponent))
    else start
  }

  function ScaledValue(k: Kernel, sign: FloatingPointSign, exponent: int, significand: Half): Half
  {
    ScaledFrom(k, SignedSignificand(sign, significand), exponent, significand)
  }

  function ScaledValueAsWritten(k: Kernel, sign: FloatingPointSign, exponent: int, significand: Half): Half
  {
    ScaledFrom(k, SignedSignificandAsWritten(k, sign, significand), exponent, significand)
  }

  /** `init(sign:exponent:significand:)`, with the sign applied by IEEE
      `negate`. */
  method InitScaled(k: Kernel, sign: FloatingPointSign, exponent: Int, significand: Half) returns (r: Half)
    ensures r == ScaledValue(k, sign, exponent, significand)
  {
    var result := significand;
    if sign == Minus {
      result := Negate(result);
    }
    if IsFinite(significand) && !IsZero(significand) {
      result := ScaleBy(k, result, exponent);
    }
    r := result;
  }

  /** The scaling of a finite non-zero signed significand `start`: the two
      loops, then the last factor `2^clamped`. */
  method ScaleBy(k: Kernel, start: Half, exponent: int) returns (result: Half)
    ensures result == Fold(k, start, ScaleFactors(exponent))
  {
    var clamped: int;
    ghost var done: seq<Half>;
    if exponent < LeastNormalExponent {
      result, clamped, done := ScaleBelow(k, start, exponent);
    } else if exponent > GreatestFiniteExponent {
      result, clamped, done := ScaleAbove(k, start, exponent);
    } else {
      result, clamped, done := start, exponent, [];
    }
    var scale := PowerOfTwo(clamped);
    result := Multiply(k, result, scale);
    FoldAppend(k, start, done, scale);
    LastFactor(done, clamped, exponent);
  }

  /** The loop below the normal range: the exponent is raised to at least
      `3 * leastNormalExponent`, then `result` is multiplied by `2^-14`
      while the exponent is below the normal range. */
  method ScaleBelow(k: Kernel, start: Half, exponent: int) returns (result: Half, clamped: int, ghost done: seq<Half>)
    requires exponent < LeastNormalExponent
    ensures LeastNormalExponent <= clamped < 0
    ensures done + Steps(clamped) == Steps(Clamp(exponent)) && Reduced(clamped) == Reduced(Clamp(exponent))
    ensures result == Fold(k, start, done)
  {
    result := start;
    done := [];
    clamped := Max(exponent, 3 * LeastNormalExponent);
    while clamped < LeastNormalExponent
      invariant -42 <= clamped < 0
      invariant done + Steps(clamped) == Steps(Clamp(exponent))
      invariant Reduced(clamped) == Reduced(Clamp(exponent))
      invariant result == Fold(k, start, done)
      decreases -clamped
    {
      StepBelow(done, clamped);
      result := Multiply(k, result, LeastNormalMagnitude());
      FoldAppend(k, start, done, LeastNormalMagnitude());
      done := done + [LeastNormalMagnitude()];
      clamped := clamped - LeastNormalExponent;
    }
  }

  /** The loop above the finite range: the exponent is lowered to at most
      `3 * greatestFiniteExponent`, then `result` is multiplied by `2^15`
      while the exponent is above the finite range. */
  method ScaleAbove(k: Kernel, start: Half, exponent: int) returns (result: Half, clamped: int, ghost done: seq<Half>)
    requires exponent > GreatestFiniteExponent
    ensures 0 < clamped <= GreatestFiniteExponent
    ensures done + Steps(clamped) == Steps(Clamp(exponent)) && Reduced(clamped) == Reduced(Clamp(exponent))
    ensures result == Fold(k, start, done)
  {
    var step := FromFields(Plus, InfinityExponent - 1, 0);
    result := start;
    done := [];
    clamped := Min(exponent, 3 * GreatestFiniteExponent);
    while clamped > GreatestFiniteExponent
      invariant 0 < clamped <= 45
      invariant done + Steps(clamped) == Steps(Clamp(exponent))
      invariant Reduced(clamped) == Reduced(Clamp(exponent))
      invariant result == Fold(k, start, done)
      decreases clamped
    {
      StepAbove(done, clamped);
      result := Multiply(k, result, step);
      FoldAppend(k, start, done, step);
      done := done + [step];
      clamped := clamped - GreatestFiniteExponent;
    }
  }

  lemma FoldAppend(k: Kernel, x: Half, factors: seq<Half>, f: Half)
    ensures Fold(k, x, factors + [f]) == Multiply(k, Fold(k, x, factors), f)
  {
    assert (factors + [f])[..|factors|] == factors;
  }

  /** One turn of the loop below the normal range. */
  lemma StepBelow(done: seq<Half>, c: int)
    requires c < LeastNormalExponent
    ensures done + Steps(c) == (done + [LeastNormalMagnitude()]) + Steps(c - LeastNormalExponent)
    ensures Reduced(c) == Reduced(c - LeastNormalExponent)
  {
  }

  /** One turn of the loop above the finite range. */
  lemma StepAbove(done: seq<Half>, c: int)
    requires c > GreatestFiniteExponent
    ensures done + Steps(c) == (done + [ScaleStep()]) + Steps(c - GreatestFiniteExponent)
    ensures Reduced(c) == Reduced(c - GreatestFiniteExponent)
  {
  }

  /** Once the loops are done, the factors so far and the last one are
      all of them. */
  lemma LastFactor(done: seq<Half>, c: int, exponent: int)
    requires LeastNormalExponent <= c <= GreatestFiniteExponent
    requires done + Steps(c) == Steps(Clamp(exponent)) && Reduced(c) == Reduced(Clamp(exponent))
    ensures done + [PowerOfTwo(c)] == ScaleFactors(exponent)
  {
  }

  lemma {:induction false} ExponentSumAppend(factors: seq<Half>, f: Half)
    ensures ExponentSum(factors + [f]) == ExponentSum(factors) + FactorExponent(f)
  {
    if factors != [] {
      assert (factors + [f])[1..] == factors[1..] + [f];
      ExponentSumAppend(factors[1..], f);
    }
  }

  /** The loops apply at most two factors, each a positive power of two,
      whose exponents and the remainder add up to the clamped exponent. */
  lemma {:induction false} StepsFactors(c: int)
    requires -42 <= c <= 45
    ensures forall i :: 0 <= i < |Steps(c)| ==> IsPowerOfTwo(Steps(c)[i])
    ensures ExponentSum(Steps(c)) + Reduced(c) == c
    ensures |Steps(c)| <= 2
    ensures -28 <= c <= 30 ==> |Steps(c)| <= 1
    decreases if c < 0 then -c else c
  {
    var s := Steps(c);
    if c < LeastNormalExponent || c > GreatestFiniteExponent {
      var f := if c < LeastNormalExponent then LeastNormalMagnitude() else ScaleStep();
      var rest := if c < LeastNormalExponent then c - LeastNormalExponent else c - GreatestFiniteExponent;
      StepsFactors(rest);
      assert s == [f] + Steps(rest);
      assert s[1..] == Steps(rest);
      assert FactorExponent(f) == c - rest;
    }
  }

  /** The factors `init(sign:exponent:significand:)` multiplies by: at most
      three positive powers of two, `2^x` for `x` their exponent, whose
      exponents add up to the clamped exponent — the exponent itself when it
      lies in [-42, 45]. */
  lemma ScaleFactorsProperties(exponent: int)
    ensures var fs := ScaleFactors(exponent);
      1 <= |fs| <= 3
      && (forall i :: 0 <= i < |fs| ==> IsPowerOfTwo(fs[i]))
      && ExponentSum(fs) == Clamp(exponent)
      && (-42 <= exponent <= 45 ==> ExponentSum(fs) == exponent)
  {
    var c := Clamp(exponent);
    var last := PowerOfTwo(Reduced(c));
    LastPower(Reduced(c));
    StepsFactors(c);
    ExponentSumAppend(Steps(c), last);
    AllPowersAppend(Steps(c), last);
  }

  lemma LastPower(c: int)
    requires LeastNormalExponent <= c <= GreatestFiniteExponent
    ensures IsPowerOfTwo(PowerOfTwo(c)) && FactorExponent(PowerOfTwo(c)) == c
  {
    var e := ExponentBias as int + c;
    DivModUnique(e, 0x20, 0, e);
    DivModUnique(0, 0x400, 0, 0);
  }

  lemma AllPowersAppend(fs: seq<Half>, f: Half)
    requires forall i :: 0 <= i < |fs| ==> IsPowerOfTwo(fs[i])
    requires IsPowerOfTwo(f)
    ensures forall i :: 0 <= i < |fs + [f]| ==> IsPowerOfTwo((fs + [f])[i])
  {
  }

  /** A factor stands for `2^x`, `x` its exponent: `2^(x + 24)` units. */
  lemma FactorValue(h: Half)
    requires IsPowerOfTwo(h)
    ensures FactorExponent(h) >= -14
    ensures Units(h) == Pow2(FactorExponent(h) + 24)
  {
    PowerOfTwoUnits(h);
  }

  /** A zero, infinite or NaN significand comes back with its sign flipped
      for a minus sign and nothing else changed: the sign of the result is
      `sign` combined with the significand's. */
  lemma ScaledSpecialCases(k: Kernel, sign: FloatingPointSign, exponent: int, significand: Half)
    requires !IsFinite(significand) || IsZero(significand)
    ensures var r := ScaledValue(k, sign, exponent, significand);
      Classify(r) == Classify(significand)
      && MagnitudeBits(r) == MagnitudeBits(significand)
      && (Sign(r) == Minus <==> (sign == Minus) != (Sign(significand) == Minus))
  {
  }

  /** As written, a minus sign and the significand +0 give +0: `_half_neg`
      does not flip the sign of a zero. */
  lemma MinusZeroAsWritten(k: Kernel, exponent: int)
    requires Lawful(k)
    ensures ScaledValueAsWritten(k, Minus, exponent, Zero()) == Zero()
    ensures Sign(ScaledValueAsWritten(k, Minus, exponent, Zero())) == Plus
    ensures Sign(ScaledValue(k, Minus, exponent, Zero())) == Minus
  {
    KernelNegateOfZero(k);
  }

  /** Away from the zeros and the NaNs the two negations agree, so the
      as-written initializer computes the same value. */
  lemma AsWrittenAgrees(k: Kernel, sign: FloatingPointSign, exponent: int, significand: Half)
    requires Lawful(k) && !IsNaN(significand) && !IsZero(significand)
    ensures ScaledValueAsWritten(k, sign, exponent, significand) == ScaledValue(k, sign, exponent, significand)
  {
    KernelNegateAgrees(k, significand);
  }
}
