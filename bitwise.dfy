/** Swift's fixed-width integer types and the bit operations the Half layer
    applies to them (`&`, `|`, `&<<`, `&>>`, `trailingZeroBitCount`,
    `leadingZeroBitCount`, `_binaryLogarithm`), written over unbounded
    integers so that the fields of a bit pattern can be reasoned about with
    ordinary arithmetic. */
module Bitwise {

  /** Swift `UInt16`. */
  type UInt16 = x: int | 0 <= x < 0x1_0000
  /** Swift `UInt` on a 64-bit platform. */
  type UInt = x: int | 0 <= x < 0x1_0000_0000_0000_0000
  /** Swift `Int` on a 64-bit platform. */
  type Int = x: int | -0x8000_0000_0000_0000 <= x < 0x8000_0000_0000_0000
  /** Swift `Int16`. */
  type Int16 = x: int | -0x8000 <= x < 0x8000

  const IntMax: Int := 0x7FFF_FFFF_FFFF_FFFF
  const IntMin: Int := -0x8000_0000_0000_0000

  function Pow2(n: nat): (r: nat)
    ensures r >= 1
  {
    if n == 0 then 1 else 2 * Pow2(n - 1)
  }

  lemma {:induction false} Pow2Add(a: nat, b: nat)
    ensures Pow2(a) * Pow2(b) == Pow2(a + b)
    decreases a
  {
    if a > 0 {
      Pow2Add(a - 1, b);
    }
  }

  lemma {:induction false} Pow2Monotone(a: nat, b: nat)
    requires a <= b
    ensures Pow2(a) <= Pow2(b)
    decreases b - a
  {
    if a < b {
      Pow2Monotone(a + 1, b);
    }
  }

  lemma Pow2Values()
    ensures Pow2(1) == 2 && Pow2(5) == 32 && Pow2(9) == 0x200 && Pow2(10) == 0x400
    ensures Pow2(15) == 0x8000 && Pow2(16) == 0x1_0000
  {
  }

  /** Bitwise AND of two non-negative integers, one bit at a time from the
      least significant end. */
  function And(a: nat, b: nat): (r: nat)
    ensures r <= a && r <= b
    decreases a
  {
    if a == 0 || b == 0 then 0
    else 2 * And(a / 2, b / 2) + (if a % 2 == 1 && b % 2 == 1 then 1 else 0)
  }

  /** Bitwise OR of two non-negative integers. */
  function Or(a: nat, b: nat): (r: nat)
    ensures a <= r && b <= r && r <= a + b
    decreases a
  {
    if a == 0 then b
    else if b == 0 then a
    else 2 * Or(a / 2, b / 2) + (if a % 2 == 1 || b % 2 == 1 then 1 else 0)
  }

  /** `a & (2^k - 1)` keeps the low k bits. */
  lemma {:induction false} AndLowMask(a: nat, k: nat)
    ensures And(a, Pow2(k) - 1) == a % Pow2(k)
    decreases k
  {
    if k == 0 {
      DivModUnique(a, 1, a, 0);
    } else if a == 0 {
      DivModUnique(0, Pow2(k), 0, 0);
    } else {
      AndLowMask(a / 2, k - 1);
      LowMaskStep(a, k);
    }
  }

  /** One step of `AndLowMask`: from the low k - 1 bits of `a / 2` to the
      low k bits of `a`. */
  lemma LowMaskStep(a: nat, k: nat)
    requires a > 0 && k > 0
    requires And(a / 2, Pow2(k - 1) - 1) == (a / 2) % Pow2(k - 1)
    ensures And(a, Pow2(k) - 1) == a % Pow2(k)
  {
    var p, P := Pow2(k - 1), Pow2(k);
    assert P == 2 * p;
    AndOddMask(a, p, P - 1);
    DivModPow2(a, k);
  }

  lemma AndOddMask(a: nat, p: nat, m: nat)
    requires a > 0 && p >= 1 && m == 2 * p - 1
    ensures And(a, m) == 2 * And(a / 2, p - 1) + a % 2
  {
    assert m % 2 == 1 && m / 2 == p - 1;
  }

  /** Division with remainder is unique. */
  lemma DivModUnique(a: int, d: int, q: int, r: int)
    requires d > 0 && 0 <= r < d && a == q * d + r
    ensures a / d == q && a % d == r
  {
    var q0, r0 := a / d, a % d;
    assert (q0 - q) * d == r - r0;
    SmallMultiple(q0 - q, d, r - r0);
  }

  /** The only multiple of d strictly between -d and d is zero. */
  lemma SmallMultiple(x: int, d: int, y: int)
    requires d > 0 && x * d == y && -d < y < d
    ensures x == 0
  {
    if x > 0 {
      MulAtLeast(x, d);
    } else if x < 0 {
      MulAtLeast(-x, d);
    }
  }

  lemma MulAtLeast(x: int, d: int)
    requires x >= 1 && d > 0
    ensures x * d >= d
  {
    assert x * d == d + (x - 1) * d;
  }

  /** Splitting off the lowest bit: `a % 2^k` is twice the low k - 1 bits of
      `a / 2` plus the last bit of `a`, and `a / 2^k` is `(a / 2) / 2^(k-1)`. */
  lemma DivModPow2(a: nat, k: nat)
    requires k > 0
    ensures a % Pow2(k) == 2 * ((a / 2) % Pow2(k - 1)) + a % 2
    ensures a / Pow2(k) == (a / 2) / Pow2(k - 1)
  {
    var p := Pow2(k - 1);
    var q := (a / 2) / p;
    var m := (a / 2) % p;
    assert a / 2 == q * p + m;
    assert a == q * (2 * p) + (2 * m + a % 2);
    DivModUnique(a, 2 * p, q, 2 * m + a % 2);
  }

  /** `a & 1` keeps the lowest bit. */
  lemma AndOne(a: nat)
    ensures And(a, 1) == a % 2
  {
    if a != 0 {
      assert And(a / 2, 0) == 0;
    }
  }

  /** A value shifted left by k shares no bit with one below 2^k. */
  lemma {:induction false} AndShiftedDisjoint(a: nat, b: nat, k: nat)
    requires b < Pow2(k)
    ensures And(a * Pow2(k), b) == 0
    decreases k
  {
    if k == 0 || a == 0 || b == 0 {
    } else {
      var h := Pow2(k - 1);
      assert a * Pow2(k) == 2 * (a * h) by {
        Twice(a, h);
      }
      AndShiftedDisjoint(a, b / 2, k - 1);
      AndDouble(a * h, b);
    }
  }

  /** `(2x) & b` is `x & (b >> 1)` shifted back. */
  lemma AndDouble(x: nat, b: nat)
    ensures And(2 * x, b) == 2 * And(x, b / 2)
  {
    if x != 0 && b != 0 {
      assert (2 * x) / 2 == x && (2 * x) % 2 == 0;
    }
  }

  lemma {:induction false} AndCommutes(a: nat, b: nat)
    ensures And(a, b) == And(b, a)
    decreases a
  {
    if a != 0 && b != 0 {
      AndCommutes(a / 2, b / 2);
    }
  }

  /** OR of two values with no common bit is their sum. */
  lemma {:induction false} OrDisjoint(a: nat, b: nat)
    requires And(a, b) == 0
    ensures Or(a, b) == a + b
    decreases a
  {
    if a == 0 || b == 0 {
    } else {
      OrDisjoint(a / 2, b / 2);
    }
  }

  /** A value shifted left by k, ORed with one below 2^k, is their sum. */
  lemma OrShifted(a: nat, b: nat, k: nat)
    requires b < Pow2(k)
    ensures Or(a * Pow2(k), b) == a * Pow2(k) + b
  {
    AndShiftedDisjoint(a, b, k);
    OrDisjoint(a * Pow2(k), b);
  }

  /** `a | 1` sets the lowest bit. */
  lemma OrOne(a: nat)
    ensures Or(a, 1) == if a % 2 == 1 then a else a + 1
  {
    if a != 0 {
      assert Or(a / 2, 0) == a / 2;
    }
  }

  /** Swift `&<<` on `UInt16`: the shift amount is taken modulo 16 and the
      bits shifted out are dropped. */
  function ShiftLeft16(a: UInt16, n: int): UInt16
  {
    (a * Pow2(n % 16)) % 0x1_0000
  }

  /** Swift `&>>` on `UInt16`. */
  function ShiftRight16(a: UInt16, n: int): UInt16
  {
    var d := Pow2(n % 16);
    DivLeq(a, d);
    a / d
  }

  /** A shift by a count below the width divides by the matching power. */
  lemma ShiftRightBy(a: UInt16, n: nat, d: nat)
    requires n < 16 && d == Pow2(n)
    ensures ShiftRight16(a, n) == a / d
  {
    assert n % 16 == n;
  }

  /** A shift that loses no bit multiplies by the matching power. */
  lemma ShiftLeftBy16(a: UInt16, n: nat, d: nat)
    requires n < 16 && d == Pow2(n) && a * d < 0x1_0000
    ensures ShiftLeft16(a, n) == a * d
  {
    assert n % 16 == n;
    DivModUnique(a * d, 0x1_0000, 0, a * d);
  }

  /** Swift `&<<` on `UInt`. */
  function ShiftLeft64(a: UInt, n: int): UInt
  {
    (a * Pow2(n % 64)) % 0x1_0000_0000_0000_0000
  }

  lemma ShiftLeftBy64(a: UInt, n: nat, d: nat)
    requires n < 64 && d == Pow2(n) && a * d < 0x1_0000_0000_0000_0000
    ensures ShiftLeft64(a, n) == a * d
  {
    assert n % 64 == n;
    DivModUnique(a * d, 0x1_0000_0000_0000_0000, 0, a * d);
  }

  /** Swift `&>>` on `UInt`. */
  function ShiftRight64(a: UInt, n: int): UInt
  {
    var d := Pow2(n % 64);
    DivLeq(a, d);
    a / d
  }

  lemma DivLeq(a: nat, d: nat)
    requires d > 0
    ensures 0 <= a / d <= a
  {
    DivModUnique(a, d, a / d, a % d);
    if a / d > 0 {
      MulAtLeast(d, a / d);
    }
  }

  /** `Int16(bitPattern:)`: the two's complement reading of 16 bits. */
  function Int16FromBits(b: UInt16): Int16
  {
    if b < 0x8000 then b else b - 0x1_0000
  }

  /** `UInt16(bitPattern:)` on an `Int16`. */
  function Int16Bits(x: Int16): UInt16
  {
    if x >= 0 then x else x + 0x1_0000
  }

  /** Swift `&>>` on `Int16`: an arithmetic shift, rounding toward minus
      infinity. */
  function ShiftRightInt16(x: Int16, n: int): Int16
  {
    var d := Pow2(n % 16);
    if x >= 0 then
      DivLeq(x, d);
      x / d
    else
      var y: nat := -(x as int) - 1;
      DivLeq(y, d);
      -(y / d) - 1
  }

  /** Swift `|` on `Int16`, bit by bit on the two's complement patterns. */
  function OrInt16(a: Int16, b: Int16): Int16
  {
    Pow2Values();
    OrBound(Int16Bits(a), Int16Bits(b), 16);
    Int16FromBits(Or(Int16Bits(a), Int16Bits(b)))
  }

  lemma {:induction false} OrBound(a: nat, b: nat, k: nat)
    requires a < Pow2(k) && b < Pow2(k)
    ensures Or(a, b) < Pow2(k)
    decreases k
  {
    if a != 0 && b != 0 {
      OrBound(a / 2, b / 2, k - 1);
    }
  }

  /** Masking with a mask shifted left by k (`m` is `c << k`) is masking the
      value shifted right by k (`q` is `a >> k`), then shifting back. */
  lemma {:induction false} AndShiftedMask(a: nat, c: nat, k: nat, m: nat, q: nat)
    requires m == c * Pow2(k) && q == a / Pow2(k)
    ensures And(a, m) == And(q, c) * Pow2(k)
    decreases k
  {
    if k == 0 || a == 0 || c == 0 {
      AndShiftedMaskBase(a, c, k, m, q);
    } else {
      var x := c * Pow2(k - 1);
      DivModPow2(a, k);
      AndShiftedMask(a / 2, c, k - 1, x, q);
      AndShiftedMaskStep(a, c, k, m, q, x);
    }
  }

  lemma AndShiftedMaskBase(a: nat, c: nat, k: nat, m: nat, q: nat)
    requires k == 0 || a == 0 || c == 0
    requires m == c * Pow2(k) && q == a / Pow2(k)
    ensures And(a, m) == And(q, c) * Pow2(k)
  {
    var p := Pow2(k);
    if k == 0 {
      assert m == c && q == a;
    } else if a == 0 {
      DivModUnique(0, p, 0, 0);
      assert And(q, c) == 0;
    } else {
      assert m == 0;
      assert And(q, c) == 0;
    }
  }

  lemma AndShiftedMaskStep(a: nat, c: nat, k: nat, m: nat, q: nat, x: nat)
    requires k > 0 && a > 0 && c > 0
    requires m == c * Pow2(k) && x == c * Pow2(k - 1)
    requires And(a / 2, x) == And(q, c) * Pow2(k - 1)
    ensures And(a, m) == And(q, c) * Pow2(k)
  {
    var p, half := Pow2(k), Pow2(k - 1);
    assert p == 2 * half;
    Twice(c, half);
    assert m == 2 * x;
    assert And(a, 2 * x) == 2 * And(a / 2, x);
    Twice(And(q, c), half);
  }

  lemma Twice(y: int, h: int)
    ensures 2 * (y * h) == y * (2 * h)
  {
  }

  /** `a & 2^k` keeps bit k. */
  lemma AndBit(a: nat, k: nat)
    ensures And(a, Pow2(k)) == Pow2(k) * ((a / Pow2(k)) % 2)
  {
    var p := Pow2(k);
    DivLeq(a, p);
    var q: nat := a / p;
    AndShiftedMask(a, 1, k, p, q);
    LowBitScaled(q, p, And(a, p));
  }

  lemma LowBitScaled(q: nat, p: nat, r: nat)
    requires r == And(q, 1) * p
    ensures r == p * (q % 2)
  {
    AndOne(q);
  }

  /** `a & 0xFC00` clears the low ten bits of a 16-bit value. */
  lemma AndHighMask(a: UInt16)
    ensures And(a, 0xFC00) == a - a % 0x400
  {
    var q := a / 0x400;
    SixBits(q);
    TenBitShift(a, q);
  }

  lemma SixBits(q: nat)
    requires q < 0x40
    ensures And(q, 0x3F) == q
  {
    assert Pow2(6) == 0x40;
    AndBelowMask(q, 0x3F, 6);
  }

  /** A value below `2^k` is unchanged by the mask `2^k - 1`. */
  lemma AndBelowMask(a: nat, m: nat, k: nat)
    requires m + 1 == Pow2(k) && a <= m
    ensures And(a, m) == a
  {
    var p := Pow2(k);
    DivModUnique(a, p, 0, a);
    AndLowMask(a, k);
  }

  lemma TenBitShift(a: nat, q: nat)
    requires q == a / 0x400
    ensures And(a, 0xFC00) == And(q, 0x3F) * 0x400
  {
    Pow2Values();
    AndShiftedMask(a, 0x3F, 10, 0xFC00, q);
  }

  lemma MulMonotone(a: int, b: int, c: int)
    requires a <= b && c >= 0
    ensures a * c <= b * c
  {
    assert b * c - a * c == (b - a) * c;
  }

  lemma MulStrict(a: int, b: int, c: int)
    requires a < b && c > 0
    ensures a * c < b * c
  {
    assert b * c - a * c == (b - a) * c;
    MulAtLeast(b - a, c);
  }

  /** `2^a * m` lies in `[2^(a+b), 2^(a+b+1))` when `m` lies in
      `[2^b, 2^(b+1))`. */
  lemma ScaledBracket(m: nat, a: nat, b: nat)
    requires Pow2(b) <= m < Pow2(b + 1)
    ensures Pow2(a + b) <= m * Pow2(a) < Pow2(a + b + 1)
  {
    var p := Pow2(a);
    Pow2Add(b, a);
    Pow2Add(b + 1, a);
    MulMonotone(Pow2(b), m, p);
    MulStrict(m, Pow2(b + 1), p);
  }

  lemma PowerProduct(m: int, a: nat, b: nat)
    ensures (m * Pow2(a)) * Pow2(b) == m * Pow2(a + b)
  {
    Pow2Add(a, b);
    assert (m * Pow2(a)) * Pow2(b) == m * (Pow2(a) * Pow2(b));
  }

  /** A positive multiple of `2^t` that is not a multiple of `2^(t+1)` is
      an odd multiple of `2^t`. */
  lemma OddMultiple(f: nat, t: nat)
    requires f % Pow2(t) == 0 && f % Pow2(t + 1) != 0
    ensures f == (f / Pow2(t)) * Pow2(t) && (f / Pow2(t)) % 2 == 1
  {
    var p := Pow2(t);
    var q := f / p;
    DivModUnique(f, p, q, 0);
    if q % 2 == 0 {
      assert f == (q / 2) * (2 * p);
      DivModUnique(f, 2 * p, q / 2, 0);
    }
  }

  /** A positive multiple of `2^t` below `2^n` has `t < n`. */
  lemma MultipleBelow(f: nat, t: nat, n: nat)
    requires 0 < f < Pow2(n) && f % Pow2(t) == 0
    ensures t < n
  {
    var p := Pow2(t);
    DivModUnique(f, p, f / p, 0);
    MulAtLeast(f / p, p);
    if t >= n {
      Pow2Monotone(n, t);
    }
  }

  /** Number of bits needed to write `x`: `x < 2^r`, and `2^(r-1) <= x` when
      `x` is not zero. */
  function BitLength(x: nat): (r: nat)
    ensures x < Pow2(r)
    ensures x > 0 ==> r > 0 && Pow2(r - 1) <= x
    decreases x
  {
    if x == 0 then 0 else 1 + BitLength(x / 2)
  }

  lemma {:induction false} BitLengthBound(x: nat, n: nat)
    requires x < Pow2(n)
    ensures BitLength(x) <= n
  {
    if x > 0 {
      BitLengthBound(x / 2, n - 1);
    }
  }

  /** `UInt16.leadingZeroBitCount`: 16 for zero. */
  function LeadingZeroBitCount(x: UInt16): (r: nat)
    ensures r <= 16
    ensures x < Pow2(16 - r)
    ensures r < 16 ==> Pow2(15 - r) <= x
  {
    Pow2Values();
    BitLengthBound(x, 16);
    16 - BitLength(x)
  }

  /** `UInt16._binaryLogarithm()`: `bitWidth - (leadingZeroBitCount + 1)`,
      the position of the highest set bit. */
  function BinaryLogarithm(x: UInt16): (r: nat)
    requires x > 0
    ensures r < 16
    ensures Pow2(r) <= x < Pow2(r + 1)
  {
    16 - (LeadingZeroBitCount(x) + 1)
  }

  /** Position of the lowest set bit of a non-zero value: `x` is a multiple
      of `2^r` but not of `2^(r+1)`. */
  function LowestSetBit(x: nat): (r: nat)
    requires x > 0
    ensures x % Pow2(r) == 0 && x % Pow2(r + 1) != 0
    ensures Pow2(r) <= x
    decreases x
  {
    if x % 2 == 1 then 0
    else
      var r := LowestSetBit(x / 2);
      DivModPow2(x, r + 1);
      DivModPow2(x, r + 2);
      1 + r
  }

  /** `UInt16.trailingZeroBitCount`: 16 for zero. */
  function TrailingZeroBitCount(x: UInt16): (r: nat)
    ensures r <= 16
    ensures x == 0 <==> r == 16
    ensures x > 0 ==> x % Pow2(r) == 0 && x % Pow2(r + 1) != 0
  {
    if x == 0 then 16
    else
      Pow2Values();
      LowestSetBitBound(x, 16);
      LowestSetBit(x)
  }

  lemma {:induction false} LowestSetBitBound(x: nat, n: nat)
    requires 0 < x < Pow2(n)
    ensures LowestSetBit(x) < n
  {
    if x % 2 == 0 {
      LowestSetBitBound(x / 2, n - 1);
    }
  }
}
