/** The bit-manipulation part of the C header `half.h`: the `half_t` union
    seen through its raw 16-bit member, the raw reinterpretation pair, the
    sign-clearing absolute value and the quiet-NaN constant. The arithmetic
    of the header (casts through `__fp16`) is the kernel of module Kernel. */
module CHalf {
  import opened Bitwise

  /** `half_t`: a union of a `uint16_t` and an `__fp16`; only the raw bits
      are observable here. */
  datatype HalfT = HalfT(bits: UInt16)

  /** `_half_from_raw`: reinterpret a raw 16-bit value as `half_t`. */
  function FromRaw(x: UInt16): (h: HalfT)
    ensures ToRaw(h) == x
  {
    HalfT(x)
  }

  /** `_half_to_raw`: the raw 16 bits of a `half_t`. */
  function ToRaw(h: HalfT): UInt16
  {
    h.bits
  }

  /** Every 16-bit value survives the trip through `half_t`. */
  lemma RawRoundTrip(x: UInt16)
    ensures ToRaw(FromRaw(x)) == x
  {
  }

  /** And every `half_t` is determined by its raw bits. */
  lemma HalfRoundTrip(h: HalfT)
    ensures FromRaw(ToRaw(h)) == h
  {
  }

  /** `_half_nan`: the raw pattern 0x7E00, exponent all ones and the top
      significand bit set. */
  function Nan(): (h: HalfT)
    ensures ToRaw(h) / 0x400 == 0x1F && ToRaw(h) % 0x400 == 0x200
  {
    FromRaw(0x7E00)
  }

  /** `_half_abs`: clear the sign bit (bit 15) and keep the other 15 bits. */
  function Abs(h: HalfT): (r: HalfT)
    ensures ToRaw(r) < 0x8000
  {
    FromRaw(ToRaw(h) % 0x8000)
  }

  /** `_half_abs` computes `raw & 0x7FFF`. */
  lemma AbsMasks(h: HalfT)
    ensures ToRaw(Abs(h)) == And(ToRaw(h), 0x7FFF)
  {
    Pow2Values();
    AndLowMask(ToRaw(h), 15);
  }

  lemma AbsIdempotent(h: HalfT)
    ensures Abs(Abs(h)) == Abs(h)
  {
  }

  lemma AbsKeepsNonSignBits(h: HalfT)
    ensures ToRaw(Abs(h)) == if ToRaw(h) >= 0x8000 then ToRaw(h) - 0x8000 else ToRaw(h)
  {
    var b := ToRaw(h);
    assert ToRaw(Abs(h)) == b % 0x8000;
  }
}
