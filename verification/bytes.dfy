/** Bytes, and the few bit operations of the codec written as arithmetic.
    Each arithmetic form is proved equal to the Go expression it stands for,
    evaluated on bit-vectors of the same width. */
module Bytes {

  /** An unsigned 8-bit value (Go's `byte` / `uint8`). */
  type byte = x: int | 0 <= x < 256

  /** An unsigned 16-bit value (Go's `uint16`). */
  type uint16 = x: int | 0 <= x < 65536

  /** Go's `v & 0x03` and `v & 0x1f` keep the low 2 and 5 bits. The last
      two clauses describe the model's `% 128`, which drops the
      forbidden_zero_bit: it keeps the low 7 bits, and bit 7 is clear exactly
      when the value is below 128. */
  lemma LowBitMasks(v: bv8)
    ensures (v & 0x03) as int == v as int % 4
    ensures (v & 0x1f) as int == v as int % 32
    ensures (v & 0x7f) as int == v as int % 128
    ensures (v & 0x80 == 0) <==> v as int < 128
  {
  }

  /** Go's `(v >> 5) & 0x03` takes bits 6-5. */
  lemma ShiftMask(v: bv8)
    ensures ((v >> 5) & 0x03) as int == (v as int / 32) % 4
  {
  }

  /** Go's `r<<5 | t` packs disjoint fields, so the or is a sum. */
  lemma ShiftOr5(r: bv8, t: bv8)
    requires r < 4 && t < 32
    ensures ((r << 5) | t) as int == r as int * 32 + t as int
  {
  }

  /** Go's `uint16(hi)<<8 | uint16(lo)` is the big-endian value of the two bytes. */
  lemma ShiftOr8(hi: bv8, lo: bv8)
    ensures (((hi as bv16) << 8) | (lo as bv16)) as int == hi as int * 256 + lo as int
  {
  }
}
