/** The NAL unit and its one-byte header, as laid out in sections 7.3.1 and
    7.4.1 of ISO/IEC 14496-10:

      bit 7     forbidden_zero_bit
      bits 6-5  nal_ref_idc
      bits 4-0  nal_unit_type

    followed by the payload, whose length is whatever remains of the buffer. */
module Nalu {
  import opened Wrappers
  import opened Bytes

  /** The 2-bit nal_ref_idc. */
  type RefIdc = x: int | 0 <= x < 4

  /** The 5-bit nal_unit_type. */
  type UnitType = x: int | 0 <= x < 32

  /** The header fields are private to the package and only ever set by
      decoding, which masks them, so they always fit their widths. */
  datatype Header = Header(refIdc: RefIdc, unitType: UnitType)

  /** A NAL unit: the header and the opaque payload bytes after it. */
  datatype NALU = NALU(header: Header, payload: seq<byte>)

  /** The only way decoding a NAL unit can fail. */
  datatype NaluError = EmptyNalu

  /** Splits a header byte into its fields, `(x >> 5) & 0x03` and `x & 0x1f`;
      the forbidden_zero_bit is dropped. */
  function DecodeHeader(x: byte): (h: Header)
    // every bit except the forbidden_zero_bit lands in exactly one field
    ensures h.refIdc * 32 + h.unitType == x % 128
  {
    Header((x / 32) % 4, x % 32)
  }

  /** Packs the fields into a header byte, `ref<<5 | type`. */
  function EncodeHeader(h: Header): (x: byte)
    ensures x < 128
    ensures DecodeHeader(x) == h
  {
    h.refIdc * 32 + h.unitType
  }

  /** The arithmetic above is Go's shifting and masking, applied to the Go
      byte `v` and to the header fields `r` and `t` as bytes. */
  lemma HeaderIsGoBitOps(v: bv8, r: bv8, t: bv8)
    requires r < 4 && t < 32
    ensures DecodeHeader(v as int).refIdc == ((v >> 5) & 0x03) as int
    ensures DecodeHeader(v as int).unitType == (v & 0x1f) as int
    ensures EncodeHeader(Header(r as int, t as int)) == ((r << 5) | t) as int
  {
    ShiftMask(v);
    LowBitMasks(v);
    ShiftOr5(r, t);
  }

  /** `NALU.UnmarshalBinary`: the first byte is the header, the rest is the
      payload (possibly empty). */
  function Decode(b: seq<byte>): (r: Result<NALU, NaluError>)
    ensures r.Failure? <==> |b| == 0
    ensures r.Failure? ==> r.error == EmptyNalu
    ensures r.Success? ==> r.value.header.refIdc * 32 + r.value.header.unitType == b[0] % 128
    ensures r.Success? ==> r.value.payload == b[1..]
  {
    if |b| < 1 then Failure(EmptyNalu)
    else Success(NALU(DecodeHeader(b[0]), b[1..]))
  }

  /** `NALU.MarshalBinary`: the header byte followed by the payload verbatim. */
  function Encode(n: NALU): (r: seq<byte>)
    ensures |r| == 1 + |n.payload|
    ensures r[0] < 128 && DecodeHeader(r[0]) == n.header
    ensures r[1..] == n.payload
  {
    var h := [EncodeHeader(n.header)];
    if |n.payload| == 0 then h else h + n.payload
  }

  /** Decoding undoes encoding. */
  lemma DecodeEncode(n: NALU)
    ensures Decode(Encode(n)) == Success(n)
  {
  }

  /** Re-encoding a decoded buffer gives it back with the forbidden_zero_bit
      cleared and every other bit unchanged. */
  lemma EncodeDecode(b: seq<byte>)
    requires |b| > 0
    ensures Decode(b).Success?
    ensures Encode(Decode(b).value) == [b[0] % 128] + b[1..]
  {
    var r := Encode(Decode(b).value);
    assert r == [r[0]] + r[1..];
  }

  /** A buffer whose first byte has had bit 7 cleared equals the original
      exactly when that bit was 0, and keeps every later byte. */
  lemma ClearBit7(b: seq<byte>, r: seq<byte>)
    requires |b| > 0 && r == [b[0] % 128] + b[1..]
    ensures r == b <==> b[0] < 128
    ensures b[0] == r[0] || b[0] == r[0] + 128
    ensures r[1..] == b[1..]
  {
    assert b == [b[0]] + b[1..];
  }

  /** Hence the round trip is exact precisely when the forbidden_zero_bit is
      0, and otherwise differs from the input in that bit alone. */
  lemma EncodeDecodeExact(b: seq<byte>)
    requires |b| > 0
    ensures Decode(b).Success?
    ensures Encode(Decode(b).value) == b <==> b[0] < 128
    ensures b[0] == Encode(Decode(b).value)[0] || b[0] == Encode(Decode(b).value)[0] + 128
    ensures Encode(Decode(b).value)[1..] == b[1..]
  {
    EncodeDecode(b);
    ClearBit7(b, Encode(Decode(b).value));
  }
}
