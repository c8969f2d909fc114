# H.264 (AVC) metadata codec

A Dafny model of the codec in `avc/avc.go`. It has three parts:

- **NAL units.** `NALU.UnmarshalBinary` splits a buffer into a one-byte header and a payload. The header byte holds `nal_ref_idc` in bits 6-5 and `nal_unit_type` in bits 4-0 (sections 7.3.1 and 7.4.1 of ISO/IEC 14496-10). `NALU.MarshalBinary` packs them back.
- **Profile and level names.** `AVCProfile.String` and `AVCLevel.String` look up a code and fall back to `"Forbidden"`.
- **The decoder configuration record.** `AVCDecoderConfigurationRecord.UnmarshalBinary` decodes the `avcC` record of section 5.2.4.1.1 of ISO/IEC 14496-15. It reads five fixed bytes, a counted list of SPS NAL units and a counted list of PPS NAL units. Each entry in a list has a 16-bit big-endian length prefix.

The record decoder is modelled as the code is written. The code moves its cursor to byte 4, not byte 5, after the fixed fields. So the SPS count comes from the low 5 bits of byte 4, the byte that also gives `lengthSizeMinusOne`, and the SPS entries start at byte 5. The section "Findings" below covers this. It also gives the decoder the record layout calls for, with its correctness proved.

Modules:

- `Wrappers`: the `Result` type.
- `Bytes`: the byte type, plus the proofs that each bit operation of the Go code equals the arithmetic the model uses.
- `Nalu`: the NAL unit codec.
- `AvcNames`: the name tables.
- `ConfigRecord`: the record decoder as a pure function, and the byte layout it accepts.
- `Unmarshal`: the record decoder as the Go code runs it. It moves a cursor and loops over the entries.
- `CursorFinding`: the cursor discrepancy.

Bytes are integers in `[0, 256)`. Each `&`, `>>`, `<<` and `|` of the source is written as arithmetic and proved equal to the bit-vector expression (`Bytes`, `Nalu.HeaderIsGoBitOps`, `ConfigRecord.BigEndian16IsGoBitOps`, `ConfigRecord.DecodeRecordMasksAreGoBitOps`).

Decoding a record is a pure function from bytes to either a fresh `Record` or a `DecodeError`.

- The Go method fills in its receiver field by field.
- It appends to the receiver's existing lists.
- So a failure leaves a partly updated receiver behind.

The model does not reproduce this receiver behaviour.

Accepted inputs are characterised independently of the decoder. `ConfigRecord.Layout` builds a record from five fixed bytes, the SPS frames, the PPS count byte, the PPS frames and any trailing bytes. Each frame is a 16-bit length followed by that many bytes. The decoder is proved:

- complete for this grammar: every instance whose byte 4 holds the number of SPS entries in its low 5 bits decodes, to what it was built from;
- sound for it: everything it accepts is an instance.

## Model

| member | source | states |
|---|---|---|
| Bytes.LowBitMasks | avc/avc.go:232-235 | Masking a byte with 0x03 or 0x1f, as the code does, keeps its value modulo 4 or 32. The model's `% 128`, which drops the forbidden_zero_bit, is the mask 0x7f, and bit 7 is clear exactly when the value is below 128. |
| Bytes.ShiftMask | avc/avc.go:70 | `(v >> 5) & 0x03` is bits 6-5 of the byte, i.e. `(v / 32) % 4`. |
| Bytes.ShiftOr5 | avc/avc.go:78 | For a 2-bit `r` and a 5-bit `t`, `r<<5 \| t` is `r*32 + t`. |
| Bytes.ShiftOr8 | avc/avc.go:241 | `uint16(hi)<<8 \| uint16(lo)` is the big-endian value `hi*256 + lo`. |
| Nalu.DecodeHeader | avc/avc.go:70-71 | Every header bit except bit 7 lands in exactly one of the two fields: `refIdc*32 + unitType` is the byte modulo 128. |
| Nalu.EncodeHeader | avc/avc.go:78 | The packed byte has bit 7 clear, and splitting it again gives back both fields. |
| Nalu.HeaderIsGoBitOps | avc/avc.go:70-78 | `ref_idc` is `(b>>5)&3`, the type is `b&0x1f`, and the encoded byte is `ref<<5 \| type`, all on 8-bit values. |
| Nalu.Decode | avc/avc.go:66-74 | Fails, with the empty-NALU error, exactly when the input is empty. Otherwise the header holds bits 6-0 of byte 0 and the payload is everything after byte 0. |
| Nalu.Encode | avc/avc.go:76-84 | The output is one byte longer than the payload. Its first byte has bit 7 clear and carries the header. The rest is the payload verbatim, so an empty payload gives one byte. |
| Nalu.DecodeEncode | avc/avc.go:66-84 | Decoding an encoded NAL unit gives back the same header and payload. |
| Nalu.EncodeDecode | avc/avc.go:66-84 | Re-encoding a decoded non-empty buffer gives the buffer back with bit 7 of byte 0 cleared and every other byte unchanged. |
| Nalu.EncodeDecodeExact | avc/avc.go:70-78 | The NALU round trip is exact if and only if bit 7 of byte 0 is 0. Otherwise the result differs from the input in that bit alone. |
| AvcNames.ProfileName | avc/avc.go:90-135 | Each of the 12 profile codes gets its name from the reference table. Every other 16-bit value gets "Forbidden". |
| AvcNames.LevelName | avc/avc.go:140-190 | Each of the 14 level codes gets its name from the reference table. Every other byte gets "Forbidden". |
| AvcNames.ProfileNameCharacterised | avc/avc.go:106-135 | A profile is "Forbidden" exactly when its code is not a known one, and distinct known codes have distinct names. |
| AvcNames.LevelNameCharacterised | avc/avc.go:157-190 | A level is "Forbidden" exactly when its code is not a known one, and distinct known codes have distinct names. |
| AvcNames.EightBitProfilesAreNotExtended | avc/avc.go:87-104 | A profile code below 256 never names ConstrainedBaseline, High10Intra, High422Intra or High444Intra. |
| ConfigRecord.BigEndian16Bijective | avc/avc.go:241 | The 16-bit length and its two bytes determine each other. |
| ConfigRecord.BigEndian16IsGoBitOps | avc/avc.go:241 | The length the model reads is Go's `uint16(b[0])<<8 \| uint16(b[1])`. |
| ConfigRecord.ParseEntry | avc/avc.go:238-251 | An entry fails in these cases: fewer than 2 bytes remain (that count is reported); the declared length exceeds what remains after the prefix (both are reported); the declared length is 0 (empty NAL unit). Otherwise it succeeds, consuming at least 3 bytes. Failures name the list being read. |
| ConfigRecord.ParseEntryFramed | avc/avc.go:241-251 | A parsed entry consumed exactly one frame: a 2-byte length and that many bytes. The entry is the NAL unit decoding of those bytes, and the cursor sits right after them. |
| ConfigRecord.ParseEntries | avc/avc.go:237-254 | A count of 0 consumes nothing. On success, exactly `count` entries were parsed, with at least 3 bytes consumed per entry. Each payload fits a 16-bit length. Any failure is an entry failure of that list. |
| ConfigRecord.DecodeRecord | avc/avc.go:222-281 | Fails with the byte count exactly when there are fewer than 6 bytes. On success the fixed fields are bytes 0-3 verbatim and `lengthSizeMinusOne` is the low 2 bits of byte 4 (at most 3). The profile is below 256. The SPS list has (byte 4 & 0x1f) entries, at most 31. The PPS list has at most 255 entries. The missing-PPS-count error cannot occur when the SPS count is 0. |
| ConfigRecord.DecodeRecordErrors | avc/avc.go:237-276 | Past the 6-byte check, the record's error is the first failing SPS entry's error. If the SPS entries use up every byte, the error is the missing PPS count. Otherwise it is the first failing PPS entry's error. |
| ConfigRecord.DecodeRecordMasksAreGoBitOps | avc/avc.go:232-235 | The decoded `lengthSizeMinusOne` is `b[4] & 0x03`, and the SPS list length is the same byte `& 0x1f`. |
| ConfigRecord.DecodedProfileIsNotExtended | avc/avc.go:229 | A decoded record's profile never names one of the four profiles whose codes exceed 255. |
| ConfigRecord.ParseEntryOfFrame | avc/avc.go:238-251 | A framed non-empty entry, followed by anything, parses to its decoding and leaves exactly what follows. |
| ConfigRecord.ParseEntriesOfFrames | avc/avc.go:237-254 | A run of frames parses to the decodings of the framed entries, in input order, and leaves what follows. |
| ConfigRecord.ParseEntriesFramed | avc/avc.go:237-254 | Whatever a successful entry run consumed is a run of `count` frames. The parsed list is their decodings, in order. |
| ConfigRecord.DecodeRecordOfLayout | avc/avc.go:222-281 | Completeness. Every layout instance decodes when its SPS count sits in the low 5 bits of byte 4. The fixed fields come from its first five bytes. The SPS and PPS lists are the decodings of its entries, in order. The PPS count is a full byte. |
| ConfigRecord.DecodeRecordIsLayout | avc/avc.go:222-281 | Soundness. Every accepted input is a layout instance whose SPS count is (byte 4 & 0x1f). The decoded lists are the decodings of its SPS and PPS entries. |
| ConfigRecord.DecodeRecordIgnoresTrailing | avc/avc.go:256-280 | Appending bytes to an accepted record leaves the decoded record unchanged. |
| Unmarshal.UnmarshalEntry | avc/avc.go:238-251 | One pass of the entry loop: read the length, check it against what remains, decode, move the cursor. It computes exactly `ParseEntry`. |
| Unmarshal.UnmarshalEntries | avc/avc.go:237-254 | The appending entry loop computes exactly `ParseEntries`: the same list in the same order, and the same error. |
| Unmarshal.UnmarshalRecord | avc/avc.go:222-281 | The Go method's cursor walk (`b = b[4:]`, `b = b[1:]`, the two loops, the PPS-count check) computes exactly `DecodeRecord`. |
| CursorFinding.DecodeRecordStandard | avc/avc.go:233-237 | The corrected decoder fails with the byte count exactly when there are fewer than 6 bytes. On success the input has at least 7 bytes and the fixed fields are as before. The SPS list has (byte 5 & 0x1f) entries. |
| CursorFinding.DecodeRecordStandardErrors | avc/avc.go:237-276 | The same error cases for the corrected decoder, with the SPS entries read from byte 6. |
| CursorFinding.StandardIsShiftedAsWritten | avc/avc.go:233 | For inputs of at least 7 bytes, the corrected decoder from byte 1 on is the as-written one shifted by one byte. The two differ only in which bytes give the fixed fields. |
| CursorFinding.DecodeRecordStandardOfLayout | avc/avc.go:233-237 | Every record laid out as ISO/IEC 14496-15 prescribes decodes under the corrected decoder, to what it was built from. The layout has six fixed bytes, with the SPS count in the low 5 bits of byte 5. |
| CursorFinding.DecodeRecordStandardIsLayout | avc/avc.go:233-237 | Everything the corrected decoder accepts is a record with six fixed bytes, and the lists are the decodings of its entries. |
| CursorFinding.AsWrittenRejectsConforming | avc/avc.go:233-245 | The as-written decoder fails on every input of 6 to 57350 bytes that has byte 4 at 0xFC or more and byte 5 at 0xE0 or more. Those are the reserved bits the record layout sets to 1. |
| CursorFinding.CursorDiscrepancy | avc/avc.go:233-245 | On every conforming record with its reserved bits set and fewer than 57351 bytes, the corrected decoder succeeds and the as-written decoder fails. |
| CursorFinding.AsWrittenRejectsSample | avc/avc.go:233-245 | The as-written decoder rejects the 41-byte sample record. The SPS length it reads is 0xE100, and 34 bytes remain. |
| CursorFinding.StandardAcceptsSample | avc/avc.go:222-281 | The corrected decoder reads the sample as version 1, profile "High", level "Level_31" and a 4-byte NAL length field. Its one SPS is type 7 and its one PPS is type 8, both with `nal_ref_idc` 3. |
| CursorFinding.AsWrittenEmptyLists | avc/avc.go:224-260 | Six bytes with an SPS count of 0 and a PPS count of 0 decode to a record with both lists empty. |

## Left out

- Error values: the Go code returns formatted messages wrapped by an external errors package. Here an error is a `DecodeError` constructor carrying the numbers the message reports.
- ConfigRecord.DecodeError: adds which list (SPS or PPS) an entry error came from. The Go messages do not say. Like the code, it does not report the entry index. `ShortRecord` carries only the available byte count, because the required count is always 6.
- Receiver mutation: the Go decoder fills in its receiver field by field and appends to the receiver's existing lists, so a failure leaves a partly updated receiver behind. The model returns a fresh record or an error, so a reused receiver's growing lists are not modelled.
- Slice aliasing: the decoded payload shares the caller's buffer. Sequences here are values.
- Loop counter typing: the two loops compare an `int` counter with a `uint8` count, which Go rejects as a type mismatch. The model takes the evident meaning, that the loop runs `count` times.
- Nalu.Header: the header fields are a 2-bit and a 5-bit range rather than `uint8`. Every header built by decoding fits those ranges, and the fields are private to the package.
- Record encoder: the source has none, so there is no record round trip. The `Layout` grammar stands in as the independent description of accepted inputs.
- AnnexB byte streams and RTP packetisation (RFC 6184) have no code in this component.
- SPS and PPS contents are kept as opaque payload bytes and not interpreted.
- The SPS extension: the trailing `sequenceParameterSetExtNALUnit` part of the record is not parsed, and neither is any trailing data. `DecodeRecordIgnoresTrailing` states that it has no effect.

## Findings

| source | as written | input that shows it | evidently intended | confidence | as-written member | corrected member |
|---|---|---|---|---|---|---|
| avc/avc.go:233 | `b = b[4:]` leaves the cursor on byte 4. The SPS count is then the low 5 bits of the `lengthSizeMinusOne` byte, and SPS entries are read from byte 5. | `01 64 00 1F FF E1 00 1A 67 64 00 1F …` (41 bytes: one 26-byte SPS, one 4-byte PPS). The code reads an SPS count of 31 from byte 4 and then a first SPS length of 0xE100 against 34 remaining bytes, and fails. The same happens to every conforming record under 57351 bytes. | `b = b[5:]`: the SPS count is the low 5 bits of byte 5, and the entries start at byte 6, as section 5.2.4.1.1 of ISO/IEC 14496-15 lays out. | high; not executed | CursorFinding.AsWrittenRejectsSample | CursorFinding.DecodeRecordStandardOfLayout |

The rest of the model, `ConfigRecord.DecodeRecord` and `Unmarshal.UnmarshalRecord`, follows the code as written. `CursorFinding.DecodeRecordStandard` is the corrected decoder, with these properties proved:

- completeness (`DecodeRecordStandardOfLayout`);
- soundness (`DecodeRecordStandardIsLayout`);
- its agreement with the as-written decoder shifted by one byte (`StandardIsShiftedAsWritten`).
