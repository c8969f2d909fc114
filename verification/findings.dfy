/** The cursor of `AVCDecoderConfigurationRecord.UnmarshalBinary` (avc/avc.go,
    line 233) moves to byte 4 instead of byte 5, so the SPS count is read from
    the byte that holds `lengthSizeMinusOne`. In the layout of section
    5.2.4.1.1 of ISO/IEC 14496-15, byte 4 is six reserved bits set to 1 and
    the two bits of `lengthSizeMinusOne`, and byte 5 is three reserved bits
    set to 1 and the 5-bit SPS count. This module shows the as-written
    decoder rejecting such records and defines the decoder the record layout
    calls for, with its correctness proved. */
module CursorFinding {
  import opened Wrappers
  import opened Bytes
  import opened Nalu
  import opened ConfigRecord
  import AvcNames

  /** The record decoder with the cursor at byte 5: the SPS count is the low
      5 bits of byte 5 and the SPS entries start at byte 6. Everything else
      is as in `DecodeRecord`. */
  function DecodeRecordStandard(data: seq<byte>): (r: Result<Record, DecodeError>)
    ensures |data| < 6 <==> r == Failure(ShortRecord(|data|))
    ensures r.Success? ==>
              && |data| >= 7
              && r.value.configurationVersion == data[0]
              && r.value.profile == data[1]
              && r.value.profileCompatibility == data[2]
              && r.value.level == data[3]
              && r.value.lengthSizeMinusOne == data[4] % 4
              && |r.value.sps| == data[5] % 32
  {
    if |data| < 6 then Failure(ShortRecord(|data|))
    else
      var sps :- ParseEntries(data[6..], data[5] % 32, Sps);
      var atPpsCount := sps.1;
      if |atPpsCount| < 1 then Failure(NoPpsCount)
      else
        var pps :- ParseEntries(atPpsCount[1..], atPpsCount[0], Pps);
        Success(Record(data[0], data[1], data[2], data[3], data[4] % 4, sps.0, pps.0))
  }

  /** The header fields the corrected decoder reads from bytes 0 to 4. */
  function WithHeader(data: seq<byte>, r: Result<Record, DecodeError>): Result<Record, DecodeError>
    requires |data| >= 5
  {
    match r
    case Success(rec) =>
      Success(rec.(configurationVersion := data[0], profile := data[1],
                   profileCompatibility := data[2], level := data[3],
                   lengthSizeMinusOne := data[4] % 4))
    case Failure(e) => Failure(e)
  }

  /** Which error the corrected decoder reports once the fixed bytes are
      there: the first failing SPS entry's, the missing PPS count when the
      SPS entries use up the input, or the first failing PPS entry's. */
  lemma DecodeRecordStandardErrors(data: seq<byte>)
    requires |data| >= 6
    ensures var sps := ParseEntries(data[6..], data[5] % 32, Sps);
            sps.Failure? ==> DecodeRecordStandard(data) == Failure(sps.error)
    ensures var sps := ParseEntries(data[6..], data[5] % 32, Sps);
            sps.Success? && |sps.value.1| == 0 ==> DecodeRecordStandard(data) == Failure(NoPpsCount)
    ensures var sps := ParseEntries(data[6..], data[5] % 32, Sps);
            sps.Success? && |sps.value.1| >= 1 ==>
              var pps := ParseEntries(sps.value.1[1..], sps.value.1[0], Pps);
              pps.Failure? ==> DecodeRecordStandard(data) == Failure(pps.error)
  {
  }

  /** Past byte 0 the corrected decoder is the as-written one shifted by one
      byte: what the latter reads at byte 4 and on, the former reads at
      byte 5 and on. */
  lemma StandardIsShiftedAsWritten(data: seq<byte>)
    requires |data| >= 7
    ensures DecodeRecordStandard(data) == WithHeader(data, DecodeRecord(data[1..]))
  {
    var tail := data[1..];
    assert tail[4] == data[5];
    assert tail[4..][1..] == data[6..];
  }

  /** A layout whose head is one byte longer splits off its first byte. */
  lemma LayoutConsHead(x: byte, head: seq<byte>, spsRaw: seq<seq<byte>>, ppsRaw: seq<seq<byte>>, extra: seq<byte>)
    requires ValidEntries(spsRaw) && ValidEntries(ppsRaw) && |ppsRaw| <= 255
    ensures Layout([x] + head, spsRaw, ppsRaw, extra) == [x] + Layout(head, spsRaw, ppsRaw, extra)
  {
    ConcatAssoc([x], head, Frames(spsRaw) + ([|ppsRaw|] + (Frames(ppsRaw) + extra)));
  }

  /** Completeness of the corrected decoder: every record laid out as section
      5.2.4.1.1 of ISO/IEC 14496-15 describes it (six fixed bytes, the SPS
      count in the low 5 bits of byte 5, whatever the reserved bits hold)
      decodes, and to the fields it was built from. */
  lemma DecodeRecordStandardOfLayout(head: seq<byte>, spsRaw: seq<seq<byte>>, ppsRaw: seq<seq<byte>>, extra: seq<byte>)
    requires |head| == 6 && head[5] % 32 == |spsRaw|
    requires ValidEntries(spsRaw) && ValidEntries(ppsRaw) && |ppsRaw| <= 255
    ensures var r := DecodeRecordStandard(Layout(head, spsRaw, ppsRaw, extra));
            && r.Success?
            && r.value.configurationVersion == head[0]
            && r.value.profile == head[1]
            && r.value.profileCompatibility == head[2]
            && r.value.level == head[3]
            && r.value.lengthSizeMinusOne == head[4] % 4
            && DecodedFrom(r.value.sps, spsRaw)
            && DecodedFrom(r.value.pps, ppsRaw)
  {
    var data := Layout(head, spsRaw, ppsRaw, extra);
    assert head == [head[0]] + head[1..];
    LayoutConsHead(head[0], head[1..], spsRaw, ppsRaw, extra);
    assert data[1..] == Layout(head[1..], spsRaw, ppsRaw, extra);
    LayoutParts(head, spsRaw, ppsRaw, extra);
    DecodeRecordOfLayout(head[1..], spsRaw, ppsRaw, extra);
    StandardIsShiftedAsWritten(data);
  }

  /** A layout with a five-byte head after the first byte is a layout with
      a six-byte head. */
  lemma LayoutAfterFirst(data: seq<byte>, spsRaw: seq<seq<byte>>, ppsRaw: seq<seq<byte>>, extra: seq<byte>)
    requires ValidEntries(spsRaw) && ValidEntries(ppsRaw) && |ppsRaw| <= 255
    requires |data| >= 6 && data[1..] == Layout(data[1..][..5], spsRaw, ppsRaw, extra)
    ensures data == Layout(data[..6], spsRaw, ppsRaw, extra)
  {
    assert data[1..][..5] == data[1..6];
    LayoutConsHead(data[0], data[1..6], spsRaw, ppsRaw, extra);
    assert data[..6] == [data[0]] + data[1..6];
    assert data == [data[0]] + data[1..];
  }

  /** Soundness of the corrected decoder: whatever it accepts is an instance
      of the record layout, and the record holds what that instance carries. */
  lemma DecodeRecordStandardIsLayout(data: seq<byte>)
    returns (spsRaw: seq<seq<byte>>, ppsRaw: seq<seq<byte>>, extra: seq<byte>)
    requires DecodeRecordStandard(data).Success?
    ensures ValidEntries(spsRaw) && ValidEntries(ppsRaw) && |ppsRaw| <= 255
    ensures |spsRaw| == data[5] % 32
    ensures data == Layout(data[..6], spsRaw, ppsRaw, extra)
    ensures DecodedFrom(DecodeRecordStandard(data).value.sps, spsRaw)
    ensures DecodedFrom(DecodeRecordStandard(data).value.pps, ppsRaw)
  {
    StandardIsShiftedAsWritten(data);
    var tail := data[1..];
    var shifted := DecodeRecord(tail);
    assert shifted.Success?;
    assert DecodeRecordStandard(data).value.sps == shifted.value.sps;
    assert DecodeRecordStandard(data).value.pps == shifted.value.pps;
    spsRaw, ppsRaw, extra := DecodeRecordIsLayout(tail);
    assert tail[4] == data[5];
    LayoutAfterFirst(data, spsRaw, ppsRaw, extra);
  }

  /** The as-written decoder rejects every short enough record whose reserved
      bits are set as the record layout requires: the SPS count it reads is
      at least 28, and the first length it reads is at least 0xE000. */
  lemma AsWrittenRejectsConforming(data: seq<byte>)
    requires 6 <= |data| < 0xE007
    requires data[4] >= 0xFC && data[5] >= 0xE0
    ensures DecodeRecord(data).Failure?
  {
    var b := data[5..];
    assert data[4] % 32 >= 28;
    assert b[0] == data[5];
    if |b| >= 2 {
      assert BigEndian16(b[0], b[1]) > |b| - 2;
    }
    assert ParseEntry(b, Sps).Failure?;
  }

  /** On a conforming record the two decoders disagree: the corrected one
      decodes every record built from the layout with the reserved bits set
      and fewer than 0xE007 bytes in all, the as-written one none of them. */
  lemma CursorDiscrepancy(head: seq<byte>, spsRaw: seq<seq<byte>>, ppsRaw: seq<seq<byte>>, extra: seq<byte>)
    requires |head| == 6 && head[5] % 32 == |spsRaw|
    requires head[4] >= 0xFC && head[5] >= 0xE0
    requires ValidEntries(spsRaw) && ValidEntries(ppsRaw) && |ppsRaw| <= 255
    requires |Layout(head, spsRaw, ppsRaw, extra)| < 0xE007
    ensures DecodeRecordStandard(Layout(head, spsRaw, ppsRaw, extra)).Success?
    ensures DecodeRecord(Layout(head, spsRaw, ppsRaw, extra)).Failure?
  {
    var data := Layout(head, spsRaw, ppsRaw, extra);
    DecodeRecordStandardOfLayout(head, spsRaw, ppsRaw, extra);
    LayoutParts(head, spsRaw, ppsRaw, extra);
    AsWrittenRejectsConforming(data);
  }

  // ---------------------------------------------------------------------
  // A High-profile, level 3.1 record with one SPS and one PPS, laid out as
  // the record layout prescribes (byte 4 = 0xFF, byte 5 = 0xE1).

  const SampleSps: seq<byte> :=
    [0x67, 0x64, 0x00, 0x1F, 0xAC, 0xD9, 0x40, 0x50, 0x05, 0xBB, 0x01, 0x10, 0x00,
     0x00, 0x03, 0x00, 0x10, 0x00, 0x00, 0x03, 0x03, 0x20, 0xF1, 0x83, 0x19, 0x60]
  const SamplePps: seq<byte> := [0x68, 0xEE, 0x3C, 0x80]
  const SampleHead: seq<byte> := [0x01, 0x64, 0x00, 0x1F, 0xFF, 0xE1]

  /** The sample record, 41 bytes. */
  function SampleRecord(): (data: seq<byte>)
    ensures |data| == 41 && data[4] == 0xFF && data[5] == 0xE1
  {
    SampleHead + ([0x00, 0x1A] + SampleSps) + [0x01] + ([0x00, 0x04] + SamplePps)
  }

  /** The as-written decoder fails on the sample: it reads an SPS count of
      31 from byte 4 and a first length of 0xE100 from bytes 5 and 6, with 34
      bytes left. */
  lemma AsWrittenRejectsSample()
    ensures DecodeRecord(SampleRecord()) == Failure(ShortEntry(Sps, 0xE100, 34))
  {
    var data := SampleRecord();
    var b := data[5..];
    assert b[0] == 0xE1 && b[1] == 0x00 && |b| == 36;
    assert ParseEntry(b, Sps) == Failure(ShortEntry(Sps, 0xE100, 34));
  }

  lemma Regroup<T>(h: seq<T>, f1: seq<T>, c: seq<T>, f2: seq<T>)
    ensures h + f1 + c + f2 == h + (f1 + (c + (f2 + [])))
  {
    assert f2 + [] == f2;
    ConcatAssoc(f1, c, f2);
    ConcatAssoc(h, f1, c + f2);
    ConcatAssoc(h + f1, c, f2);
  }

  /** One entry framed on its own. */
  lemma FramesOfOne(e: seq<byte>)
    requires 1 <= |e| <= 65535
    ensures ValidEntries([e])
    ensures Frames([e]) == [Hi(|e|), Lo(|e|)] + e
  {
    assert [e][1..] == [];
  }

  /** The sample is the record layout with one SPS and one PPS. */
  lemma SampleIsLayout()
    ensures ValidEntries([SampleSps]) && ValidEntries([SamplePps])
    ensures SampleRecord() == Layout(SampleHead, [SampleSps], [SamplePps], [])
  {
    FramesOfOne(SampleSps);
    FramesOfOne(SamplePps);
    Regroup(SampleHead, [0x00, 0x1A] + SampleSps, [0x01], [0x00, 0x04] + SamplePps);
  }

  /** The sample's entries are an SPS (type 7) and a PPS (type 8), both with
      `nal_ref_idc` 3. */
  lemma SampleEntriesDecode(sps: seq<NALU>, pps: seq<NALU>)
    requires DecodedFrom(sps, [SampleSps]) && DecodedFrom(pps, [SamplePps])
    ensures sps == [NALU(Header(3, 7), SampleSps[1..])]
    ensures pps == [NALU(Header(3, 8), SamplePps[1..])]
  {
    assert Decode([SampleSps][0]) == Success(sps[0]);
    assert Decode([SamplePps][0]) == Success(pps[0]);
  }

  /** The names of the sample's profile and level. */
  lemma SampleNames()
    ensures AvcNames.ProfileName(100) == "High"
    ensures AvcNames.LevelName(31) == "Level_31"
  {
  }

  /** The corrected decoder reads the sample as a High profile, level 3.1
      record with a 4-byte NAL unit length, one SPS and one PPS. */
  lemma StandardAcceptsSample()
    ensures var r := DecodeRecordStandard(SampleRecord());
            && r.Success?
            && r.value.configurationVersion == 1
            && AvcNames.ProfileName(r.value.profile) == "High"
            && AvcNames.LevelName(r.value.level) == "Level_31"
            && r.value.lengthSizeMinusOne == 3
            && r.value.sps == [NALU(Header(3, 7), SampleSps[1..])]
            && r.value.pps == [NALU(Header(3, 8), SamplePps[1..])]
  {
    SampleIsLayout();
    DecodeRecordStandardOfLayout(SampleHead, [SampleSps], [SamplePps], []);
    var r := DecodeRecordStandard(SampleRecord()).value;
    SampleEntriesDecode(r.sps, r.pps);
    assert SampleHead[0] == 1 && SampleHead[1] == 100 && SampleHead[3] == 31 && SampleHead[4] % 4 == 3;
    SampleNames();
  }

  /** With no SPS entries and a PPS count of 0, six bytes make a record with
      two empty lists under the as-written decoder. */
  lemma AsWrittenEmptyLists()
    ensures DecodeRecord([1, 66, 0, 30, 0, 0]) == Success(Record(1, 66, 0, 30, 0, [], []))
  {
    var data: seq<byte> := [1, 66, 0, 30, 0, 0];
    assert data[4..][1..] == [0];
    assert [0][1..] == [];
  }
}
