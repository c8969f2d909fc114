/** The AVCDecoderConfigurationRecord (`avcC`) of section 5.2.4.1.1 of
    ISO/IEC 14496-15, decoded the way `AVCDecoderConfigurationRecord.UnmarshalBinary`
    in avc/avc.go does it, cursor quirk included.

    The Go method fills in the fields of its receiver one by one and appends
    to the receiver's existing SPS and PPS lists, so on failure it leaves a
    partly updated receiver behind, and on a reused receiver the lists grow.
    It is not all-or-nothing. Here decoding is a pure function from bytes to
    either a fresh record or an error. */
module ConfigRecord {
  import opened Wrappers
  import opened Bytes
  import opened Nalu
  import AvcNames

  /** Which of the two parameter-set lists an entry belongs to. */
  datatype ParamSetKind = Sps | Pps

  datatype DecodeError =
      /** Fewer than the 6 bytes of the fixed header. */
    | ShortRecord(available: nat)
      /** Fewer than 2 bytes left for an entry's length prefix. */
    | ShortLengthPrefix(list: ParamSetKind, available: nat)
      /** The declared entry length exceeds what is left. */
    | ShortEntry(list: ParamSetKind, required: nat, available: nat)
      /** The entry's bytes are not a NAL unit (only an empty entry is not). */
    | BadEntry(list: ParamSetKind, cause: NaluError)
      /** No byte left for the PPS count. */
    | NoPpsCount

  /** The errors an entry of the given list can fail with. */
  predicate IsEntryError(e: DecodeError, kind: ParamSetKind) {
    match e
    case ShortLengthPrefix(k, _) => k == kind
    case ShortEntry(k, _, _) => k == kind
    case BadEntry(k, _) => k == kind
    case _ => false
  }

  /** The decoded record. The profile is 16 bits wide, as Go's `AVCProfile`
      is, although the record only ever fills the low 8. */
  datatype Record = Record(
    configurationVersion: byte,
    profile: uint16,
    profileCompatibility: byte,
    level: byte,
    lengthSizeMinusOne: byte,
    sps: seq<NALU>,
    pps: seq<NALU>)

  /** A big-endian 16-bit length, Go's `int(uint16(hi)<<8 | uint16(lo))`
      (`Bytes.ShiftOr8` proves the two equal). */
  function BigEndian16(hi: byte, lo: byte): (n: uint16)
  {
    hi * 256 + lo
  }

  // The two bytes of a big-endian 16-bit length.
  function Hi(n: uint16): byte {
    n / 256
  }

  function Lo(n: uint16): byte {
    n % 256
  }

  /** The length prefix is a bijection between byte pairs and 16-bit values. */
  lemma BigEndian16Bijective(hi: byte, lo: byte, n: uint16)
    ensures Hi(BigEndian16(hi, lo)) == hi && Lo(BigEndian16(hi, lo)) == lo
    ensures BigEndian16(Hi(n), Lo(n)) == n
  {
  }

  /** `BigEndian16` is Go's `uint16(hi)<<8 | uint16(lo)` on the bytes `hi` and `lo`. */
  lemma BigEndian16IsGoBitOps(hi: bv8, lo: bv8)
    ensures BigEndian16(hi as int, lo as int) == (((hi as bv16) << 8) | (lo as bv16)) as int
  {
    ShiftOr8(hi, lo);
  }

  /** Parses one length-prefixed parameter-set entry at the head of `b` and
      returns the decoded NAL unit together with the bytes after it. */
  function ParseEntry(b: seq<byte>, kind: ParamSetKind): (r: Result<(NALU, seq<byte>), DecodeError>)
    ensures |b| < 2 ==> r == Failure(ShortLengthPrefix(kind, |b|))
    ensures r.Failure? ==> IsEntryError(r.error, kind)
    ensures |b| >= 2 && BigEndian16(b[0], b[1]) > |b| - 2 ==>
              r == Failure(ShortEntry(kind, BigEndian16(b[0], b[1]), |b| - 2))
    ensures |b| >= 2 && BigEndian16(b[0], b[1]) == 0 ==> r == Failure(BadEntry(kind, EmptyNalu))
    ensures |b| >= 2 && 0 < BigEndian16(b[0], b[1]) <= |b| - 2 ==> r.Success?
    ensures r.Success? ==> |b| >= 3 + |r.value.1| && |r.value.0.payload| < 65535
  {
    if |b| < 2 then Failure(ShortLengthPrefix(kind, |b|))
    else
      var length := BigEndian16(b[0], b[1]);
      if |b| - 2 < length then Failure(ShortEntry(kind, length, |b| - 2))
      else
        match Decode(b[2..2 + length])
        case Failure(e) => Failure(BadEntry(kind, e))
        case Success(n) => Success((n, b[2 + length..]))
  }

  /** On success the bytes consumed are exactly one frame, `e`, and the entry
      is the decoding of the framed bytes. */
  lemma ParseEntryFramed(b: seq<byte>, kind: ParamSetKind) returns (e: seq<byte>)
    requires ParseEntry(b, kind).Success?
    ensures 1 <= |e| <= 65535 && b == Frame(e) + ParseEntry(b, kind).value.1
    ensures Decode(e) == Success(ParseEntry(b, kind).value.0)
  {
    var length := BigEndian16(b[0], b[1]);
    e := b[2..2 + length];
    SplitFrame(b, length);
  }

  /** A buffer whose first two bytes give the length `n` of what follows them
      is the frame of those `n` bytes followed by the rest. */
  lemma SplitFrame(b: seq<byte>, n: nat)
    requires 2 + n <= |b| && n == BigEndian16(b[0], b[1])
    ensures b == Frame(b[2..2 + n]) + b[2 + n..]
  {
    SplitTwo(b, n);
  }

  lemma SplitTwo<T>(b: seq<T>, n: nat)
    requires 2 + n <= |b|
    ensures |b[2..2 + n]| == n
    ensures b == [b[0], b[1]] + b[2..2 + n] + b[2 + n..]
  {
  }

  /** Parses `count` entries in a row, in input order. */
  function ParseEntries(b: seq<byte>, count: nat, kind: ParamSetKind)
    : (r: Result<(seq<NALU>, seq<byte>), DecodeError>)
    ensures count == 0 ==> r == Success(([], b))
    ensures r.Failure? ==> IsEntryError(r.error, kind)
    ensures r.Success? ==> |r.value.0| == count
    // every entry took at least 3 bytes
    ensures r.Success? ==> 3 * count + |r.value.1| <= |b|
    ensures r.Success? ==> forall i :: 0 <= i < |r.value.0| ==> |r.value.0[i].payload| < 65535
    decreases count
  {
    if count == 0 then Success(([], b))
    else
      var first :- ParseEntry(b, kind);
      var others :- ParseEntries(first.1, count - 1, kind);
      Success(([first.0] + others.0, others.1))
  }

  /** `AVCDecoderConfigurationRecord.UnmarshalBinary`, as written. After the
      fixed fields the cursor moves to byte 4 (not 5), so the SPS count is
      taken from the low 5 bits of the same byte that gave
      `lengthSizeMinusOne`, and the SPS entries start at byte 5. */
  function DecodeRecord(data: seq<byte>): (r: Result<Record, DecodeError>)
    ensures |data| < 6 <==> r == Failure(ShortRecord(|data|))
    ensures r.Success? ==>
              && r.value.configurationVersion == data[0]
              && r.value.profile == data[1]
              && r.value.profileCompatibility == data[2]
              && r.value.level == data[3]
              && r.value.lengthSizeMinusOne == data[4] % 4
    ensures r.Success? ==> r.value.lengthSizeMinusOne <= 3 && r.value.profile < 256
    ensures r.Success? ==> |r.value.sps| == data[4] % 32 <= 31 && |r.value.pps| <= 255
    ensures r.Success? ==>
              (forall i :: 0 <= i < |r.value.sps| ==> |Encode(r.value.sps[i])| <= 65535)
              && (forall i :: 0 <= i < |r.value.pps| ==> |Encode(r.value.pps[i])| <= 65535)
    // the PPS count byte is always there when the SPS list is empty
    ensures |data| >= 6 && data[4] % 32 == 0 ==> r != Failure(NoPpsCount)
  {
    if |data| < 6 then Failure(ShortRecord(|data|))
    else
      var configurationVersion := data[0];
      var profile := data[1];
      var profileCompatibility := data[2];
      var level := data[3];
      var lengthSizeMinusOne := data[4] % 4;                 // b[4] & 0x03
      var atSpsCount := data[4..];                            // b = b[4:]
      var numOfSequenceParameterSets := atSpsCount[0] % 32;   // b[0] & 0x1f
      var sps :- ParseEntries(atSpsCount[1..], numOfSequenceParameterSets, Sps);
      var atPpsCount := sps.1;
      if |atPpsCount| < 1 then Failure(NoPpsCount)
      else
        var numOfPictureParameterSets := atPpsCount[0];
        var pps :- ParseEntries(atPpsCount[1..], numOfPictureParameterSets, Pps);
        Success(Record(configurationVersion, profile, profileCompatibility, level,
                       lengthSizeMinusOne, sps.0, pps.0))
  }

  /** The masks of `DecodeRecord` are Go's `b[4] & 0x03` and `b[0] & 0x1f`. */
  lemma DecodeRecordMasksAreGoBitOps(data: seq<byte>, v: bv8)
    requires DecodeRecord(data).Success? && v as int == data[4]
    ensures DecodeRecord(data).value.lengthSizeMinusOne == (v & 0x03) as int
    ensures |DecodeRecord(data).value.sps| == (v & 0x1f) as int
  {
    LowBitMasks(v);
  }

  /** A decoded record never carries one of the extended (16-bit) profiles. */
  lemma DecodedProfileIsNotExtended(data: seq<byte>)
    requires DecodeRecord(data).Success?
    ensures AvcNames.ProfileName(DecodeRecord(data).value.profile)
              !in {"ConstrainedBaseline", "High10Intra", "High422Intra", "High444Intra"}
  {
    AvcNames.EightBitProfilesAreNotExtended(DecodeRecord(data).value.profile);
  }

  // ---------------------------------------------------------------------
  // The byte layout the decoder accepts, stated independently of it.

  /** Each entry fits the 16-bit length prefix and is a NAL unit (non-empty). */
  predicate ValidEntries(es: seq<seq<byte>>) {
    forall i :: 0 <= i < |es| ==> 1 <= |es[i]| <= 65535
  }

  /** One entry behind its big-endian 16-bit length. */
  function Frame(e: seq<byte>): seq<byte>
    requires |e| <= 65535
  {
    [Hi(|e|), Lo(|e|)] + e
  }

  /** A run of framed entries. */
  function Frames(es: seq<seq<byte>>): seq<byte>
    requires ValidEntries(es)
  {
    if |es| == 0 then [] else Frame(es[0]) + Frames(es[1..])
  }

  /** A record as the decoder reads it: `head` holds the bytes before the
      first SPS entry (5 of them for the as-written decoder), then the SPS
      frames, the PPS count byte, the PPS frames and anything at all. The
      grammar does not tie the SPS count in the head to the number of SPS
      frames; the decoder reads back what an instance was built from only
      when it does (`DecodeRecordOfLayout`). */
  ghost function Layout(head: seq<byte>, spsRaw: seq<seq<byte>>, ppsRaw: seq<seq<byte>>, extra: seq<byte>): seq<byte>
    requires ValidEntries(spsRaw) && ValidEntries(ppsRaw) && |ppsRaw| <= 255
  {
    head + (Frames(spsRaw) + ([|ppsRaw|] + (Frames(ppsRaw) + extra)))
  }

  /** The entries decoded from raw entry bytes, in order. */
  ghost predicate DecodedFrom(ns: seq<NALU>, es: seq<seq<byte>>) {
    |ns| == |es| && forall i :: 0 <= i < |es| ==> Decode(es[i]) == Success(ns[i])
  }

  lemma DecodedFromUnique(ns: seq<NALU>, ms: seq<NALU>, es: seq<seq<byte>>)
    requires DecodedFrom(ns, es) && DecodedFrom(ms, es)
    ensures ns == ms
  {
    assert forall i :: 0 <= i < |ns| ==> Decode(es[i]) == Success(ns[i]) == Success(ms[i]);
  }

  lemma ConcatAssoc<T>(a: seq<T>, b: seq<T>, c: seq<T>)
    ensures a + (b + c) == a + b + c
  {
  }

  lemma JoinTwo<T>(x: T, y: T, e: seq<T>, rest: seq<T>)
    ensures var b := [x, y] + e + rest;
            b[0] == x && b[1] == y && b[2..2 + |e|] == e && b[2 + |e|..] == rest
  {
    var b := [x, y] + e + rest;
    assert b[2..2 + |e|] == e;
  }

  /** A framed entry parses back to the decoding of its bytes, whatever follows. */
  lemma ParseEntryOfFrame(e: seq<byte>, rest: seq<byte>, kind: ParamSetKind)
    requires 1 <= |e| <= 65535
    ensures ParseEntry(Frame(e) + rest, kind) == Success((Decode(e).value, rest))
  {
    JoinTwo(Hi(|e|), Lo(|e|), e, rest);
  }

  /** Framing and decoding both distribute over putting one entry in front. */
  lemma FramesCons(e: seq<byte>, tail: seq<seq<byte>>, n: NALU, ns: seq<NALU>, rest: seq<byte>)
    requires 1 <= |e| <= 65535 && ValidEntries(tail)
    requires Decode(e) == Success(n) && DecodedFrom(ns, tail)
    ensures ValidEntries([e] + tail)
    ensures Frames([e] + tail) + rest == Frame(e) + (Frames(tail) + rest)
    ensures DecodedFrom([n] + ns, [e] + tail)
  {
    var es := [e] + tail;
    assert es[0] == e && es[1..] == tail;
    forall i | 0 < i < |es|
      ensures es[i] == tail[i - 1] && ([n] + ns)[i] == ns[i - 1]
    {
    }
    ConcatAssoc(Frame(e), Frames(tail), rest);
  }

  /** Completeness of the entry parser: a run of frames parses to the
      decodings of the framed bytes, in order, leaving what follows. */
  lemma {:induction false} ParseEntriesOfFrames(es: seq<seq<byte>>, rest: seq<byte>, kind: ParamSetKind)
    requires ValidEntries(es)
    ensures ParseEntries(Frames(es) + rest, |es|, kind).Success?
    ensures ParseEntries(Frames(es) + rest, |es|, kind).value.1 == rest
    ensures DecodedFrom(ParseEntries(Frames(es) + rest, |es|, kind).value.0, es)
  {
    if |es| > 0 {
      var tail := es[1..];
      assert es == [es[0]] + tail;
      assert ValidEntries(tail);
      ParseEntriesOfFrames(tail, rest, kind);
      var ms := ParseEntries(Frames(tail) + rest, |tail|, kind).value.0;
      var n := Decode(es[0]).value;
      FramesCons(es[0], tail, n, ms, rest);
      ParseEntryOfFrame(es[0], Frames(tail) + rest, kind);
      assert ParseEntries(Frames(es) + rest, |es|, kind) == Success(([n] + ms, rest));
    }
  }

  /** Soundness of the entry parser: whatever it accepts is a run of frames
      followed by the bytes it returns; `es` are the framed entry bytes. */
  lemma {:induction false} ParseEntriesFramed(b: seq<byte>, count: nat, kind: ParamSetKind)
    returns (es: seq<seq<byte>>)
    requires ParseEntries(b, count, kind).Success?
    ensures ValidEntries(es) && |es| == count
    ensures b == Frames(es) + ParseEntries(b, count, kind).value.1
    ensures DecodedFrom(ParseEntries(b, count, kind).value.0, es)
    decreases count
  {
    var r := ParseEntries(b, count, kind).value;
    if count == 0 {
      es := [];
    } else {
      var first := ParseEntry(b, kind).value;
      var e := ParseEntryFramed(b, kind);
      var tail := ParseEntriesFramed(first.1, count - 1, kind);
      var others := ParseEntries(first.1, count - 1, kind).value;
      assert r == ([first.0] + others.0, others.1);
      FramesCons(e, tail, first.0, others.0, others.1);
      es := [e] + tail;
    }
  }

  /** Where the parts of a layout instance sit. */
  lemma LayoutParts(head: seq<byte>, spsRaw: seq<seq<byte>>, ppsRaw: seq<seq<byte>>, extra: seq<byte>)
    requires ValidEntries(spsRaw) && ValidEntries(ppsRaw) && |ppsRaw| <= 255
    ensures var data := Layout(head, spsRaw, ppsRaw, extra);
            var afterSps := [|ppsRaw|] + (Frames(ppsRaw) + extra);
            && |data| > |head|
            && data[..|head|] == head
            && data[|head|..] == Frames(spsRaw) + afterSps
            && afterSps[0] == |ppsRaw|
            && afterSps[1..] == Frames(ppsRaw) + extra
  {
  }

  /** Appending to an instance of the layout only extends its trailing bytes. */
  lemma LayoutExtend(head: seq<byte>, spsRaw: seq<seq<byte>>, ppsRaw: seq<seq<byte>>, extra: seq<byte>, more: seq<byte>)
    requires ValidEntries(spsRaw) && ValidEntries(ppsRaw) && |ppsRaw| <= 255
    ensures Layout(head, spsRaw, ppsRaw, extra) + more == Layout(head, spsRaw, ppsRaw, extra + more)
  {
    var c := [|ppsRaw|];
    var p := Frames(ppsRaw);
    var f := Frames(spsRaw);
    ConcatAssoc(p, extra, more);
    ConcatAssoc(c, p + extra, more);
    ConcatAssoc(f, c + (p + extra), more);
    ConcatAssoc(head, f + (c + (p + extra)), more);
  }

  /** The two entry runs the decoder parsed on its way to a record. */
  lemma DecodeRecordSteps(data: seq<byte>)
    requires DecodeRecord(data).Success?
    ensures var r := DecodeRecord(data).value;
            var sps := ParseEntries(data[5..], data[4] % 32, Sps);
            && sps.Success? && |sps.value.1| >= 1
            && var pps := ParseEntries(sps.value.1[1..], sps.value.1[0], Pps);
            && pps.Success?
            && r.sps == sps.value.0 && r.pps == pps.value.0
  {
    assert data[4..][1..] == data[5..];
  }

  /** Which error the decoder reports once the six bytes are there: the first
      failing SPS entry's, the missing PPS count when the SPS entries use up
      the input, or the first failing PPS entry's. */
  lemma DecodeRecordErrors(data: seq<byte>)
    requires |data| >= 6
    ensures var sps := ParseEntries(data[5..], data[4] % 32, Sps);
            sps.Failure? ==> DecodeRecord(data) == Failure(sps.error)
    ensures var sps := ParseEntries(data[5..], data[4] % 32, Sps);
            sps.Success? && |sps.value.1| == 0 ==> DecodeRecord(data) == Failure(NoPpsCount)
    ensures var sps := ParseEntries(data[5..], data[4] % 32, Sps);
            sps.Success? && |sps.value.1| >= 1 ==>
              var pps := ParseEntries(sps.value.1[1..], sps.value.1[0], Pps);
              pps.Failure? ==> DecodeRecord(data) == Failure(pps.error)
  {
    assert data[4..][1..] == data[5..];
  }

  /** Conversely, two successful entry runs in those places make a record. */
  lemma DecodeRecordFromSteps(data: seq<byte>)
    requires |data| >= 6
    requires var sps := ParseEntries(data[5..], data[4] % 32, Sps);
             && sps.Success? && |sps.value.1| >= 1
             && ParseEntries(sps.value.1[1..], sps.value.1[0], Pps).Success?
    ensures var sps := ParseEntries(data[5..], data[4] % 32, Sps).value;
            var pps := ParseEntries(sps.1[1..], sps.1[0], Pps).value;
            DecodeRecord(data) == Success(Record(data[0], data[1], data[2], data[3],
                                                 data[4] % 4, sps.0, pps.0))
  {
    assert data[4..][1..] == data[5..];
  }

  /** Reassembling a buffer from the pieces the entry parser split off. */
  lemma LayoutOfPieces(data: seq<byte>, spsRaw: seq<seq<byte>>, atPpsCount: seq<byte>,
                       ppsRaw: seq<seq<byte>>, extra: seq<byte>)
    requires |data| >= 5 && ValidEntries(spsRaw) && ValidEntries(ppsRaw)
    requires data[5..] == Frames(spsRaw) + atPpsCount
    requires |atPpsCount| >= 1 && atPpsCount[0] == |ppsRaw|
    requires atPpsCount[1..] == Frames(ppsRaw) + extra
    ensures |ppsRaw| <= 255
    ensures data == Layout(data[..5], spsRaw, ppsRaw, extra)
  {
    assert atPpsCount == [atPpsCount[0]] + atPpsCount[1..];
    assert data == data[..5] + data[5..];
  }

  /** Completeness of the record decoder: every instance of the layout, with
      the SPS count in the low 5 bits of byte 4, decodes, and to the fields
      it was built from. */
  lemma DecodeRecordOfLayout(head: seq<byte>, spsRaw: seq<seq<byte>>, ppsRaw: seq<seq<byte>>, extra: seq<byte>)
    requires |head| == 5 && head[4] % 32 == |spsRaw|
    requires ValidEntries(spsRaw) && ValidEntries(ppsRaw) && |ppsRaw| <= 255
    ensures var r := DecodeRecord(Layout(head, spsRaw, ppsRaw, extra));
            && r.Success?
            && r.value.configurationVersion == head[0]
            && r.value.profile == head[1]
            && r.value.profileCompatibility == head[2]
            && r.value.level == head[3]
            && r.value.lengthSizeMinusOne == head[4] % 4
            && DecodedFrom(r.value.sps, spsRaw)
            && DecodedFrom(r.value.pps, ppsRaw)
  {
    var data := Layout(head, spsRaw, ppsRaw, extra);
    var afterSps := [|ppsRaw|] + (Frames(ppsRaw) + extra);
    LayoutParts(head, spsRaw, ppsRaw, extra);
    assert data[0] == head[0] && data[1] == head[1] && data[2] == head[2]
        && data[3] == head[3] && data[4] == head[4];
    ParseEntriesOfFrames(spsRaw, afterSps, Sps);
    ParseEntriesOfFrames(ppsRaw, extra, Pps);
    DecodeRecordFromSteps(data);
  }

  /** Soundness of the record decoder: whatever it accepts is an instance of
      the layout, and the record holds what that instance carries; in
      particular the PPS count is the full byte after the SPS entries. */
  lemma DecodeRecordIsLayout(data: seq<byte>)
    returns (spsRaw: seq<seq<byte>>, ppsRaw: seq<seq<byte>>, extra: seq<byte>)
    requires DecodeRecord(data).Success?
    ensures ValidEntries(spsRaw) && ValidEntries(ppsRaw) && |ppsRaw| <= 255
    ensures |spsRaw| == data[4] % 32
    ensures data == Layout(data[..5], spsRaw, ppsRaw, extra)
    ensures DecodedFrom(DecodeRecord(data).value.sps, spsRaw)
    ensures DecodedFrom(DecodeRecord(data).value.pps, ppsRaw)
  {
    var count := data[4] % 32;
    DecodeRecordSteps(data);
    var atPpsCount := ParseEntries(data[5..], count, Sps).value.1;
    spsRaw := ParseEntriesFramed(data[5..], count, Sps);
    ppsRaw := ParseEntriesFramed(atPpsCount[1..], atPpsCount[0], Pps);
    extra := ParseEntries(atPpsCount[1..], atPpsCount[0], Pps).value.1;
    LayoutOfPieces(data, spsRaw, atPpsCount, ppsRaw, extra);
  }

  /** Bytes after the last PPS entry are ignored: appending anything to an
      accepted record leaves the decoded record unchanged. */
  lemma DecodeRecordIgnoresTrailing(data: seq<byte>, more: seq<byte>)
    requires DecodeRecord(data).Success?
    ensures DecodeRecord(data + more) == DecodeRecord(data)
  {
    var r := DecodeRecord(data).value;
    var spsRaw, ppsRaw, extra := DecodeRecordIsLayout(data);
    var head := data[..5];
    LayoutExtend(head, spsRaw, ppsRaw, extra, more);
    DecodeRecordOfLayout(head, spsRaw, ppsRaw, extra + more);
    var r' := DecodeRecord(data + more).value;
    DecodedFromUnique(r.sps, r'.sps, spsRaw);
    DecodedFromUnique(r.pps, r'.pps, ppsRaw);
  }
}
