/** The record decoder as the Go code runs it: a cursor `b` moved forward
    through the buffer and a loop per parameter-set list that appends each
    entry as it is decoded. Each method computes exactly what its functional
    counterpart in `ConfigRecord` defines. */
module Unmarshal {
  import opened Wrappers
  import opened Bytes
  import opened Nalu
  import opened ConfigRecord

  /** Puts already decoded entries in front of the outcome of parsing the rest. */
  function Prepend(done: seq<NALU>, r: Result<(seq<NALU>, seq<byte>), DecodeError>)
    : Result<(seq<NALU>, seq<byte>), DecodeError>
  {
    match r
    case Success(v) => Success((done + v.0, v.1))
    case Failure(e) => Failure(e)
  }

  /** One step of the loop: a failing entry is the failure of the whole run;
      a decoded entry moves from the rest of the buffer to `done`. */
  lemma PrependStep(done: seq<NALU>, b: seq<byte>, count: nat, kind: ParamSetKind,
                    step: Result<(NALU, seq<byte>), DecodeError>)
    requires count > 0 && step == ParseEntry(b, kind)
    ensures step.Failure? ==> Prepend(done, ParseEntries(b, count, kind)) == Failure(step.error)
    ensures step.Success? ==>
      Prepend(done, ParseEntries(b, count, kind))
        == Prepend(done + [step.value.0], ParseEntries(step.value.1, count - 1, kind))
  {
    if step.Success? {
      var others := ParseEntries(step.value.1, count - 1, kind);
      if others.Success? {
        assert done + ([step.value.0] + others.value.0) == done + [step.value.0] + others.value.0;
      }
    }
  }

  /** One iteration of a parameter-set loop of `UnmarshalBinary`: read the
      16-bit length, check it against what is left, decode the entry and
      move the cursor past it. */
  method UnmarshalEntry(data: seq<byte>, kind: ParamSetKind)
    returns (r: Result<(NALU, seq<byte>), DecodeError>)
    ensures r == ParseEntry(data, kind)
  {
    var b := data;
    if |b| < 2 {
      return Failure(ShortLengthPrefix(kind, |b|));
    }
    var length := BigEndian16(b[0], b[1]);
    b := b[2..];
    if |b| < length {
      return Failure(ShortEntry(kind, length, |b|));
    }
    assert b[..length] == data[2..2 + length];
    var entry := Decode(b[..length]);
    if entry.Failure? {
      return Failure(BadEntry(kind, entry.error));
    }
    assert b[length..] == data[2 + length..];
    b := b[length..];
    return Success((entry.value, b));
  }

  /** A parameter-set loop of `UnmarshalBinary`, run `count` times, appending
      each entry to the list as it is decoded. */
  method UnmarshalEntries(data: seq<byte>, count: nat, kind: ParamSetKind)
    returns (r: Result<(seq<NALU>, seq<byte>), DecodeError>)
    ensures r == ParseEntries(data, count, kind)
  {
    var b := data;
    var entries: seq<NALU> := [];
    var remaining := count;
    ghost var whole := ParseEntries(data, count, kind);
    assert whole.Success? ==> [] + whole.value.0 == whole.value.0;
    while remaining > 0
      invariant whole == Prepend(entries, ParseEntries(b, remaining, kind))
    {
      var step := UnmarshalEntry(b, kind);
      PrependStep(entries, b, remaining, kind, step);
      if step.Failure? {
        return Failure(step.error);
      }
      b := step.value.1;
      entries := entries + [step.value.0];
      remaining := remaining - 1;
    }
    assert entries + [] == entries;
    return Success((entries, b));
  }

  /** `AVCDecoderConfigurationRecord.UnmarshalBinary`, step for step. */
  method UnmarshalRecord(data: seq<byte>) returns (r: Result<Record, DecodeError>)
    ensures r == DecodeRecord(data)
  {
    var b := data;
    if |b| < 6 {
      return Failure(ShortRecord(|b|));
    }
    var configurationVersion := b[0];
    var profile := b[1];
    var profileCompatibility := b[2];
    var level := b[3];
    var lengthSizeMinusOne := b[4] % 4;
    b := b[4..];

    var numOfSequenceParameterSets := b[0] % 32;
    b := b[1..];
    var sps := UnmarshalEntries(b, numOfSequenceParameterSets, Sps);
    if sps.Failure? {
      return Failure(sps.error);
    }
    b := sps.value.1;

    if |b| < 1 {
      return Failure(NoPpsCount);
    }
    var numOfPictureParameterSets := b[0];
    b := b[1..];
    var pps := UnmarshalEntries(b, numOfPictureParameterSets, Pps);
    if pps.Failure? {
      return Failure(pps.error);
    }
    return Success(Record(configurationVersion, profile, profileCompatibility, level,
                          lengthSizeMinusOne, sps.value.0, pps.value.0));
  }
}
