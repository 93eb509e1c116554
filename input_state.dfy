/**
 * One participant's input for one simulation step, and its fixed 12-byte wire image:
 * stepIndex, axisX, axisY, each a little-endian two's complement int32.
 */
module InputStates {
  import opened Protocol

  /** How many of the most recent local inputs are kept and re-sent every tick. */
  const SavedInputStateCount: nat := 2
  /** Three 4-byte ints. */
  const RecordSize: nat := 12

  datatype InputState = InputState(stepIndex: Int32, axisX: Int32, axisY: Int32)

  /** The all-zero record: what every element of a freshly created InputState array holds. */
  const ZeroInput := InputState.InputState(0, 0, 0)

  /** The wire image of one record; the fields go out in declaration order. */
  function Encode(s: InputState): (b: seq<byte>)
    ensures |b| == RecordSize
    ensures b[..4] == Int32ToBytes(s.stepIndex)
    ensures b[4..8] == Int32ToBytes(s.axisX)
    ensures b[8..] == Int32ToBytes(s.axisY)
  {
    Int32ToBytes(s.stepIndex) + Int32ToBytes(s.axisX) + Int32ToBytes(s.axisY)
  }

  /** The record whose image starts at `offset`. */
  function Decode(b: seq<byte>, offset: nat): InputState
    requires offset + RecordSize <= |b|
  {
    InputState.InputState(Int32FromBytes(b[offset..offset + 4]),
                          Int32FromBytes(b[offset + 4..offset + 8]),
                          Int32FromBytes(b[offset + 8..offset + 12]))
  }

  /** Decoding at the offset where a record was written gives that record back, whatever surrounds it. */
  lemma DecodeEncode(s: InputState, before: seq<byte>, after: seq<byte>)
    ensures Decode(before + Encode(s) + after, |before|) == s
  {
    var b := before + Encode(s) + after;
    var o := |before|;
    assert b[o..o + RecordSize] == Encode(s);
    assert b[o..o + 4] == Int32ToBytes(s.stepIndex);
    assert b[o + 4..o + 8] == Int32ToBytes(s.axisX);
    assert b[o + 8..o + 12] == Int32ToBytes(s.axisY);
    Int32RoundTrip(s.stepIndex);
    Int32RoundTrip(s.axisX);
    Int32RoundTrip(s.axisY);
  }

  /** Re-encoding a decoded record reproduces its twelve bytes exactly. */
  lemma EncodeDecode(b: seq<byte>, offset: nat)
    requires offset + RecordSize <= |b|
    ensures Encode(Decode(b, offset)) == b[offset..offset + RecordSize]
  {
    Int32BytesRoundTrip(b[offset..offset + 4]);
    Int32BytesRoundTrip(b[offset + 4..offset + 8]);
    Int32BytesRoundTrip(b[offset + 8..offset + 12]);
    assert b[offset..offset + RecordSize]
        == b[offset..offset + 4] + b[offset + 4..offset + 8] + b[offset + 8..offset + 12];
  }

  /** BitConverter.TryWriteBytes of one int into `buffer[offset..offset + 4)`. */
  method WriteInt32(buffer: array<byte>, offset: nat, x: Int32)
    requires offset + 4 <= buffer.Length
    modifies buffer
    ensures forall i | 0 <= i < buffer.Length ::
      buffer[i] == if offset <= i < offset + 4 then Int32ToBytes(x)[i - offset] else old(buffer[i])
  {
    var b := Int32ToBytes(x);
    buffer[offset] := b[0];
    buffer[offset + 1] := b[1];
    buffer[offset + 2] := b[2];
    buffer[offset + 3] := b[3];
  }

  /**
   * InputState.WriteBytes: writes the record at `offset` and returns how many bytes
   * it wrote. Every byte outside `[offset, offset + 12)` keeps its value.
   */
  method WriteBytes(s: InputState, buffer: array<byte>, offset: nat) returns (written: nat)
    requires offset + RecordSize <= buffer.Length
    modifies buffer
    ensures written == RecordSize
    ensures buffer[..] == old(buffer[..offset]) + Encode(s) + old(buffer[offset + RecordSize..])
  {
    var startOffset := offset;
    var at := offset;

    WriteInt32(buffer, at, s.stepIndex);
    at := at + 4;
    WriteInt32(buffer, at, s.axisX);
    at := at + 4;
    WriteInt32(buffer, at, s.axisY);
    at := at + 4;

    written := at - startOffset;
    ghost var e := Encode(s);
    forall i | 0 <= i < buffer.Length
      ensures buffer[i] == if offset <= i < offset + RecordSize then e[i - offset] else old(buffer[i])
    {
      if offset <= i < offset + 4 {
        assert e[i - offset] == e[..4][i - offset];
      } else if offset + 4 <= i < offset + 8 {
        assert e[i - offset] == e[4..8][i - offset - 4];
      } else if offset + 8 <= i < offset + 12 {
        assert e[i - offset] == e[8..][i - offset - 8];
      }
    }
    assert buffer[..] == old(buffer[..offset]) + e + old(buffer[offset + RecordSize..]);
  }

  /** InputState.FromBytes: reads the record at `offset` and moves `offset` past it. */
  method FromBytes(buffer: array<byte>, offset: nat) returns (s: InputState, next: nat)
    requires offset + RecordSize <= buffer.Length
    ensures next == offset + RecordSize
    ensures s == Decode(buffer[..], offset)
  {
    var at := offset;
    var stepIndex := Int32FromBytes(buffer[at..at + 4]);
    at := at + 4;
    var axisX := Int32FromBytes(buffer[at..at + 4]);
    at := at + 4;
    var axisY := Int32FromBytes(buffer[at..at + 4]);
    at := at + 4;
    s := InputState.InputState(stepIndex, axisX, axisY);
    next := at;
  }
}
