/**
 * The messenger every session owns: the bounded peer directory, one pending input slot
 * per peer (the step barrier), the packet layouts written into the shared 1024-byte
 * buffer, and the datagram transport, which is abstracted as an append-only log of
 * sent datagrams and a receive that is handed the next queued datagram, if any.
 */
module Messaging {
  import opened Protocol
  import opened InputStates

  // ---------------------------------------------------------------------------
  // Packet layouts and their readers

  /** `[Acknowledge, ofType]`. */
  function AckPacket(ofType: PacketType): seq<byte>
  {
    [Tag(Acknowledge), Tag(ofType)]
  }

  /** NetMessenger.IsAcknowledgement: the first two bytes are `[Acknowledge, ofType]`. */
  function IsAcknowledgement(ofType: PacketType, bytes: seq<byte>): (r: bool)
    ensures |bytes| < 2 ==> !r
    ensures r <==> |bytes| >= 2 && bytes[..2] == AckPacket(ofType)
  {
    if |bytes| < 2 then false
    else bytes[0] == Tag(Acknowledge) && bytes[1] == Tag(ofType)
  }

  /**
   * An acknowledgement, followed by anything, is recognised as acknowledging exactly
   * the kind it names, and datagrams of any other kind are never taken for one.
   */
  lemma AcknowledgementClassifies(ofType: PacketType, acked: PacketType, rest: seq<byte>)
    ensures IsAcknowledgement(ofType, AckPacket(acked) + rest) <==> ofType == acked
    ensures forall t: PacketType, bytes: seq<byte> | |bytes| > 0 && bytes[0] == Tag(t) && t != Acknowledge ::
      !IsAcknowledgement(ofType, bytes)
  {
    TagsDistinct(ofType, acked);
    assert (AckPacket(acked) + rest)[..2] == AckPacket(acked);
    forall t: PacketType, bytes: seq<byte> | |bytes| > 0 && bytes[0] == Tag(t) && t != Acknowledge
      ensures !IsAcknowledgement(ofType, bytes)
    {
      TagsDistinct(t, Acknowledge);
    }
  }

  /** The records of an InputState packet, one 12-byte image after another. */
  function EncodeAll(records: seq<InputState>): (b: seq<byte>)
    ensures |b| == RecordSize * |records|
  {
    EncodeFrom(records, 0)
  }

  /** The images of the records from index `j` on. */
  function EncodeFrom(records: seq<InputState>, j: nat): (b: seq<byte>)
    requires j <= |records|
    ensures |b| == RecordSize * (|records| - j)
    decreases |records| - j
  {
    if j == |records| then [] else Encode(records[j]) + EncodeFrom(records, j + 1)
  }

  /** `[InputState, count, count records]`. */
  function InputStatePacket(records: seq<InputState>): (p: seq<byte>)
    requires |records| < 256
    ensures |p| == 2 + RecordSize * |records|
  {
    [Tag(PacketType.InputState), |records| as byte] + EncodeAll(records)
  }

  /** The `count` records stored one after another from `offset` on. */
  function DecodeRecords(bytes: seq<byte>, offset: nat, count: nat): (r: seq<InputState>)
    requires offset + RecordSize * count <= |bytes|
    ensures |r| == count
  {
    seq(count, i requires 0 <= i < count => Decode(bytes, offset + RecordSize * i))
  }

  /** Record `i` of EncodeAll occupies bytes `[12 i, 12 i + 12)`. */
  lemma EncodeAllAt(records: seq<InputState>, i: nat)
    requires i < |records|
    ensures EncodeAll(records)[RecordSize * i..RecordSize * i + RecordSize] == Encode(records[i])
  {
    EncodeFromAt(records, 0, i);
  }

  /** Record `i` sits `i - j` images into EncodeFrom(records, j). */
  lemma {:induction false} EncodeFromAt(records: seq<InputState>, j: nat, i: nat)
    requires j <= i < |records|
    ensures EncodeFrom(records, j)[RecordSize * (i - j)..RecordSize * (i - j) + RecordSize] == Encode(records[i])
    decreases i - j
  {
    var e := Encode(records[j]);
    var rest := EncodeFrom(records, j + 1);
    assert EncodeFrom(records, j) == e + rest;
    if j == i {
      SliceOfLeft(e, rest, 0, RecordSize);
      assert e[0..RecordSize] == e;
    } else {
      EncodeFromAt(records, j + 1, i);
      SliceOfRight(e, rest, RecordSize * (i - j - 1), RecordSize * (i - j - 1) + RecordSize);
    }
  }

  /** Decoding an InputState packet gives back the records it was built from, in order. */
  lemma InputStatePacketRoundTrip(records: seq<InputState>)
    requires |records| < 256
    ensures DecodeRecords(InputStatePacket(records), 2, |records|) == records
  {
    var p := InputStatePacket(records);
    var header := [Tag(PacketType.InputState), |records| as byte];
    var body := EncodeAll(records);
    assert p == header + body;
    forall i | 0 <= i < |records|
      ensures Decode(p, 2 + RecordSize * i) == records[i]
    {
      RecordOfPacket(p, header, body, records, i);
    }
  }

  lemma RecordOfPacket(p: seq<byte>, header: seq<byte>, body: seq<byte>, records: seq<InputState>, i: nat)
    requires |header| == 2 && body == EncodeAll(records) && p == header + body && i < |records|
    ensures Decode(p, 2 + RecordSize * i) == records[i]
  {
    var o := 2 + RecordSize * i;
    EncodeAllAt(records, i);
    SliceOfRight(header, body, RecordSize * i, RecordSize * i + RecordSize);
    SplitAt(p, o, o + RecordSize);
    DecodeEncode(records[i], p[..o], p[o + RecordSize..]);
  }

  // ---------------------------------------------------------------------------
  // Directory and barrier specifications

  function Values(s: seq<Option<Endpoint>>): (r: seq<Endpoint>)
    requires forall i | 0 <= i < |s| :: s[i].Some?
    ensures |r| == |s| && forall i | 0 <= i < |s| :: s[i] == Some(r[i])
  {
    seq(|s|, i requires 0 <= i < |s| => s[i].value)
  }

  /** One datagram with `bytes` to each endpoint of `dir`, in directory order. */
  function Broadcast(bytes: seq<byte>, dir: seq<Endpoint>): seq<Datagram>
  {
    seq(|dir|, i requires 0 <= i < |dir| => Datagram(bytes, dir[i]))
  }

  /** The first slot holding `p`, if any. */
  function IndexOf(dir: seq<Endpoint>, p: Endpoint): (r: Option<nat>)
    ensures r.None? <==> p !in dir
    ensures r.Some? ==> r.value < |dir| && dir[r.value] == p
    ensures r.Some? ==> forall j | 0 <= j < r.value :: dir[j] != p
  {
    if |dir| == 0 then None
    else if dir[0] == p then Some(0)
    else
      match IndexOf(dir[1..], p)
      case None => None
      case Some(k) => Some(k + 1)
  }

  /** The first record for step `step`, if any. */
  function FirstMatch(records: seq<InputState>, step: Int32): Option<InputState>
  {
    if |records| == 0 then None
    else if records[0].stepIndex == step then Some(records[0])
    else FirstMatch(records[1..], step)
  }

  /** The first record for `step` is the one at the first index that has it. */
  lemma {:induction false} FirstMatchAt(records: seq<InputState>, step: Int32, i: nat)
    requires i < |records| && records[i].stepIndex == step
    requires forall j | 0 <= j < i :: records[j].stepIndex != step
    ensures FirstMatch(records, step) == Some(records[i])
  {
    if i > 0 {
      assert records[0].stepIndex != step;
      assert forall j | 0 <= j < i - 1 :: records[1..][j] == records[j + 1];
      FirstMatchAt(records[1..], step, i - 1);
    }
  }

  /** Nothing is found exactly when no record is for `step`. */
  lemma {:induction false} FirstMatchNone(records: seq<InputState>, step: Int32)
    ensures FirstMatch(records, step).None? <==> forall i | 0 <= i < |records| :: records[i].stepIndex != step
  {
    if |records| > 0 && records[0].stepIndex != step {
      FirstMatchNone(records[1..], step);
      assert forall i | 1 <= i < |records| :: records[i] == records[1..][i - 1];
    }
  }

  /** What is found is a record of the list, and it is for `step`. */
  lemma {:induction false} FirstMatchFound(records: seq<InputState>, step: Int32)
    ensures FirstMatch(records, step).Some? ==>
      FirstMatch(records, step).value in records && FirstMatch(records, step).value.stepIndex == step
  {
    if |records| > 0 && records[0].stepIndex != step {
      FirstMatchFound(records[1..], step);
    }
  }

  /** Record `i` of those stored one after another from `offset` on. */
  function RecordAt(b: seq<byte>, offset: nat, i: nat): InputState
    requires offset + RecordSize * i + RecordSize <= |b|
  {
    Decode(b, offset + RecordSize * i)
  }

  /** The step index of the record at `offset`: its first four bytes. */
  function StepIndexAt(b: seq<byte>, offset: nat): Int32
    requires offset + 4 <= |b|
  {
    Int32FromBytes(b[offset..offset + 4])
  }

  /**
   * The record-by-record scan of HandleInputState stays inside `b`: each of the
   * `count` records it reads, up to and including the first one for `step`, lies in `b`.
   * Records after that match are never read, wherever the count byte puts them.
   */
  predicate ScanFits(b: seq<byte>, offset: nat, count: nat, step: Int32)
    decreases count
  {
    count == 0 ||
    (offset + RecordSize <= |b| &&
     (StepIndexAt(b, offset) == step || ScanFits(b, offset + RecordSize, count - 1, step)))
  }

  /** What the scan finds: the first of the `count` records from `offset` on that is for `step`. */
  function Scan(b: seq<byte>, offset: nat, count: nat, step: Int32): Option<InputState>
    requires ScanFits(b, offset, count, step)
    decreases count
  {
    if count == 0 then None
    else if StepIndexAt(b, offset) == step then Some(Decode(b, offset))
    else Scan(b, offset + RecordSize, count - 1, step)
  }

  /** One step of the scan: the next record lies in `b`, and either it is the one found or the scan goes on past it. */
  lemma ScanStep(b: seq<byte>, offset: nat, count: nat, step: Int32)
    requires ScanFits(b, offset, count, step) && count > 0
    ensures offset + RecordSize <= |b| && Decode(b, offset).stepIndex == StepIndexAt(b, offset)
    ensures StepIndexAt(b, offset) == step ==> Scan(b, offset, count, step) == Some(Decode(b, offset))
    ensures StepIndexAt(b, offset) != step ==>
      ScanFits(b, offset + RecordSize, count - 1, step) &&
      Scan(b, offset, count, step) == Scan(b, offset + RecordSize, count - 1, step)
  {
  }

  /** Record `i + 1` from `offset` on is record `i` from the next record on. */
  lemma RecordAtNext(b: seq<byte>, offset: nat, i: nat)
    requires offset + RecordSize * (i + 1) + RecordSize <= |b|
    ensures RecordAt(b, offset, i + 1) == RecordAt(b, offset + RecordSize, i)
  {
    assert offset + RecordSize * (i + 1) == offset + RecordSize + RecordSize * i;
  }

  /**
   * A record found by the scan is the record at the first index whose record is for
   * `step`; that record, and every one before it, lies in `b`.
   */
  lemma {:induction false} ScanFindsFirst(b: seq<byte>, offset: nat, count: nat, step: Int32)
    requires ScanFits(b, offset, count, step)
    requires Scan(b, offset, count, step).Some?
    ensures exists j: nat | j < count && offset + RecordSize * j + RecordSize <= |b| ::
      && Scan(b, offset, count, step) == Some(RecordAt(b, offset, j))
      && RecordAt(b, offset, j).stepIndex == step
      && forall i: nat | i < j :: RecordAt(b, offset, i).stepIndex != step
    decreases count
  {
    assert RecordAt(b, offset, 0) == Decode(b, offset);
    if Decode(b, offset).stepIndex != step {
      var next := offset + RecordSize;
      ScanFindsFirst(b, next, count - 1, step);
      var j: nat :| j < count - 1 && next + RecordSize * j + RecordSize <= |b|
        && Scan(b, next, count - 1, step) == Some(RecordAt(b, next, j))
        && RecordAt(b, next, j).stepIndex == step
        && forall i: nat | i < j :: RecordAt(b, next, i).stepIndex != step;
      RecordAtNext(b, offset, j);
      NoneBeforeShifted(b, offset, next, j, step);
    }
  }

  /** No record for `step` among the first `n + 1` when none is the first, nor among the `n` after it. */
  lemma NoneBeforeShifted(b: seq<byte>, offset: nat, next: nat, n: nat, step: Int32)
    requires next == offset + RecordSize && offset + RecordSize * n + RecordSize <= |b|
    requires RecordAt(b, offset, 0).stepIndex != step
    requires forall i: nat | i < n :: RecordAt(b, next, i).stepIndex != step
    ensures forall i: nat | i < n + 1 :: RecordAt(b, offset, i).stepIndex != step
  {
    forall i: nat | 0 < i < n + 1
      ensures RecordAt(b, offset, i).stepIndex != step
    {
      RecordAtNext(b, offset, i - 1);
    }
  }

  /**
   * The scan finds nothing only when all `count` records lie in `b` and none of them
   * is for `step`.
   */
  lemma {:induction false} ScanNoneReadsAll(b: seq<byte>, offset: nat, count: nat, step: Int32)
    requires ScanFits(b, offset, count, step)
    requires Scan(b, offset, count, step).None?
    ensures count > 0 ==> offset + RecordSize * count <= |b|
    ensures forall i: nat | i < count :: RecordAt(b, offset, i).stepIndex != step
    decreases count
  {
    if count > 0 {
      var next := offset + RecordSize;
      ScanNoneReadsAll(b, next, count - 1, step);
      assert next + RecordSize * (count - 1) == offset + RecordSize * count;
      NoneBeforeShifted(b, offset, next, count - 1, step);
    }
  }

  /** When all `count` records lie in `b`, the scan finds what FirstMatch finds among them. */
  lemma {:induction false} ScanOfFittingRecords(b: seq<byte>, offset: nat, count: nat, step: Int32)
    requires offset + RecordSize * count <= |b|
    ensures ScanFits(b, offset, count, step)
    ensures Scan(b, offset, count, step) == FirstMatch(DecodeRecords(b, offset, count), step)
    decreases count
  {
    if count > 0 {
      var next := offset + RecordSize;
      ScanOfFittingRecords(b, next, count - 1, step);
      var records := DecodeRecords(b, offset, count);
      assert records[0] == Decode(b, offset);
      assert records[1..] == DecodeRecords(b, next, count - 1) by {
        forall i | 0 <= i < count - 1
          ensures records[1..][i] == DecodeRecords(b, next, count - 1)[i]
        {
          assert offset + RecordSize * (i + 1) == next + RecordSize * i;
        }
      }
    }
  }

  /** Bytes after a record do not change how it decodes. */
  lemma DecodeOfPrefix(p: seq<byte>, rest: seq<byte>, offset: nat)
    requires offset + RecordSize <= |p|
    ensures Decode(p + rest, offset) == Decode(p, offset)
  {
    SliceOfLeft(p, rest, offset, offset + 4);
    SliceOfLeft(p, rest, offset + 4, offset + 8);
    SliceOfLeft(p, rest, offset + 8, offset + 12);
  }

  /**
   * Scanning a received InputState packet for `step` finds the first of its records
   * that is for `step`, whatever follows the packet in the buffer.
   */
  lemma ScanOfPacket(records: seq<InputState>, rest: seq<byte>, step: Int32)
    requires |records| < 256
    ensures var b := InputStatePacket(records) + rest;
      ScanFits(b, 2, b[1] as nat, step) && Scan(b, 2, b[1] as nat, step) == FirstMatch(records, step)
  {
    var p := InputStatePacket(records);
    var b := p + rest;
    var n := |records|;
    assert b[1] as nat == n by {
      assert b[1] == p[1] == n as byte;
    }
    ScanOfFittingRecords(b, 2, n, step);
    assert DecodeRecords(b, 2, n) == records by {
      InputStatePacketRoundTrip(records);
      forall i | 0 <= i < n
        ensures DecodeRecords(b, 2, n)[i] == records[i]
      {
        DecodeOfPrefix(p, rest, 2 + RecordSize * i);
        assert DecodeRecords(p, 2, n)[i] == Decode(p, 2 + RecordSize * i);
      }
    }
  }

  /**
   * The pending slots after a datagram from `from` has been ingested: the record found
   * for the awaited step goes into the first slot of the sender; with no record or an
   * unknown sender nothing changes.
   */
  function Ingest(slots: seq<Option<InputState>>, dir: seq<Endpoint>, from: Endpoint,
                  found: Option<InputState>): (r: seq<Option<InputState>>)
    requires |dir| <= |slots|
    ensures |r| == |slots|
  {
    var k := IndexOf(dir, from);
    if found.Some? && k.Some? then slots[k.value := found] else slots
  }

  /**
   * Ingesting never stores a record for another step, stores only a record the datagram
   * carried, and only in the first slot of its sender; every other slot keeps its value.
   */
  lemma IngestStoresOnlyAwaitedStep(slots: seq<Option<InputState>>, dir: seq<Endpoint>, from: Endpoint,
                                    records: seq<InputState>, step: Int32, i: nat)
    requires |dir| <= |slots| && i < |slots|
    ensures var r := Ingest(slots, dir, from, FirstMatch(records, step));
      r[i] != slots[i] ==>
        && i < |dir| && dir[i] == from && (forall j | 0 <= j < i :: dir[j] != from)
        && r[i].Some? && r[i].value.stepIndex == step && r[i].value in records
  {
    FirstMatchFound(records, step);
  }

  // ---------------------------------------------------------------------------

  class NetMessenger {
    const buffer: array<byte>
    const peers: array<Option<Endpoint>>
    const peerInputStates: array<Option<InputState>>
    var peerCount: nat
    /** Every datagram handed to the socket so far, oldest first. */
    var sent: seq<Datagram>

    /** The directory occupies slots `[0, peerCount)`; the slots after it are empty (null). */
    ghost predicate PeersValid()
      reads this`peerCount, peers
    {
      && buffer.Length == BufferSize
      && peers.Length == MaxPeers
      && peerInputStates.Length == MaxPeers
      && peerCount <= MaxPeers
      && (forall i | 0 <= i < MaxPeers :: peers[i].Some? <==> i < peerCount)
    }

    ghost predicate Valid()
      reads this`peerCount, peers, peerInputStates
    {
      && PeersValid()
      && (forall i | peerCount <= i < MaxPeers :: peerInputStates[i].None?)
    }

    /** The admitted peers, in admission (slot) order. */
    ghost function Directory(): (d: seq<Endpoint>)
      reads this`peerCount, peers
      requires PeersValid()
      ensures |d| == peerCount
      ensures forall i | 0 <= i < peerCount :: peers[i] == Some(d[i])
    {
      Values(peers[..peerCount])
    }

    /** The socket set-up is not modelled. */
    constructor ()
      ensures Valid() && fresh(buffer) && fresh(peers) && fresh(peerInputStates)
      ensures peerCount == 0 && Directory() == [] && sent == []
      ensures forall i | 0 <= i < MaxPeers :: peerInputStates[i].None?
      ensures forall i | 0 <= i < BufferSize :: buffer[i] == 0
    {
      buffer := new byte[BufferSize](_ => 0);
      peers := new Option<Endpoint>[MaxPeers](_ => None);
      peerInputStates := new Option<InputState>[MaxPeers](_ => None);
      peerCount := 0;
      sent := [];
    }

    /** NetMessenger.SendAcknowledgement. */
    method SendAcknowledgement(ofType: PacketType, to: Endpoint)
      requires Valid()
      modifies buffer, this`sent
      ensures Valid()
      ensures buffer[..] == Overlay(old(buffer[..]), AckPacket(ofType))
      ensures sent == old(sent) + [Datagram(AckPacket(ofType), to)]
    {
      buffer[0] := Tag(Acknowledge);
      buffer[1] := Tag(ofType);
      assert buffer[..2] == AckPacket(ofType);
      SendFromBuffer(2, Some(to));
    }

    /** The packet type and the record count, at the front of the buffer. */
    method WriteInputStateHeader(count: byte) returns (offset: nat)
      requires buffer.Length == BufferSize
      modifies buffer
      ensures offset == 2
      ensures buffer[..] == Overlay(old(buffer[..]), [Tag(PacketType.InputState), count])
    {
      offset := 0;
      buffer[offset] := Tag(PacketType.InputState);
      offset := offset + 1;
      buffer[offset] := count;
      offset := offset + 1;
    }

    /** The first half of NetMessenger.SendInputState: the packet is laid out at the front of the buffer. */
    method WriteInputStatePacket(inputStates: seq<InputState>) returns (length: nat)
      requires buffer.Length == BufferSize
      requires |inputStates| <= SavedInputStateCount
      modifies buffer
      ensures length == |InputStatePacket(inputStates)|
      ensures buffer[..] == Overlay(old(buffer[..]), InputStatePacket(inputStates))
    {
      ghost var original := buffer[..];
      ghost var header := [Tag(PacketType.InputState), |inputStates| as byte];
      var offset := WriteInputStateHeader(|inputStates| as byte);
      assert header + EncodeAll(inputStates[..0]) == header;

      var i := 0;
      while i < |inputStates|
        invariant 0 <= i <= |inputStates|
        invariant offset == 2 + RecordSize * i
        invariant buffer[..] == Overlay(original, header + EncodeAll(inputStates[..i]))
      {
        ghost var before := buffer[..];
        var inputStateLength := WriteBytes(inputStates[i], buffer, offset);
        WriteExtendsPacket(original, header, inputStates, i, before, buffer[..]);
        offset := offset + inputStateLength;
        i := i + 1;
      }
      assert inputStates[..i] == inputStates;
      length := offset;
    }

    /** NetMessenger.SendInputState: the whole local window in one datagram to every peer. */
    method SendInputState(inputStates: seq<InputState>)
      requires Valid()
      requires |inputStates| <= SavedInputStateCount
      modifies buffer, this`sent
      ensures Valid()
      ensures buffer[..] == Overlay(old(buffer[..]), InputStatePacket(inputStates))
      ensures sent == old(sent) + Broadcast(InputStatePacket(inputStates), Directory())
    {
      var offset := WriteInputStatePacket(inputStates);
      assert buffer[..offset] == InputStatePacket(inputStates);
      SendFromBuffer(offset, None);
    }

    /** NetMessenger.ClearInputStates: empties the slots of the directory and no others. */
    method ClearInputStates()
      requires Valid()
      modifies peerInputStates
      ensures Valid()
      ensures forall i | 0 <= i < MaxPeers :: peerInputStates[i] == if i < peerCount then None else old(peerInputStates[i])
      ensures forall i | 0 <= i < MaxPeers :: peerInputStates[i].None?
    {
      var i := 0;
      while i < peerCount
        invariant 0 <= i <= peerCount
        invariant forall j | 0 <= j < MaxPeers :: peerInputStates[j] == if j < i then None else old(peerInputStates[j])
      {
        peerInputStates[i] := None;
        i := i + 1;
      }
    }

    /** NetMessenger.HasAllPeerInputStates: the step barrier. */
    method HasAllPeerInputStates() returns (all: bool)
      requires Valid()
      ensures all <==> forall i | 0 <= i < peerCount :: peerInputStates[i].Some?
    {
      var i := 0;
      while i < peerCount
        invariant 0 <= i <= peerCount
        invariant forall j | 0 <= j < i :: peerInputStates[j].Some?
      {
        if peerInputStates[i].None? {
          return false;
        }
        i := i + 1;
      }
      return true;
    }

    /**
     * The scan at the start of NetMessenger.HandleInputState: the first record of step
     * `forStepIndex` among the `Buffer[1]` records of the InputState packet in the buffer.
     * The count byte is trusted; only the records the scan reads must lie in the buffer.
     */
    method FindInputState(forStepIndex: Int32) returns (inputState: Option<InputState>)
      requires buffer.Length == BufferSize
      requires ScanFits(buffer[..], 2, buffer[1] as nat, forStepIndex)
      ensures inputState == Scan(buffer[..], 2, buffer[1] as nat, forStepIndex)
    {
      var offset := 1;
      var inputStateCount := buffer[offset];
      offset := offset + 1;
      ghost var b := buffer[..];
      ghost var count := inputStateCount as nat;
      ghost var found := Scan(b, 2, count, forStepIndex);

      inputState := None;
      var i := 0;
      while i < inputStateCount as nat
        invariant 0 <= i <= count
        invariant offset == 2 + RecordSize * i
        invariant ScanFits(b, offset, count - i, forStepIndex)
        invariant found == Scan(b, offset, count - i, forStepIndex)
      {
        ScanStep(b, offset, count - i, forStepIndex);
        var receivedInputState;
        receivedInputState, offset := FromBytes(buffer, offset);
        if receivedInputState.stepIndex == forStepIndex {
          return Some(receivedInputState);
        }
        i := i + 1;
      }
    }

    /** The search at the end of NetMessenger.HandleInputState: the first slot whose peer equals `from`. */
    method FindPeerSlot(from: Endpoint) returns (slot: Option<nat>)
      requires PeersValid()
      ensures slot == IndexOf(Directory(), from)
    {
      var i := 0;
      while i < peerCount
        invariant 0 <= i <= peerCount
        invariant forall j | 0 <= j < i :: Directory()[j] != from
      {
        if peers[i] == Some(from) {
          return Some(i);
        }
        i := i + 1;
      }
      return None;
    }

    /**
     * NetMessenger.HandleInputState: the record found for step `forStepIndex` goes into
     * the first slot whose peer equals `from`. The count byte is trusted, so the records
     * the scan reads must lie inside the buffer.
     */
    method HandleInputState(from: Endpoint, forStepIndex: Int32)
      requires Valid()
      requires ScanFits(buffer[..], 2, buffer[1] as nat, forStepIndex)
      modifies peerInputStates
      ensures Valid()
      ensures peerInputStates[..] == Ingest(old(peerInputStates[..]), Directory(), from,
                                            Scan(buffer[..], 2, buffer[1] as nat, forStepIndex))
    {
      // Try to find an input from the step that is about to be simulated.
      var inputState := FindInputState(forStepIndex);
      if inputState.None? {
        return;
      }
      var slot := FindPeerSlot(from);
      if slot.Some? {
        peerInputStates[slot.value] := inputState;
      }
    }

    /**
     * NetMessenger.SendFromBuffer: the first `length` bytes of the buffer to `to`, or
     * to every peer in directory order when there is no destination.
     */
    method SendFromBuffer(length: nat, to: Option<Endpoint>)
      requires PeersValid()
      requires length <= BufferSize
      modifies this`sent
      ensures sent == old(sent) + if to.Some? then [Datagram(buffer[..length], to.value)]
                                  else Broadcast(buffer[..length], Directory())
    {
      var bytes := buffer[..length];
      if to.Some? {
        sent := sent + [Datagram(bytes, to.value)];
        return;
      }
      var i := 0;
      while i < peerCount
        invariant 0 <= i <= peerCount
        invariant sent == old(sent) + Broadcast(bytes, Directory()[..i])
      {
        assert Broadcast(bytes, Directory()[..i + 1]) == Broadcast(bytes, Directory()[..i]) + [Datagram(bytes, peers[i].value)];
        sent := sent + [Datagram(bytes, peers[i].value)];
        i := i + 1;
      }
      assert Directory()[..i] == Directory();
    }

    /**
     * NetMessenger.Receive: the next queued datagram, if any, copied to the front of the
     * buffer. With nothing queued the result is empty and `endPoint` is kept.
     */
    method Receive(incoming: Option<Datagram>, endPoint: Endpoint) returns (received: seq<byte>, source: Endpoint)
      requires PeersValid()
      requires incoming.Some? ==> |incoming.value.bytes| <= BufferSize
      modifies buffer
      ensures incoming.None? ==> received == [] && source == endPoint && buffer[..] == old(buffer[..])
      ensures incoming.Some? ==> && received == incoming.value.bytes && source == incoming.value.peer
                                 && buffer[..] == Overlay(old(buffer[..]), received)
    {
      if incoming.None? {
        return [], endPoint;
      }
      var datagram := incoming.value;
      forall i | 0 <= i < |datagram.bytes| {
        buffer[i] := datagram.bytes[i];
      }
      received := buffer[..|datagram.bytes|];
      source := datagram.peer;
      assert buffer[..] == Overlay(old(buffer[..]), received);
    }

    /** NetMessenger.AddPeer; a full directory (an ArgumentException) is reported as `ok == false`. */
    method AddPeer(peer: Endpoint) returns (ok: bool)
      requires Valid()
      modifies this`peerCount, peers
      ensures Valid()
      ensures ok <==> old(peerCount) < MaxPeers
      ensures ok ==> peerCount == old(peerCount) + 1 && peers[..] == old(peers[..])[old(peerCount) := Some(peer)]
      ensures ok ==> Directory() == old(Directory()) + [peer]
      ensures !ok ==> peerCount == old(peerCount) && peers[..] == old(peers[..])
    {
      if peerCount >= MaxPeers {
        return false;
      }
      peers[peerCount] := Some(peer);
      peerCount := peerCount + 1;
      assert Directory() == old(Directory()) + [peer];
      return true;
    }

    /** NetMessenger.HasPeer: only the slots of the directory are searched. */
    method HasPeer(peer: Endpoint) returns (found: bool)
      requires PeersValid()
      ensures found <==> peer in Directory()
    {
      var i := 0;
      while i < peerCount
        invariant 0 <= i <= peerCount
        invariant forall j | 0 <= j < i :: Directory()[j] != peer
      {
        if peers[i] == Some(peer) {
          return true;
        }
        i := i + 1;
      }
      return false;
    }
  }

  lemma EncodeAllSnoc(records: seq<InputState>, i: nat)
    requires i < |records|
    ensures EncodeAll(records[..i + 1]) == EncodeAll(records[..i]) + Encode(records[i])
  {
    assert records[..i + 1] == records[..i] + [records[i]];
    EncodeFromSnoc(records[..i], records[i], 0);
  }

  /** Appending a record appends its image to every EncodeFrom. */
  lemma {:induction false} EncodeFromSnoc(records: seq<InputState>, last: InputState, j: nat)
    requires j <= |records|
    ensures EncodeFrom(records + [last], j) == EncodeFrom(records, j) + Encode(last)
    decreases |records| - j
  {
    var longer := records + [last];
    if j < |records| {
      EncodeFromSnoc(records, last, j + 1);
      assert longer[j] == records[j];
    } else {
      assert longer[j] == last;
      assert EncodeFrom(longer, j + 1) == [];
    }
  }

  /** Writing one more record's image right after the packet so far extends the packet by that record. */
  lemma WriteExtendsPacket(original: seq<byte>, header: seq<byte>, records: seq<InputState>, i: nat,
                           before: seq<byte>, after: seq<byte>)
    requires i < |records| && |header| + RecordSize * (i + 1) <= |original|
    requires before == Overlay(original, header + EncodeAll(records[..i]))
    requires var at := |header| + RecordSize * i;
      after == before[..at] + Encode(records[i]) + before[at + RecordSize..]
    ensures after == Overlay(original, header + EncodeAll(records[..i + 1]))
  {
    EncodeAllSnoc(records, i);
    var w := header + EncodeAll(records[..i]);
    assert header + EncodeAll(records[..i + 1]) == w + Encode(records[i]);
  }
}
