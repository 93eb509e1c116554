/**
 * The hosting side of a session: lobby admission of peers that say Hello, the
 * chat message packet, and the length-prefixed roster packet (AddPeers) that
 * lists the directory's endpoints as text.
 *
 * `IPEndPoint.ToString` is not modelled; every operation that needs an endpoint's
 * text takes it as the parameter `text`.
 */
module Hosting {
  import opened Protocol
  import opened Messaging

  // ---------------------------------------------------------------------------
  // Lobby admission

  /** A datagram arrived and its first byte is the Hello tag. */
  predicate IsHello(d: Option<Datagram>)
  {
    d.Some? && |d.value.bytes| > 0 && d.value.bytes[0] == Tag(Hello)
  }

  /** The host admits the sender of `d`: a Hello while the directory has a free slot. */
  predicate Admits(dir: seq<Endpoint>, d: Option<Datagram>)
  {
    IsHello(d) && |dir| < MaxPeers
  }

  /** The directory after the lobby has handled `d`: an admitted sender is appended. */
  function LobbyDirectory(dir: seq<Endpoint>, d: Option<Datagram>): seq<Endpoint>
  {
    if Admits(dir, d) then dir + [d.value.peer] else dir
  }

  /** What the lobby sends when it handles `d`: one Acknowledge(Hello) to an admitted sender. */
  function LobbyReplies(dir: seq<Endpoint>, d: Option<Datagram>): seq<Datagram>
  {
    if Admits(dir, d) then [Datagram(AckPacket(Hello), d.value.peer)] else []
  }

  /** The messenger buffer after the lobby has handled `d`: the received bytes, then the acknowledgement. */
  function LobbyBuffer(buf: seq<byte>, dir: seq<Endpoint>, d: Option<Datagram>): seq<byte>
    requires |buf| == BufferSize
    requires d.Some? ==> |d.value.bytes| <= BufferSize
  {
    if d.None? then buf
    else
      var received := Overlay(buf, d.value.bytes);
      if Admits(dir, d) then Overlay(received, AckPacket(Hello)) else received
  }

  /** The directory after the lobby has handled every datagram of `ds` in turn. */
  function LobbyRun(dir: seq<Endpoint>, ds: seq<Option<Datagram>>): seq<Endpoint>
    decreases |ds|
  {
    if |ds| == 0 then dir else LobbyRun(LobbyDirectory(dir, ds[0]), ds[1..])
  }

  /** Some datagram of `ds` is a Hello from `e`. */
  predicate SaidHello(ds: seq<Option<Datagram>>, e: Endpoint)
  {
    exists i | 0 <= i < |ds| :: IsHello(ds[i]) && ds[i].value.peer == e
  }

  /**
   * However many datagrams arrive, the directory never exceeds MaxPeers, admitted
   * peers are never reordered or dropped, and every slot that was added holds the
   * sender of some Hello.
   */
  lemma {:induction false} LobbyRunBounded(dir: seq<Endpoint>, ds: seq<Option<Datagram>>)
    requires |dir| <= MaxPeers
    ensures |LobbyRun(dir, ds)| <= MaxPeers
    ensures |dir| <= |LobbyRun(dir, ds)| && LobbyRun(dir, ds)[..|dir|] == dir
    ensures forall k | |dir| <= k < |LobbyRun(dir, ds)| :: SaidHello(ds, LobbyRun(dir, ds)[k])
    decreases |ds|
  {
    if |ds| > 0 {
      var next := LobbyDirectory(dir, ds[0]);
      var r := LobbyRun(next, ds[1..]);
      assert LobbyRun(dir, ds) == r;
      LobbyRunBounded(next, ds[1..]);
      assert r[..|dir|] == r[..|next|][..|dir|];
      forall k | |dir| <= k < |r|
        ensures SaidHello(ds, r[k])
      {
        if k < |next| {
          assert r[k] == next[k] == ds[0].value.peer;
          assert IsHello(ds[0]);
        } else {
          assert SaidHello(ds[1..], r[k]);
          var i :| 0 <= i < |ds[1..]| && IsHello(ds[1..][i]) && ds[1..][i].value.peer == r[k];
          assert ds[i + 1] == ds[1..][i];
        }
      }
    }
  }

  /** There is no HasPeer check: the same endpoint saying Hello twice takes two slots. */
  lemma RepeatedHelloTakesTwoSlots(p: Endpoint, bytes: seq<byte>)
    requires |bytes| > 0 && bytes[0] == Tag(Hello)
    ensures LobbyRun([], [Some(Datagram(bytes, p)), Some(Datagram(bytes, p))]) == [p, p]
  {
    var d := Some(Datagram(bytes, p));
    assert LobbyDirectory([], d) == [p];
    assert LobbyDirectory([p], d) == [p, p];
    assert [d, d][1..] == [d];
    assert LobbyRun([], [d, d]) == LobbyRun([p], [d]);
    assert LobbyRun([p], [d]) == LobbyRun([p, p], []);
  }

  // ---------------------------------------------------------------------------
  // Message packet

  /** `[Message, the message as ASCII]`. */
  function MessagePacket(message: string): (p: seq<byte>)
    ensures |p| == |message| + 1
  {
    [Tag(Message)] + AsciiBytes(message)
  }

  /**
   * A reference reader for Message packets, with no counterpart in the repository:
   * the only code that reads them is commented out. It is the inverse that
   * MessageRoundTrip checks MessagePacket against.
   */
  function ParseMessage(p: seq<byte>): Option<string>
  {
    if |p| > 0 && p[0] == Tag(Message) && forall i | 1 <= i < |p| :: p[i] < 0x80
    then Some(AsciiText(p[1..]))
    else None
  }

  /** An ASCII message is read back from its packet unchanged. */
  lemma MessageRoundTrip(message: string)
    requires IsAscii(message)
    ensures ParseMessage(MessagePacket(message)) == Some(message)
  {
    var p := MessagePacket(message);
    assert p[1..] == AsciiBytes(message);
    assert forall i | 1 <= i < |p| :: p[i] == AsciiByte(message[i - 1]);
    AsciiRoundTrip(message);
  }

  // ---------------------------------------------------------------------------
  // Roster packet

  /** One roster entry: the length byte, `(byte)text.Length`, then the text as ASCII. */
  function Entry(s: string): (b: seq<byte>)
    ensures |b| == |s| + 1
  {
    [(|s| % 256) as byte] + AsciiBytes(s)
  }

  /** The entries of `dir`, in directory order. */
  function Entries(dir: seq<Endpoint>, text: Endpoint -> string): seq<byte>
  {
    if |dir| == 0 then [] else Entry(text(dir[0])) + Entries(dir[1..], text)
  }

  /** `[AddPeers, count, entries]`. */
  function RosterPacket(dir: seq<Endpoint>, text: Endpoint -> string): seq<byte>
  {
    [Tag(AddPeers), (|dir| % 256) as byte] + Entries(dir, text)
  }

  lemma {:induction false} EntriesAppend(a: seq<Endpoint>, b: seq<Endpoint>, text: Endpoint -> string)
    ensures Entries(a + b, text) == Entries(a, text) + Entries(b, text)
    decreases |a|
  {
    if |a| == 0 {
      assert a + b == b;
    } else {
      assert (a + b)[1..] == a[1..] + b;
      EntriesAppend(a[1..], b, text);
    }
  }

  /** Writing the entries one at a time in directory order builds Entries. */
  lemma EntriesSnoc(dir: seq<Endpoint>, i: nat, text: Endpoint -> string)
    requires i < |dir|
    ensures Entries(dir[..i + 1], text) == Entries(dir[..i], text) + Entry(text(dir[i]))
  {
    assert dir[..i + 1] == dir[..i] + [dir[i]];
    EntriesAppend(dir[..i], [dir[i]], text);
    assert Entries([dir[i]], text) == Entry(text(dir[i])) + Entries([], text);
  }

  /** The entries up to and including slot `i` fit wherever the whole directory's entries fit. */
  lemma EntriesPrefixFits(dir: seq<Endpoint>, i: nat, text: Endpoint -> string)
    requires i < |dir|
    ensures Entries(dir[..i + 1], text) == Entries(dir[..i], text) + Entry(text(dir[i]))
    ensures |Entries(dir[..i + 1], text)| <= |Entries(dir, text)|
  {
    EntriesSnoc(dir, i, text);
    assert dir == dir[..i + 1] + dir[i + 1..];
    EntriesAppend(dir[..i + 1], dir[i + 1..], text);
  }

  /** Writing the entry of slot `i` after those before it extends the roster written so far. */
  lemma RosterWriteStep(original: seq<byte>, header: seq<byte>, dir: seq<Endpoint>, i: nat,
                        text: Endpoint -> string, before: seq<byte>, after: seq<byte>)
    requires i < |dir| && |header| == 2
    requires 2 + |Entries(dir, text)| <= |original|
    requires |Entries(dir[..i], text)| + |Entry(text(dir[i]))| <= |Entries(dir, text)|
    requires before == Overlay(original, header + Entries(dir[..i], text))
    requires after == Splice(before, 2 + |Entries(dir[..i], text)|, Entry(text(dir[i])))
    requires Entries(dir[..i + 1], text) == Entries(dir[..i], text) + Entry(text(dir[i]))
    ensures after == Overlay(original, header + Entries(dir[..i + 1], text))
  {
    var written := header + Entries(dir[..i], text);
    OverlayThenSplice(original, written, Entry(text(dir[i])));
    assert written + Entry(text(dir[i])) == header + Entries(dir[..i + 1], text);
  }

  /**
   * A reference reader for `count` length-prefixed roster entries, with no counterpart
   * in the repository (no code reads AddPeers packets); None when the bytes run out first.
   */
  function ParseEntries(b: seq<byte>, count: nat): Option<seq<seq<byte>>>
    decreases count
  {
    if count == 0 then Some([])
    else if |b| == 0 || |b| < 1 + b[0] as int then None
    else
      match ParseEntries(b[1 + b[0] as int..], count - 1)
      case None => None
      case Some(rest) => Some([b[1..1 + b[0] as int]] + rest)
  }

  /** A reference reader for the entry texts of an AddPeers packet, as bytes; the inverse RosterRoundTrip checks. */
  function ParseRoster(p: seq<byte>): Option<seq<seq<byte>>>
  {
    if |p| < 2 || p[0] != Tag(AddPeers) then None else ParseEntries(p[2..], p[1] as nat)
  }

  /** An entry of fewer than 256 characters in front of `tail` is read as its ASCII bytes, then `tail` is parsed. */
  lemma ParseEntriesCons(s: string, tail: seq<byte>, count: nat)
    requires |s| < 256
    ensures ParseEntries(Entry(s) + tail, count + 1)
         == match ParseEntries(tail, count)
            case None => None
            case Some(r) => Some([AsciiBytes(s)] + r)
  {
    var b := Entry(s) + tail;
    assert b[0] as int == |s|;
    assert b[1..1 + |s|] == AsciiBytes(s);
    assert b[1 + |s|..] == tail;
  }

  /** The ASCII bytes of every endpoint's text, in directory order. */
  function Texts(dir: seq<Endpoint>, text: Endpoint -> string): (r: seq<seq<byte>>)
    ensures |r| == |dir|
    ensures forall i | 0 <= i < |dir| :: r[i] == AsciiBytes(text(dir[i]))
  {
    if |dir| == 0 then [] else [AsciiBytes(text(dir[0]))] + Texts(dir[1..], text)
  }

  lemma {:induction false} ParseEntriesOf(dir: seq<Endpoint>, text: Endpoint -> string, rest: seq<byte>)
    requires forall i | 0 <= i < |dir| :: |text(dir[i])| < 256
    ensures ParseEntries(Entries(dir, text) + rest, |dir|) == Some(Texts(dir, text))
    decreases |dir|
  {
    if |dir| > 0 {
      var s := text(dir[0]);
      var tail := Entries(dir[1..], text) + rest;
      assert Entries(dir, text) + rest == Entry(s) + tail;
      ParseEntriesCons(s, tail, |dir| - 1);
      ParseEntriesOf(dir[1..], text, rest);
    }
  }

  /**
   * A roster of fewer than 256 endpoints whose texts are shorter than 256 characters
   * is read back entry by entry, in directory order.
   */
  lemma RosterRoundTrip(dir: seq<Endpoint>, text: Endpoint -> string)
    requires |dir| < 256
    requires forall i | 0 <= i < |dir| :: |text(dir[i])| < 256
    ensures ParseRoster(RosterPacket(dir, text)) == Some(Texts(dir, text))
  {
    var p := RosterPacket(dir, text);
    assert p[0] == Tag(AddPeers) && p[1] as nat == |dir|;
    assert p[2..] == Entries(dir, text) + [];
    ParseEntriesOf(dir, text, []);
    assert ParseRoster(p) == ParseEntries(Entries(dir, text) + [], |dir|);
  }

  /**
   * What the foreach over all MaxPeers slots of `Peers` yields as it stands: the
   * entries of the slots, or None as soon as an empty (null) slot stops it.
   */
  function SlotEntries(slots: seq<Option<Endpoint>>, text: Endpoint -> string): Option<seq<byte>>
  {
    if |slots| == 0 then Some([])
    else if slots[0].None? then None
    else
      match SlotEntries(slots[1..], text)
      case None => None
      case Some(e) => Some(Entry(text(slots[0].value)) + e)
  }

  /** Over a directory of `n` filled slots followed by empty ones, the foreach gets through only when every slot is filled. */
  lemma {:induction false} SlotEntriesOfDirectory(slots: seq<Option<Endpoint>>, n: nat, text: Endpoint -> string)
    requires n <= |slots|
    requires forall i | 0 <= i < |slots| :: slots[i].Some? <==> i < n
    ensures n < |slots| ==> SlotEntries(slots, text).None?
    ensures n == |slots| ==> SlotEntries(slots, text) == Some(Entries(Values(slots), text))
    decreases |slots|
  {
    if |slots| > 0 && n > 0 {
      SlotEntriesOfDirectory(slots[1..], n - 1, text);
      if n == |slots| {
        assert Values(slots)[1..] == Values(slots[1..]);
      }
    }
  }

  /** A one-peer lobby: the roster it should announce exists, but the foreach over the slots yields nothing. */
  lemma RosterLostBelowFullDirectory(peer: Endpoint, text: Endpoint -> string)
    ensures SlotEntries([Some(peer), None, None], text).None?
    ensures |Entries([peer], text)| == |text(peer)| + 1
  {
    SlotEntriesOfDirectory([Some(peer), None, None], 1, text);
    assert Entries([peer], text) == Entry(text(peer)) + Entries([], text);
  }

  // ---------------------------------------------------------------------------

  class NetHost {
    const messenger: NetMessenger
    /** The host's phase; no statement of the host assigns it after construction. */
    var state: NetState
    /** Where the last receive came from. */
    var cachedEndPoint: Endpoint

    ghost predicate Valid()
      reads messenger`peerCount, messenger.peers, messenger.peerInputStates
    {
      messenger.Valid()
    }

    constructor ()
      ensures Valid() && fresh(messenger) && fresh(messenger.buffer) && fresh(messenger.peers)
      ensures fresh(messenger.peerInputStates)
      ensures state == InLobby && cachedEndPoint == AnyEndpoint
      ensures messenger.Directory() == [] && messenger.sent == []
    {
      messenger := new NetMessenger();
      state := InLobby;
      cachedEndPoint := AnyEndpoint;
    }

    /**
     * NetHost.Poll: dispatches on the phase. Only the lobby does anything; the
     * StartingGame and InGame polls are empty, and the phase never changes.
     */
    method Poll(incoming: Option<Datagram>)
      requires Valid()
      requires incoming.Some? ==> |incoming.value.bytes| <= BufferSize
      modifies this`cachedEndPoint, messenger.buffer, messenger`sent, messenger`peerCount, messenger.peers
      ensures Valid() && state == old(state)
      ensures old(state) == InLobby ==>
        && messenger.Directory() == LobbyDirectory(old(messenger.Directory()), incoming)
        && messenger.sent == old(messenger.sent) + LobbyReplies(old(messenger.Directory()), incoming)
        && messenger.buffer[..] == LobbyBuffer(old(messenger.buffer[..]), old(messenger.Directory()), incoming)
        && cachedEndPoint == if incoming.Some? then incoming.value.peer else old(cachedEndPoint)
      ensures old(state) != InLobby ==>
        && cachedEndPoint == old(cachedEndPoint) && messenger.peerCount == old(messenger.peerCount)
        && messenger.sent == old(messenger.sent)
        && messenger.buffer[..] == old(messenger.buffer[..]) && messenger.peers[..] == old(messenger.peers[..])
    {
      match state
      case InLobby => PollInLobby(incoming);
      case StartingGame =>
      case InGame =>
    }

    /**
     * NetHost.PollInLobby: a Hello while a slot is free is acknowledged to its sender,
     * and the sender is appended to the directory; every other datagram, or a Hello to
     * a full directory, changes nothing but the buffer and the cached endpoint.
     */
    method PollInLobby(incoming: Option<Datagram>)
      requires Valid()
      requires incoming.Some? ==> |incoming.value.bytes| <= BufferSize
      modifies this`cachedEndPoint, messenger.buffer, messenger`sent, messenger`peerCount, messenger.peers
      ensures Valid()
      ensures messenger.Directory() == LobbyDirectory(old(messenger.Directory()), incoming)
      ensures messenger.sent == old(messenger.sent) + LobbyReplies(old(messenger.Directory()), incoming)
      ensures messenger.buffer[..] == LobbyBuffer(old(messenger.buffer[..]), old(messenger.Directory()), incoming)
      ensures cachedEndPoint == if incoming.Some? then incoming.value.peer else old(cachedEndPoint)
    {
      var receivedSpan;
      receivedSpan, cachedEndPoint := messenger.Receive(incoming, cachedEndPoint);
      if |receivedSpan| == 0 {
        return;
      }
      if receivedSpan[0] == Tag(Hello) {
        if messenger.peerCount >= MaxPeers {
          return;
        }
        // A peer that misses the acknowledgement keeps saying hello until one arrives.
        messenger.SendAcknowledgement(Hello, cachedEndPoint);
        var ok := messenger.AddPeer(cachedEndPoint);
      }
    }

    /** NetHost.SendMessageToAll: the message packet to every peer. */
    method SendMessageToAll(message: string)
      requires Valid()
      requires |message| + 1 <= BufferSize
      modifies messenger.buffer, messenger`sent
      ensures Valid()
      ensures messenger.buffer[..] == Overlay(old(messenger.buffer[..]), MessagePacket(message))
      ensures messenger.sent == old(messenger.sent) + Broadcast(MessagePacket(message), messenger.Directory())
    {
      messenger.buffer[0] := Tag(Message);
      forall i | 0 <= i < |message| {
        messenger.buffer[1 + i] := AsciiByte(message[i]);
      }
      assert messenger.buffer[..|message| + 1] == MessagePacket(message);
      assert messenger.buffer[..] == Overlay(old(messenger.buffer[..]), MessagePacket(message));
      messenger.SendFromBuffer(|message| + 1, None);
    }

    /**
     * NetHost.WritePeerToBuffer: an empty slot writes nothing and returns 0; an
     * endpoint writes its entry at `offset` and returns the entry's length.
     */
    method WritePeerToBuffer(peer: Option<Endpoint>, offset: nat, text: Endpoint -> string) returns (bytesWritten: nat)
      requires messenger.buffer.Length == BufferSize
      requires peer.Some? ==> offset + 1 + |text(peer.value)| <= BufferSize
      modifies messenger.buffer
      ensures peer.None? ==> bytesWritten == 0 && messenger.buffer[..] == old(messenger.buffer[..])
      ensures peer.Some? ==> && bytesWritten == |Entry(text(peer.value))|
                             && messenger.buffer[..] == Splice(old(messenger.buffer[..]), offset, Entry(text(peer.value)))
    {
      if peer.None? {
        return 0;
      }
      var ipEndPointString := text(peer.value);
      messenger.buffer[offset] := (|ipEndPointString| % 256) as byte;
      var start := offset + 1;
      forall i | 0 <= i < |ipEndPointString| {
        messenger.buffer[start + i] := AsciiByte(ipEndPointString[i]);
      }
      ghost var e := Entry(ipEndPointString);
      assert messenger.buffer[offset..offset + |e|] == e;
      assert messenger.buffer[..] == Splice(old(messenger.buffer[..]), offset, e);
      return |ipEndPointString| + 1;
    }

    /** The packet type and the peer count (as a byte), at the front of the buffer. */
    method WriteRosterHeader() returns (offset: nat)
      requires Valid()
      modifies messenger.buffer
      ensures Valid()
      ensures offset == 2
      ensures messenger.buffer[..] == Overlay(old(messenger.buffer[..]), [Tag(AddPeers), (messenger.peerCount % 256) as byte])
    {
      offset := 0;
      messenger.buffer[offset] := Tag(AddPeers);
      offset := offset + 1;
      messenger.buffer[offset] := (messenger.peerCount % 256) as byte;
      offset := offset + 1;
    }

    /**
     * NetHost.SendAddPeersToAll as it stands: the foreach visits all MaxPeers slots of
     * `Peers`, so with a free slot it reaches an empty one, WritePeerToBuffer returns 0
     * and nothing is sent. The roster only goes out when the directory is full.
     */
    method SendAddPeersToAll(text: Endpoint -> string)
      requires Valid()
      requires 2 + |Entries(messenger.Directory(), text)| <= BufferSize
      modifies messenger.buffer, messenger`sent
      ensures Valid()
      ensures messenger.buffer[..] == Overlay(old(messenger.buffer[..]), RosterPacket(messenger.Directory(), text))
      ensures messenger.peerCount == MaxPeers ==>
        messenger.sent == old(messenger.sent) + Broadcast(RosterPacket(messenger.Directory(), text), messenger.Directory())
      ensures messenger.peerCount < MaxPeers ==> messenger.sent == old(messenger.sent)
    {
      ghost var dir := messenger.Directory();
      ghost var original := messenger.buffer[..];
      ghost var header := [Tag(AddPeers), (messenger.peerCount % 256) as byte];
      var currentOffset := WriteRosterHeader();
      assert header + Entries(dir[..0], text) == header;

      var i := 0;
      while i < MaxPeers
        invariant 0 <= i <= messenger.peerCount
        invariant currentOffset == 2 + |Entries(dir[..i], text)| <= BufferSize
        invariant messenger.buffer[..] == Overlay(original, header + Entries(dir[..i], text))
        invariant messenger.sent == old(messenger.sent)
      {
        if i < messenger.peerCount {
          EntriesPrefixFits(dir, i, text);
        }
        ghost var before := messenger.buffer[..];
        var bytesWritten := WritePeerToBuffer(messenger.peers[i], currentOffset, text);
        if bytesWritten == 0 {
          // Failed to write the peer to the buffer.
          assert dir[..i] == dir;
          return;
        }
        RosterWriteStep(original, header, dir, i, text, before, messenger.buffer[..]);
        currentOffset := currentOffset + bytesWritten;
        i := i + 1;
      }
      assert dir[..i] == dir;
      assert messenger.buffer[..currentOffset] == RosterPacket(dir, text);
      messenger.SendFromBuffer(currentOffset, None);
    }

    /**
     * SendAddPeersToAll as the roster was evidently meant to work: the loop visits the
     * directory's PeerCount slots only, so every peer receives the roster whatever the
     * number of peers.
     */
    method SendRosterToAll(text: Endpoint -> string)
      requires Valid()
      requires 2 + |Entries(messenger.Directory(), text)| <= BufferSize
      modifies messenger.buffer, messenger`sent
      ensures Valid()
      ensures messenger.buffer[..] == Overlay(old(messenger.buffer[..]), RosterPacket(messenger.Directory(), text))
      ensures messenger.sent == old(messenger.sent) + Broadcast(RosterPacket(messenger.Directory(), text), messenger.Directory())
    {
      ghost var dir := messenger.Directory();
      ghost var original := messenger.buffer[..];
      ghost var header := [Tag(AddPeers), (messenger.peerCount % 256) as byte];
      var currentOffset := WriteRosterHeader();
      assert header + Entries(dir[..0], text) == header;

      var i := 0;
      while i < messenger.peerCount
        invariant 0 <= i <= messenger.peerCount
        invariant currentOffset == 2 + |Entries(dir[..i], text)| <= BufferSize
        invariant messenger.buffer[..] == Overlay(original, header + Entries(dir[..i], text))
        invariant messenger.sent == old(messenger.sent)
      {
        EntriesPrefixFits(dir, i, text);
        ghost var before := messenger.buffer[..];
        var bytesWritten := WritePeerToBuffer(messenger.peers[i], currentOffset, text);
        RosterWriteStep(original, header, dir, i, text, before, messenger.buffer[..]);
        currentOffset := currentOffset + bytesWritten;
        i := i + 1;
      }
      assert dir[..i] == dir;
      assert messenger.buffer[..currentOffset] == RosterPacket(dir, text);
      messenger.SendFromBuffer(currentOffset, None);
    }
  }
}
