/**
 * The joining side of a session: the directory is seeded with the host, and every
 * lobby poll says Hello to the host until an Acknowledge(Hello) comes back.
 *
 * The host's endpoint is a parameter; the DNS lookup that produces it is not modelled.
 */
module Peering {
  import opened Protocol
  import opened Messaging

  /** The phase after one poll that received `received`: only an Acknowledge(Hello) in the lobby moves it. */
  function NextPhase(state: NetState, received: seq<byte>): (r: NetState)
    ensures PhaseRank(state) <= PhaseRank(r)
    ensures r != state <==> state == InLobby && IsAcknowledgement(Hello, received)
    ensures r != state ==> r == StartingGame
  {
    if state == InLobby && IsAcknowledgement(Hello, received) then StartingGame else state
  }

  /** The bytes a poll sees: those of the datagram that arrived, or none. */
  function Received(d: Option<Datagram>): seq<byte>
  {
    if d.Some? then d.value.bytes else []
  }

  /** The phase after a poll for each datagram of `ds` in turn. */
  function PhaseAfter(state: NetState, ds: seq<Option<Datagram>>): NetState
    decreases |ds|
  {
    if |ds| == 0 then state else PhaseAfter(NextPhase(state, Received(ds[0])), ds[1..])
  }

  /** Some datagram of `ds` acknowledges a Hello. */
  predicate SomeHelloAcknowledged(ds: seq<Option<Datagram>>)
  {
    exists i | 0 <= i < |ds| :: IsAcknowledgement(Hello, Received(ds[i]))
  }

  /**
   * Starting in the lobby, a peer never reaches InGame, and it has left the lobby
   * (for StartingGame) exactly when some datagram acknowledged its Hello, whoever
   * sent it.
   */
  lemma {:induction false} PhaseAfterLobby(ds: seq<Option<Datagram>>)
    ensures PhaseAfter(InLobby, ds) != InGame
    ensures PhaseAfter(InLobby, ds) == StartingGame <==> SomeHelloAcknowledged(ds)
    decreases |ds|
  {
    if |ds| > 0 {
      if IsAcknowledgement(Hello, Received(ds[0])) {
        StartingGameStays(ds[1..]);
        assert PhaseAfter(InLobby, ds) == StartingGame;
      } else {
        PhaseAfterLobby(ds[1..]);
        assert PhaseAfter(InLobby, ds) == PhaseAfter(InLobby, ds[1..]);
        if SomeHelloAcknowledged(ds) {
          var i :| 0 <= i < |ds| && IsAcknowledgement(Hello, Received(ds[i]));
          assert ds[1..][i - 1] == ds[i];
        }
        if SomeHelloAcknowledged(ds[1..]) {
          var i :| 0 <= i < |ds[1..]| && IsAcknowledgement(Hello, Received(ds[1..][i]));
          assert ds[i + 1] == ds[1..][i];
        }
      }
    }
  }

  /** Once in StartingGame, no datagram moves the peer again. */
  lemma {:induction false} StartingGameStays(ds: seq<Option<Datagram>>)
    ensures PhaseAfter(StartingGame, ds) == StartingGame
    decreases |ds|
  {
    if |ds| > 0 {
      StartingGameStays(ds[1..]);
    }
  }

  class NetPeer {
    const messenger: NetMessenger
    const host: Endpoint
    var state: NetState
    /** Where the last receive came from. */
    var cachedEndPoint: Endpoint

    ghost predicate Valid()
      reads messenger`peerCount, messenger.peers, messenger.peerInputStates
    {
      messenger.Valid()
    }

    /** NetPeer's constructor: the directory holds exactly the host, in slot 0. */
    constructor (host: Endpoint)
      ensures Valid() && fresh(messenger) && fresh(messenger.buffer) && fresh(messenger.peers)
      ensures fresh(messenger.peerInputStates)
      ensures this.host == host && state == InLobby && cachedEndPoint == AnyEndpoint
      ensures messenger.Directory() == [host] && messenger.peers[0] == Some(host)
      ensures messenger.sent == []
    {
      this.host := host;
      messenger := new NetMessenger();
      state := InLobby;
      cachedEndPoint := AnyEndpoint;
      new;
      var ok := messenger.AddPeer(host);
    }

    /** NetPeer.Poll: dispatches on the phase; the StartingGame and InGame polls are empty. */
    method Poll(incoming: Option<Datagram>)
      requires Valid()
      requires incoming.Some? ==> |incoming.value.bytes| <= BufferSize
      modifies this`state, this`cachedEndPoint, messenger.buffer, messenger`sent
      ensures Valid()
      ensures state == NextPhase(old(state), Received(incoming))
      ensures old(state) == InLobby ==>
        && messenger.sent == old(messenger.sent) + [Datagram([Tag(Hello)], host)]
        && messenger.buffer[..] == Overlay(Overlay(old(messenger.buffer[..]), [Tag(Hello)]), Received(incoming))
        && cachedEndPoint == if incoming.Some? then incoming.value.peer else old(cachedEndPoint)
      ensures old(state) != InLobby ==>
        && messenger.sent == old(messenger.sent) && messenger.buffer[..] == old(messenger.buffer[..])
        && cachedEndPoint == old(cachedEndPoint)
    {
      match state
      case InLobby => PollInLobby(incoming);
      case StartingGame =>
      case InGame =>
    }

    /**
     * NetPeer.PollInLobby: says Hello to the host, then receives; an Acknowledge(Hello)
     * from anyone moves the peer to StartingGame.
     */
    method PollInLobby(incoming: Option<Datagram>)
      requires Valid()
      requires incoming.Some? ==> |incoming.value.bytes| <= BufferSize
      modifies this`state, this`cachedEndPoint, messenger.buffer, messenger`sent
      ensures Valid()
      ensures state == if IsAcknowledgement(Hello, Received(incoming)) then StartingGame else old(state)
      ensures messenger.sent == old(messenger.sent) + [Datagram([Tag(Hello)], host)]
      ensures messenger.buffer[..] == Overlay(Overlay(old(messenger.buffer[..]), [Tag(Hello)]), Received(incoming))
      ensures cachedEndPoint == if incoming.Some? then incoming.value.peer else old(cachedEndPoint)
    {
      SendHelloToHost();
      var receivedSpan;
      receivedSpan, cachedEndPoint := messenger.Receive(incoming, cachedEndPoint);
      if |receivedSpan| == 0 {
        return;
      }
      if IsAcknowledgement(Hello, receivedSpan) {
        state := StartingGame;
      }
    }

    /** NetPeer.SendHelloToHost: the one-byte Hello, to the host only. */
    method SendHelloToHost()
      requires Valid()
      modifies messenger.buffer, messenger`sent
      ensures Valid()
      ensures messenger.buffer[..] == Overlay(old(messenger.buffer[..]), [Tag(Hello)])
      ensures messenger.sent == old(messenger.sent) + [Datagram([Tag(Hello)], host)]
    {
      messenger.buffer[0] := Tag(Hello);
      assert messenger.buffer[..1] == [Tag(Hello)];
      messenger.SendFromBuffer(1, Some(host));
    }
  }
}
