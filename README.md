# DeterministicNetcode lockstep core, modelled in Dafny

This project models the lockstep session core of DeterministicNetcode, a small
MonoGame demo in which a host and up to three peers run the same integer-only
simulation in lockstep over UDP. The model covers:

- the 12-byte `InputState` wire record. It is three little-endian two's complement
  int32s, in `BitConverter` layout;
- the `NetMessenger`, which owns:
  - the bounded peer directory (three slots);
  - one pending input slot per peer. Filled slots form the step barrier;
  - the shared 1024-byte buffer that every packet is laid out in.

  It also has the Acknowledge, InputState and AddPeers packet layouts, and the
  ingestion of an InputState datagram for the awaited step;
- the `NetHost` lobby, which admits a peer on each Hello while a slot is free. It
  also covers the chat message packet and the length-prefixed roster packet
  (AddPeers);
- the `NetPeer` handshake. A peer repeats Hello to the host each time it polls and
  moves to StartingGame on an Acknowledge(Hello);
- `DeterministicGame`: 64x64 players stepping by `sign(axis) * 2` against a fixed
  wall, with C# wrapping `int` arithmetic;
- `ArrayList<T>`, including its accumulating `Count` setter;
- `Game1`'s lockstep loop, made of:
  - the hand-off from the lobby screens to the game;
  - the two-record local input window;
  - the broadcast of that window;
  - the barrier that lets one step happen only once every peer's input is in.

Files, one Dafny module each:

| file | module | models |
|---|---|---|
| protocol.dfy | Protocol | `int` wrap-around, the int32 byte layout, packet tags, phases, endpoints, ASCII |
| input_state.dfy | InputStates | `InputState`, `WriteBytes`, `FromBytes` |
| net_messenger.dfy | Messaging | `NetMessenger` |
| net_host.dfy | Hosting | `NetHost` |
| net_peer.dfy | Peering | `NetPeer` |
| deterministic_game.dfy | Simulation | `DeterministicGame` |
| array_list.dfy | Collections | `ArrayList<T>` |
| game1.dfy | Lockstep | `Game1` update logic |

How the model treats the transport, text and time:

- **Sends.** The transport is an append-only log `sent` of datagrams with their
  destinations.
- **Receives.** A receive is handed the next queued datagram as a parameter
  `incoming: Option<Datagram>`.
- **Endpoint text.** `IPEndPoint.ToString` is a function parameter `text`.
- **Keyboard.** The arrow keys are four booleans.
- **Timer.** The floating-point step timer is one boolean, "a step time has
  elapsed".

The code is in the middle of a refactor. `NetHost` and `NetPeer` call
`Peers.Count` and `Peers.Add`, but `Peers` is a fixed array with a separate
`PeerCount` (`Net/NetMessenger.cs:25-27`). The model reads these calls as
`PeerCount` and `AddPeer`. With that reading:

- a Hello while a slot is free is acknowledged and then added;
- `PollInLobby` makes no `HasPeer` check before `AddPeer`, so a repeated Hello takes a
  second slot (`Hosting.RepeatedHelloTakesTwoSlots`);
- nothing in the host or the peer ever assigns the `InGame` phase. A joining peer's
  screen therefore never reaches the game (`Lockstep.ClientNeverEntersGame`).

`PacketType` is not among the modelled sources. It is a datatype of the five kinds
the code uses, with tags Hello 0, Acknowledge 1, AddPeers 2, InputState 3 and
Message 4.

## Model

| member | source | states |
|---|---|---|
| Protocol.Wrap32 | DeterministicNetcode/Game1.cs:222 | C#'s unchecked `int` addition: the result is the exact sum, shifted by 2^32 when it leaves the int range, and the exact sum whenever it fits |
| Protocol.Wrap32IsModular | DeterministicNetcode/DeterministicGame.cs:36 | the wrapped sum agrees with the exact sum modulo 2^32 |
| Protocol.Int32ToBytes | DeterministicNetcode/Net/InputState.cs:17-18 | `BitConverter.TryWriteBytes` of an int always writes four bytes |
| Protocol.Int32FromBytes | DeterministicNetcode/Net/InputState.cs:36-37 | definition only: `BitConverter.ToInt32`, the little-endian sum of four bytes taken into the int range modulo 2^32; `Protocol.Int32RoundTrip` and `Protocol.Int32BytesRoundTrip` make it the exact inverse of `Int32ToBytes` |
| Protocol.Int32RoundTrip | DeterministicNetcode/Net/InputState.cs:17-37 | reading back the four bytes written for any int32 gives that int32 |
| Protocol.Int32BytesRoundTrip | DeterministicNetcode/Net/InputState.cs:36-37 | writing the int read from any four bytes gives those four bytes back, so the layout is a bijection |
| Protocol.Tag | DeterministicNetcode/Net/NetMessenger.cs:48-49 | definition only: the byte each packet kind is written as; `Protocol.TagsDistinct` states that no two kinds share one and that `PacketTypeOf` reads each back |
| Protocol.PacketTypeOf | DeterministicNetcode/Net/NetHost.cs:43 | the cast of a first byte to a packet kind: a kind exists exactly for tags below 5, and its tag is that byte |
| Protocol.TagsDistinct | DeterministicNetcode/Net/NetHost.cs:43-47 | two kinds share a tag only if they are the same kind, and every tag is recognised as its own kind |
| Protocol.AsciiByte | DeterministicNetcode/Net/NetHost.cs:95 | `Encoding.ASCII` keeps a 7-bit character as its code and turns every other character into `?` |
| Protocol.AsciiBytes | DeterministicNetcode/Net/NetHost.cs:136 | definition only: one byte per character, each the character's `AsciiByte`; `Protocol.AsciiRoundTrip` states that ASCII text survives it |
| Protocol.AsciiRoundTrip | DeterministicNetcode/Net/NetHost.cs:95 | ASCII text decodes back to itself after encoding |
| InputStates.Encode | DeterministicNetcode/Net/InputState.cs:13-30 | a record's image is 12 bytes: StepIndex in bytes 0-3, AxisX in 4-7, AxisY in 8-11 |
| InputStates.DecodeEncode | DeterministicNetcode/Net/InputState.cs:13-49 | decoding at the offset where a record was written gives the same StepIndex, AxisX and AxisY back, for every int32 value and whatever surrounds the record |
| InputStates.EncodeDecode | DeterministicNetcode/Net/InputState.cs:13-49 | re-encoding a decoded record reproduces its 12 bytes exactly |
| InputStates.Decode | DeterministicNetcode/Net/InputState.cs:32-49 | definition only: the record read as three int32s at `offset`, `offset + 4` and `offset + 8`; `InputStates.DecodeEncode` and `InputStates.EncodeDecode` make it the inverse of `Encode` |
| InputStates.WriteInt32 | DeterministicNetcode/Net/InputState.cs:17-19 | writes the int's four bytes at `offset` and leaves every other byte unchanged |
| InputStates.WriteBytes | DeterministicNetcode/Net/InputState.cs:13-30 | returns 12, and the buffer afterwards is its old bytes with the record's image in `[offset, offset+12)`, so nothing else changes; the span needs `offset + 12 <= Length` |
| InputStates.FromBytes | DeterministicNetcode/Net/InputState.cs:32-49 | advances the offset by exactly 12 and returns the record decoded from those bytes |
| Messaging.AckPacket | DeterministicNetcode/Net/NetMessenger.cs:48-49 | definition only: the two bytes `[Acknowledge, ofType]`; `Messaging.AcknowledgementClassifies` states that it is recognised as acknowledging exactly `ofType` |
| Messaging.IsAcknowledgement | DeterministicNetcode/Net/NetMessenger.cs:54-59 | false on fewer than 2 bytes, and true exactly when the first two bytes are `[Acknowledge, ofType]` |
| Messaging.AcknowledgementClassifies | DeterministicNetcode/Net/NetMessenger.cs:46-59 | an acknowledgement packet is recognised as acknowledging exactly the kind it names, and a packet of any other kind is never taken for an acknowledgement |
| Messaging.EncodeAll | DeterministicNetcode/Net/NetMessenger.cs:72-76 | the records of an InputState packet take 12 bytes each |
| Messaging.InputStatePacket | DeterministicNetcode/Net/NetMessenger.cs:65-76 | an InputState packet is `2 + 12 * count` bytes long |
| Messaging.DecodeRecords | DeterministicNetcode/Net/NetMessenger.cs:107-113 | `count` records, the `i`-th decoded at `offset + 12i`; `Messaging.InputStatePacketRoundTrip` makes it the inverse of the packet layout |
| Messaging.EncodeAllAt | DeterministicNetcode/Net/NetMessenger.cs:72-76 | record `i` of the packet body is at bytes `[12i, 12i+12)`, in list order |
| Messaging.InputStatePacketRoundTrip | DeterministicNetcode/Net/NetMessenger.cs:61-114 | decoding the records of an InputState packet from offset 2 gives back the records it was built from, in order |
| Messaging.Broadcast | DeterministicNetcode/Net/NetMessenger.cs:137-140 | definition only: one datagram with the same bytes to each directory peer, in slot order; `Messaging.NetMessenger.SendFromBuffer` ties the sent log to it |
| Messaging.IndexOf | DeterministicNetcode/Net/NetMessenger.cs:118-124 | the search for the sender: no slot exactly when the sender is not in the directory, otherwise the first slot holding it |
| Messaging.FirstMatch | DeterministicNetcode/Net/NetMessenger.cs:107-114 | definition only: the first record whose step is the awaited one among fully decoded records; characterised by `Messaging.FirstMatchAt`, `Messaging.FirstMatchNone` and `Messaging.FirstMatchFound` |
| Messaging.FirstMatchAt | DeterministicNetcode/Net/NetMessenger.cs:107-114 | the scan finds the record at the first index whose step is the awaited one |
| Messaging.FirstMatchNone | DeterministicNetcode/Net/NetMessenger.cs:107-116 | nothing is found exactly when no record in the datagram is for the awaited step |
| Messaging.FirstMatchFound | DeterministicNetcode/Net/NetMessenger.cs:107-114 | whatever the scan finds is one of the datagram's records, and it is for the awaited step |
| Messaging.ScanFits | DeterministicNetcode/Net/NetMessenger.cs:107-113 | definition only: the loop reads only inside the buffer, so every record it decodes, up to and including the first one for the awaited step, lies in the bytes; records after a match are never read |
| Messaging.Scan | DeterministicNetcode/Net/NetMessenger.cs:107-114 | definition only: the record-by-record scan, which stops at the first record for the awaited step; characterised by `Messaging.ScanFindsFirst`, `Messaging.ScanNoneReadsAll` and `Messaging.ScanOfFittingRecords` |
| Messaging.ScanFindsFirst | DeterministicNetcode/Net/NetMessenger.cs:107-114 | a record found by the scan is the one at the first index whose step is the awaited one, and it and every record before it lie in the bytes |
| Messaging.ScanNoneReadsAll | DeterministicNetcode/Net/NetMessenger.cs:107-116 | the scan finds nothing only when all `count` records lie in the bytes and none is for the awaited step |
| Messaging.ScanOfFittingRecords | DeterministicNetcode/Net/NetMessenger.cs:101-114 | when all `count` records lie in the bytes, the scan stays inside them and finds what `FirstMatch` finds among the decoded records |
| Messaging.ScanOfPacket | DeterministicNetcode/Net/NetMessenger.cs:61-114 | on a buffer that starts with an InputState packet, whatever follows it, the scan stays inside the buffer and finds the first of the packet's records for the awaited step |
| Messaging.Ingest | DeterministicNetcode/Net/NetMessenger.cs:116-124 | keeps the number of slots; with a found record and a known sender, that record goes into the sender's first slot, and otherwise nothing changes; characterised by `Messaging.IngestStoresOnlyAwaitedStep` |
| Messaging.IngestStoresOnlyAwaitedStep | DeterministicNetcode/Net/NetMessenger.cs:105-124 | a slot can change only if it is the first slot of the sender, and it can change only to a record of the datagram for the awaited step |
| Messaging.NetMessenger.Directory | DeterministicNetcode/Net/NetMessenger.cs:25-27 | the directory is the `PeerCount` filled slots in slot order |
| Messaging.NetMessenger.constructor | DeterministicNetcode/Net/NetMessenger.cs:18-28 | a zero-filled 1024-byte buffer, an empty directory of three slots, all input slots empty and nothing sent |
| Messaging.NetMessenger.SendAcknowledgement | DeterministicNetcode/Net/NetMessenger.cs:46-52 | writes exactly `[Acknowledge, ofType]` at the front of the buffer and sends those two bytes to `to` only |
| Messaging.NetMessenger.WriteInputStateHeader | DeterministicNetcode/Net/NetMessenger.cs:65-70 | helper: writes `[InputState, count]` at the front of the buffer, leaves the rest unchanged and returns offset 2 |
| Messaging.NetMessenger.WriteInputStatePacket | DeterministicNetcode/Net/NetMessenger.cs:65-76 | the buffer's front holds `[InputState, count, the records' images]` and the rest is unchanged; the length returned is `2 + 12 * count` |
| Messaging.NetMessenger.SendInputState | DeterministicNetcode/Net/NetMessenger.cs:61-79 | for at most `SavedInputStateCount` records, lays the InputState packet out at the front of the buffer and sends it to every directory peer, in order |
| Messaging.NetMessenger.ClearInputStates | DeterministicNetcode/Net/NetMessenger.cs:81-87 | empties exactly the input slots of the directory, `[0, PeerCount)`, and touches no other slot |
| Messaging.NetMessenger.HasAllPeerInputStates | DeterministicNetcode/Net/NetMessenger.cs:89-97 | true exactly when every slot in `[0, PeerCount)` holds a record, so it is true for an empty directory |
| Messaging.NetMessenger.FindInputState | DeterministicNetcode/Net/NetMessenger.cs:101-114 | the record the scan finds among the `Buffer[1]` records in the buffer: the first whose step is `forStepIndex`, or none; only the records the scan reads need lie inside the buffer |
| Messaging.NetMessenger.FindPeerSlot | DeterministicNetcode/Net/NetMessenger.cs:118-124 | the first directory slot whose peer equals the sender, or none |
| Messaging.NetMessenger.HandleInputState | DeterministicNetcode/Net/NetMessenger.cs:99-125 | the record the scan finds for the awaited step goes into the sender's first slot, and nothing else changes; with no such record or an unknown sender no slot changes. The count byte is trusted, and only the records the scan reads need lie inside the buffer |
| Messaging.NetMessenger.SendFromBuffer | DeterministicNetcode/Net/NetMessenger.cs:127-141 | the first `length` buffer bytes go to the given destination, or to every directory peer in slot order when none is given |
| Messaging.NetMessenger.Receive | DeterministicNetcode/Net/NetMessenger.cs:143-154 | with nothing queued, returns nothing and keeps the endpoint and the buffer; otherwise copies the datagram to the front of the buffer and returns its bytes and sender |
| Messaging.NetMessenger.AddPeer | DeterministicNetcode/Net/NetMessenger.cs:156-162 | on a full directory it fails and leaves every slot unchanged; otherwise it stores the peer at old `PeerCount`, which goes up by one, and the directory becomes the old one plus the peer |
| Messaging.NetMessenger.HasPeer | DeterministicNetcode/Net/NetMessenger.cs:166-177 | true exactly when the peer is in one of the `PeerCount` slots of the directory; later slots are ignored |
| Hosting.IsHello | DeterministicNetcode/Net/NetHost.cs:40-47 | definition only: a non-empty receive whose first byte is the Hello tag |
| Hosting.Admits | DeterministicNetcode/Net/NetHost.cs:43-54 | definition only: a Hello while fewer than MaxPeers peers are in the directory; `Hosting.LobbyRunBounded` and `Hosting.NetHost.PollInLobby` build on it |
| Hosting.LobbyDirectory | DeterministicNetcode/Net/NetHost.cs:40-62 | definition only: an admitted sender is appended to the directory, and every other datagram leaves it unchanged; `Hosting.LobbyRunBounded` and `Hosting.RepeatedHelloTakesTwoSlots` characterise runs of it |
| Hosting.LobbyReplies | DeterministicNetcode/Net/NetHost.cs:47-56 | definition only: one Acknowledge(Hello) to an admitted sender, and nothing otherwise; `Hosting.NetHost.PollInLobby` ties the sent log to it |
| Hosting.LobbyBuffer | DeterministicNetcode/Net/NetHost.cs:40-56 | definition only: the received bytes over the old buffer, then the acknowledgement over those when the sender is admitted; `Hosting.NetHost.PollInLobby` ties the buffer to it |
| Hosting.LobbyRunBounded | DeterministicNetcode/Net/NetHost.cs:38-64 | over any sequence of datagrams, the directory never exceeds MaxPeers, admitted peers keep their slots and order, and every added slot holds the sender of some Hello |
| Hosting.RepeatedHelloTakesTwoSlots | DeterministicNetcode/Net/NetHost.cs:54-57 | two Hellos from the same endpoint put it in two slots, because the lobby has no `HasPeer` check |
| Hosting.MessagePacket | DeterministicNetcode/Net/NetHost.cs:94-96 | a message packet is one byte longer than the message |
| Hosting.ParseMessage | DeterministicNetcode/Net/NetHost.cs:92-97 | reference reader with no source counterpart (no live code reads Message packets): the inverse that `Hosting.MessageRoundTrip` checks `Hosting.MessagePacket` against |
| Hosting.MessageRoundTrip | DeterministicNetcode/Net/NetHost.cs:92-97 | an ASCII message is read back from its packet unchanged |
| Hosting.Entry | DeterministicNetcode/Net/NetHost.cs:130-138 | a roster entry takes one byte more than the endpoint's text |
| Hosting.Entries | DeterministicNetcode/Net/NetHost.cs:106-117 | definition only: the entries of the directory's peers, one after another in directory order; characterised by `Hosting.EntriesAppend`, `Hosting.EntriesSnoc` and `Hosting.ParseEntriesOf` |
| Hosting.RosterPacket | DeterministicNetcode/Net/NetHost.cs:101-117 | definition only: `[AddPeers, count, entries]`; `Hosting.RosterRoundTrip` states that it reads back as the directory's texts |
| Hosting.EntriesAppend | DeterministicNetcode/Net/NetHost.cs:106-117 | the entries of two directories placed one after the other are the entries of the first followed by the entries of the second |
| Hosting.EntriesSnoc | DeterministicNetcode/Net/NetHost.cs:106-117 | writing one more peer's entry in directory order extends the roster by exactly that entry |
| Hosting.ParseEntries | DeterministicNetcode/Net/NetHost.cs:130-138 | reference reader with no source counterpart (no code reads AddPeers packets): the inverse that `Hosting.ParseEntriesOf` checks `Hosting.Entries` against |
| Hosting.ParseRoster | DeterministicNetcode/Net/NetHost.cs:99-138 | reference reader with no source counterpart: the inverse that `Hosting.RosterRoundTrip` checks `Hosting.RosterPacket` against |
| Hosting.ParseEntriesCons | DeterministicNetcode/Net/NetHost.cs:130-138 | an entry shorter than 256 characters is read back as its ASCII bytes, and reading then continues right after it |
| Hosting.Texts | DeterministicNetcode/Net/NetHost.cs:130-136 | the roster's expected content: each peer's ASCII text, in directory order |
| Hosting.ParseEntriesOf | DeterministicNetcode/Net/NetHost.cs:106-138 | any number of entries whose texts are shorter than 256 characters read back as their texts, in order, whatever follows them |
| Hosting.RosterRoundTrip | DeterministicNetcode/Net/NetHost.cs:99-138 | a roster packet of fewer than 256 peers whose texts are shorter than 256 characters reads back as the directory's texts, in directory order |
| Hosting.SlotEntriesOfDirectory | DeterministicNetcode/Net/NetHost.cs:106-128 | the foreach over all slots of `Peers` gets past an empty slot only when every slot is filled, and then it yields the directory's entries |
| Hosting.RosterLostBelowFullDirectory | DeterministicNetcode/Net/NetHost.cs:106-114 | in a one-peer lobby the roster to announce has an entry, but the foreach over the slots stops at the first empty slot and yields no roster |
| Hosting.NetHost.constructor | DeterministicNetcode/Net/NetHost.cs:14-18 | a fresh messenger with an empty directory; the phase is InLobby and the cached endpoint is `Any:0` |
| Hosting.NetHost.Poll | DeterministicNetcode/Net/NetHost.cs:15-90 | the phase is never reassigned; in the lobby the poll does what the lobby does, and in the other phases it changes nothing |
| Hosting.NetHost.PollInLobby | DeterministicNetcode/Net/NetHost.cs:38-64 | the new directory, the sends and the buffer are those of `LobbyDirectory`, `LobbyReplies` and `LobbyBuffer`, so the acknowledgement is sent before the append; an empty receive changes nothing |
| Hosting.NetHost.SendMessageToAll | DeterministicNetcode/Net/NetHost.cs:92-97 | writes `[Message, ASCII message]` and sends those `message.Length + 1` bytes to every peer |
| Hosting.NetHost.WritePeerToBuffer | DeterministicNetcode/Net/NetHost.cs:122-139 | an empty slot writes nothing and returns 0; an endpoint's length byte and ASCII text are written at `offset`, and the entry length is returned |
| Hosting.NetHost.WriteRosterHeader | DeterministicNetcode/Net/NetHost.cs:101-102 | helper: writes `[AddPeers, PeerCount as a byte]` at the front of the buffer, leaves the rest unchanged and returns offset 2 |
| Hosting.NetHost.SendAddPeersToAll | DeterministicNetcode/Net/NetHost.cs:99-120 | as written: the buffer's front becomes `[AddPeers, PeerCount, entries in directory order]`; the roster is broadcast only when all MaxPeers slots are filled, and below that nothing is sent |
| Hosting.NetHost.SendRosterToAll | DeterministicNetcode/Net/NetHost.cs:99-120 | as evidently intended: the same packet, `2 + Σ(len_i + 1)` bytes long, is laid out and sent to every directory peer, whatever the number of peers |
| Peering.NextPhase | DeterministicNetcode/Net/NetPeer.cs:41-53 | the phase moves only forward, and it moves, to StartingGame, exactly when the peer is in the lobby and the datagram is an Acknowledge(Hello), whoever sent it |
| Peering.PhaseAfterLobby | DeterministicNetcode/Net/NetPeer.cs:12-62 | from the lobby, over any sequence of receives, a peer never reaches InGame, and it is in StartingGame exactly when some datagram acknowledged its Hello |
| Peering.StartingGameStays | DeterministicNetcode/Net/NetPeer.cs:55-57 | once in StartingGame, no datagram moves the peer |
| Peering.NetPeer.constructor | DeterministicNetcode/Net/NetPeer.cs:10-21 | the directory holds exactly the host, in slot 0, the phase is InLobby and nothing has been sent |
| Peering.NetPeer.Poll | DeterministicNetcode/Net/NetPeer.cs:23-62 | the new phase is `NextPhase`; in the lobby one Hello goes to the host before the receive, and in the other phases nothing is sent or changed |
| Peering.NetPeer.PollInLobby | DeterministicNetcode/Net/NetPeer.cs:41-53 | every lobby poll sends a 1-byte Hello to the host whatever arrives, then moves to StartingGame exactly when the received bytes acknowledge Hello; an empty receive keeps the phase |
| Peering.NetPeer.SendHelloToHost | DeterministicNetcode/Net/NetPeer.cs:64-68 | the 1-byte Hello is written and sent to the host only |
| Simulation.Sign | DeterministicNetcode/DeterministicGame.cs:30-31 | `Math.Sign`: -1, 0 or 1, zero exactly for 0 and 1 exactly for positive values |
| Simulation.IsColliding | DeterministicNetcode/DeterministicGame.cs:47-50 | definition only: the strict overlap test on both axes, with C#'s wrapping `int` additions; characterised by `Simulation.IsCollidingSymmetric` and `Simulation.IsCollidingMeansOverlap` |
| Simulation.IsCollidingSymmetric | DeterministicNetcode/DeterministicGame.cs:47-50 | the collision test gives the same answer with the two boxes swapped |
| Simulation.IsCollidingMeansOverlap | DeterministicNetcode/DeterministicGame.cs:47-50 | for boxes of positive size whose edges fit the int range, the test holds exactly when the boxes share a point |
| Simulation.HitsWall | DeterministicNetcode/DeterministicGame.cs:33-34 | definition only: a 64x64 player box at the point collides with the wall; `Simulation.ClearIsDisjoint` states what being clear of it means |
| Simulation.MovePlayer | DeterministicNetcode/DeterministicGame.cs:30-43 | definition only: the X move unless it hits the wall, then the Y move from the new X unless that hits it; characterised by `Simulation.MovePlayerDisplacement`, `Simulation.MovePlayerStaysClear` and `Simulation.StepPlayer` |
| Simulation.MovePlayerDisplacement | DeterministicNetcode/DeterministicGame.cs:9-43 | per step, X stays or moves by `sign(AxisX) * 2`, and Y stays or moves by `sign(AxisY) * 2` (wrapping); a zero axis keeps its coordinate, and a player left of and above the origin, away from the int range's edge, always takes its whole move |
| Simulation.MovePlayerStaysClear | DeterministicNetcode/DeterministicGame.cs:33-43 | a player clear of the wall before a step is clear of it after |
| Simulation.StepAll | DeterministicNetcode/DeterministicGame.cs:25-44 | a step keeps the number of players |
| Simulation.RunStaysClear | DeterministicNetcode/DeterministicGame.cs:23-45 | a player that starts clear of the wall stays clear, over any inputs |
| Simulation.ClearIsDisjoint | DeterministicNetcode/DeterministicGame.cs:33-50 | a clear player whose box fits the int range shares no point with the wall |
| Simulation.StepPlayer | DeterministicNetcode/DeterministicGame.cs:27-43 | the move of one player decides X first and tests Y from the updated X; the result is that player's `MovePlayer` |
| Simulation.DeterministicGame.constructor | DeterministicNetcode/DeterministicGame.cs:18-21 | `playerCount` players, all at (0, 0) and so clear of the wall |
| Simulation.DeterministicGame.DeterministicStep | DeterministicNetcode/DeterministicGame.cs:23-45 | player `i` moves by `inputStates[i]` alone, given at least as many inputs as players; the wall, a constant, never changes, and every player stays clear of it |
| Collections.Accumulate | DeterministicNetcode/ArrayList.cs:10 | the setter adds the value to the stored count with wrapping; assigning 0 keeps the count |
| Collections.CountAfterAdd | DeterministicNetcode/ArrayList.cs:10-38 | `Add` from count `c` leaves `2c + 1` while that fits an int |
| Collections.CountAfterAddsIsPow2MinusOne | DeterministicNetcode/ArrayList.cs:10-39 | after `k` Adds to a fresh list, up to 31 of them, the count is `2^k - 1` |
| Collections.GrowthLoopEnds | DeterministicNetcode/ArrayList.cs:11-44 | `while (count >= Length) Expand();` ends after some number of expansions exactly when the count is already below the length or the chunk size is positive |
| Collections.ArrayList.constructor | DeterministicNetcode/ArrayList.cs:21-25 | array length `chunkSize` and count 0, for any chunk size `new T[]` accepts, 0 included |
| Collections.ArrayList.Default | DeterministicNetcode/ArrayList.cs:21-25 | the constructor with its default argument: chunk size and array length 1024, count 0 |
| Collections.ArrayList.Get | DeterministicNetcode/ArrayList.cs:27-29 | the indexer get returns the element stored at that index |
| Collections.ArrayList.Set | DeterministicNetcode/ArrayList.cs:27-30 | the indexer set changes only that index |
| Collections.ArrayList.Expand | DeterministicNetcode/ArrayList.cs:41-44 | a fresh array exactly `chunkSize` longer, holding the old elements in front |
| Collections.ArrayList.SetCount | DeterministicNetcode/ArrayList.cs:8-12 | the count becomes the accumulated sum, then the array grows until the count is below its length; the elements are kept, and the array grows only while needed. With chunk size 0 and the count at or past the length the loop never ends, reported as `hangs` |
| Collections.ArrayList.Add | DeterministicNetcode/ArrayList.cs:33-39 | with chunk size 0 the growth loop never ends (`hangs`) and nothing changes; otherwise the element goes to index old `Count`, the other indices keep their elements and the count becomes `CountAfterAdd(old Count)`; a replaced array is freshly allocated, so Adds compose |
| Collections.ArrayList.Clear | DeterministicNetcode/ArrayList.cs:46-49 | `Count = 0` adds nothing, so the count, the array and its elements are unchanged; the setter's loop hangs exactly when the chunk size is 0 and the count is not below the length |
| Collections.NewArrayList | DeterministicNetcode/ArrayList.cs:21-25 | as evidently intended: a list is made exactly when the chunk size is positive, and it is valid, empty and has `chunkSize` slots |
| Lockstep.AfterLobby | DeterministicNetcode/Game1.cs:151-167 | the lobby screen goes to InGame exactly when the net peer reports InGame, and to StartingGame exactly when it does not and the host pressed space |
| Lockstep.AfterStartingGame | DeterministicNetcode/Game1.cs:169-177 | the starting screen goes to InGame exactly when the net peer reports InGame |
| Lockstep.AfterTick | DeterministicNetcode/Game1.cs:84-100 | the frame's dispatch never returns to the main menu and never leaves the game screen |
| Lockstep.InGameStays | DeterministicNetcode/Game1.cs:84-224 | once on the game screen, every later frame keeps it there |
| Lockstep.ScreenAfterHandOff | DeterministicNetcode/Game1.cs:151-177 | from the lobby or starting screen, the game screen is reached exactly when some frame's poll reported InGame |
| Lockstep.ClientNeverEntersGame | DeterministicNetcode/Game1.cs:151-177 | a joining peer's Game1, whose net peer reports the NetPeer phase, never reaches the game screen |
| Lockstep.AxisOf | DeterministicNetcode/Game1.cs:193-199 | an axis is in {-1, 0, 1}: -1 exactly for the negative key alone and 1 exactly for the positive key alone |
| Lockstep.Trimmed | DeterministicNetcode/Game1.cs:204 | the trim keeps the newest `min(n, 2)` records, in order, dropping the oldest |
| Lockstep.TrimmedDropsOldest | DeterministicNetcode/Game1.cs:204 | removing index 0 from an over-long list does not change what the trim keeps |
| Lockstep.SuffixInherits | DeterministicNetcode/Game1.cs:204 | the trim keeps the step order and the axis range |
| Lockstep.Buffered | DeterministicNetcode/Game1.cs:191-202 | definition only: the record is appended when the list is empty or its last step is before `_stepCount`; characterised by `Lockstep.BufferedAppendsOnlyWhenBehind` and `Lockstep.BufferedKeepsOrder` |
| Lockstep.Window | DeterministicNetcode/Game1.cs:191-204 | definition only: the append, then the trim to the newest two records; characterised by `Lockstep.WindowKeepsOrder` and `Lockstep.WindowEndsAtStep` |
| Lockstep.BufferedAppendsOnlyWhenBehind | DeterministicNetcode/Game1.cs:191-202 | the append happens exactly when the list is empty or its last step is before `_stepCount`; it adds one record for `_stepCount` and otherwise changes nothing |
| Lockstep.BufferedKeepsOrder | DeterministicNetcode/Game1.cs:191-202 | the append keeps the step indexes strictly increasing and the axes in range |
| Lockstep.WindowKeepsOrder | DeterministicNetcode/Game1.cs:191-204 | after a frame the window holds 1 or 2 records, with strictly increasing steps and axes in {-1, 0, 1} |
| Lockstep.SuffixBehind | DeterministicNetcode/Game1.cs:204 | the trim keeps no record ahead of the step count |
| Lockstep.WindowEndsAtStep | DeterministicNetcode/Game1.cs:191-204 | when no record was ahead of `_stepCount`, none is after the frame, and the newest one is for `_stepCount` |
| Lockstep.BufferLocalInput | DeterministicNetcode/Game1.cs:191-204 | the append and the `RemoveAt(0)` loop produce the window, the trimmed append |
| Lockstep.StepInputs | DeterministicNetcode/Game1.cs:210-215 | the step's inputs are peer `i`'s record at `i < PeerCount` and the local record at `PeerCount` |
| Lockstep.Origins | DeterministicNetcode/Game1.cs:183-185 | a fresh game's `PeerCount + 1` players, all at the origin |
| Lockstep.Game1.constructor | DeterministicNetcode/Game1.cs:40-47 | in the lobby, with no step taken, an empty window and no game |
| Lockstep.Game1.UpdateLobby | DeterministicNetcode/Game1.cs:151-167 | goes to InGame when the poll reports InGame, and otherwise to StartingGame when the host presses space |
| Lockstep.Game1.UpdateStartingGame | DeterministicNetcode/Game1.cs:169-177 | goes to InGame exactly when the poll reports InGame |
| Lockstep.Game1.EnsureGame | DeterministicNetcode/Game1.cs:181-186 | on the first game frame, creates `PeerCount + 1` players at the origin and an input array as long, every element the all-zero record; after that, keeps both |
| Lockstep.Game1.UpdateWindow | DeterministicNetcode/Game1.cs:191-204 | the window after the arrow keys' append and the trim; it stays valid, is never empty, and its newest record is for `_stepCount` |
| Lockstep.Game1.SendLocalInput | DeterministicNetcode/Game1.cs:191-206 | the updated window is laid out as an InputState packet and sent to every peer |
| Lockstep.Game1.FillInputStates | DeterministicNetcode/Game1.cs:210-215 | the step input array holds `PeerInputStates[i]` at `i < PeerCount` and the newest local record at `PeerCount` |
| Lockstep.Game1.Step | DeterministicNetcode/Game1.cs:210-222 | every player moves by its own input, all peer slots are cleared, and the step count goes up by one (wrapping) |
| Lockstep.Game1.TryStep | DeterministicNetcode/Game1.cs:208-223 | the step is taken exactly when the timer has elapsed and every peer slot is filled; otherwise the step count, the positions, the step input array and the peer slots are unchanged |
| Lockstep.Game1.UpdateInGame | DeterministicNetcode/Game1.cs:179-224 | one in-game frame creates the game if needed and buffers and broadcasts the window. It steps only past the barrier, with peer inputs first and the local input last, and the step it takes uses a local record for the step just taken. Without a step, the step count, the positions and the slots are unchanged, and the step input array is all-zero on the first frame and unchanged after. On the first frame the game, its position array and the input array are freshly allocated, so frames compose |

## Left out

- Socket I/O:
  - the `UdpClient` construction, bind and `Dispose`;
  - `SendTo`, `ReceiveFrom` and `Available`;
  - the DNS lookup of `CreateIpEndPoint`.

  Sends are a log and a receive is a parameter. The peer's host endpoint is a
  constructor parameter.
- A receive returns at most one datagram per poll, the one handed in. Only one
  datagram is handled per poll in the code too. Datagrams longer than the
  1024-byte buffer are excluded by a precondition.
- `IPEndPoint.ToString` and `Equals`. An endpoint is a datatype with structural
  equality, and its text is a function parameter.
- Characters outside the Basic Multilingual Plane. A Dafny `char` is one code point,
  so astral characters and surrogate pairs are not modelled.
- MonoGame: `LoadContent`, `Draw`, the window title, `Exit` and the keyboard and
  gamepad reads. The arrow keys are booleans.
- `UpdateMainMenu` and its console prompts. `Game1`'s constructor starts in the
  lobby with the chosen peer's messenger and its host flag.
- The `_stepTimer` double arithmetic. It is one boolean, "a step time has elapsed".
- `Game1` calls `INetPeer.Poll(int)`, `State` and `Messenger`, which neither
  `NetHost` nor `NetPeer` implements. The phase a poll reports is a parameter of
  the lobby updates. The in-game poll at `Game1.cs:188` is not modelled, since both
  classes' `PollInGame` are empty. The messenger's input slots are whatever the earlier
  calls left.
- `NetHost.BeginStartingGame`, called at `Game1.cs:164`, does not exist. Its call is
  left out, and only the screen change is modelled.
- The roster retry loop and the timeout flow described in the `NetState.cs` comment.
  Neither exists in the code. The host's `PollStartingGame` is empty.
- The commented-out chat handling in `NetHost.PollInGame`.
- Console logging.
- The `chunkSize = 1024` default argument is the separate constructor
  `Collections.ArrayList.Default`.
- Collections.ArrayList.constructor: requires a chunk size of at least 0. `new T[n]`
  throws for a negative length, and the model does not model the exception.
- Collections.ArrayList.Expand: `_array.Length + _chunkSize` is unchecked C# `int`
  addition, and a .NET array holds at most about 2^31 elements. The model's array
  lengths are unbounded, so neither the overflow nor that limit is modelled.
  `Collections.CountAfterAddsIsPow2MinusOne` goes up to 31 Adds, and the 31st needs
  an array longer than .NET allows.
- `Array.Resize` fills new slots with `default(T)`. The model's expanded array holds
  the old elements in front, and its new slots are unspecified.
- The model splits some source methods into helper methods, which have no source
  counterpart of their own:
  - `NetMessenger.SendInputState` into `WriteInputStateHeader` and
    `WriteInputStatePacket`;
  - the roster header into `NetHost.WriteRosterHeader`;
  - `Game1.UpdateInGame` into `EnsureGame`, `UpdateWindow`, `SendLocalInput`,
    `FillInputStates`, `Step` and `TryStep`. `UpdateWindow` calls
    the module-level `BufferLocalInput`.
- Collections.ArrayList.Get and Collections.ArrayList.Set: require `0 <= i < Length`.
  Outside that range the C# indexer throws `IndexOutOfRangeException`, and the model
  does not model the exception.
- Collections.ArrayList.Add: requires a non-negative count. C# throws on the negative
  index that a wrapped count would give, and the model does not model the exception.
- Lockstep.Game1.UpdateInGame: the claim that the newest local record is for the
  current step is made only while fewer than 2^31 steps have been taken. After that,
  `_stepCount` has wrapped and the source gives no such guarantee.
- Lockstep.Game1.UpdateWindow: as above, the newest record is tied to `_stepCount`
  only before the step count wraps.
- Messaging.NetMessenger.AddPeer: the `ArgumentException` a full directory raises is
  modelled as the result `ok == false`, with nothing changed.
- Messaging.NetMessenger.HandleInputState: requires the records the scan reads, up to
  and including the first one for the awaited step, to lie inside the buffer
  (`Messaging.ScanFits`). A count byte that sends the scan past the end before a match
  makes `FromBytes` throw `ArgumentOutOfRangeException` from its `Span` constructor.
  That exception is not modelled.
- Hosting.NetHost.SendAddPeersToAll: requires the roster to fit the buffer. The span
  at `NetHost.cs:135` is always in range. Past the end, the length byte's
  `Buffer[offset]` write at `NetHost.cs:132` throws `IndexOutOfRangeException`, or
  `Encoding.ASCII.GetBytes` throws `ArgumentException` when the text does not fit. Entry lengths of 256 or more wrap
  in the length byte, as `(byte)` does, but the round trip is claimed only below 256.
- Hosting.NetHost.SendMessageToAll: requires the message to fit the buffer.

## Findings

| source | as written | input that shows it | evidently intended | confidence | as-written member | corrected member |
|---|---|---|---|---|---|---|
| DeterministicNetcode/Net/NetHost.cs:106-114 | the roster loop visits every one of the `MaxPeers` slots of the fixed `Peers` array. An unused slot is null, so `WritePeerToBuffer` returns 0 and the method returns without sending | a lobby with one admitted peer `p`: slots `[p, null, null]` | send the roster of the `PeerCount` admitted peers to each of them, as a loop over a list of peers would | not executed | Hosting.NetHost.SendAddPeersToAll, Hosting.RosterLostBelowFullDirectory | Hosting.NetHost.SendRosterToAll |
| DeterministicNetcode/ArrayList.cs:21-44 | the constructor accepts a chunk size of 0. `Expand` then adds 0 to the length, so `Add`, and the `Count` setter on a non-negative count, loop forever | `new ArrayList<T>(0)`, then `Add(x)` | refuse a chunk size that is not positive | not executed | Collections.ArrayList.Add, Collections.GrowthLoopEnds | Collections.NewArrayList |
