# Laser-tag Android client: a Dafny model of its protocol and match logic

The laser-tag client runs on a phone. It talks to a game server over UDP
datagrams and to two Bluetooth devices, the gun and the vest, over a serial
link. It keeps the match state that the activity displays. Two generations of
the client live side by side in the repository, and this project models each
one on its own:

- **Current generation**: `GameService`, `BluetoothClient`, `UdpClient`,
  `Messaging` and the message classes of `WirelessMessage.kt`.
- **Legacy generation**: `NetworkService`, `BluetoothComm` and `UdpMessages`.

The model covers four kinds of logic:

1. **Binary wire codec.**
   - The two decoders (`Messaging.fromBytes`, `UdpMessages.fromBytes`) are
     methods that walk a `ByteBuffer` cursor and fill the roster in a loop.
   - Each decoder is proved equal to a specification function (`Decode`)
     over signed Java bytes (`JByte`, -128..127).
   - Lemmas state each variant's layout, the failures on truncated or
     negative-count input, and that unknown type bytes are accepted.
   - Round trips are proved against reference encoders of the server's
     packets.
   - The outbound `getBytes` layouts are functions, together with the
     narrowing `Player`-based constructor of `EventMessageToServer`.
2. **Serial-link framing.**
   - `Scan` states what a byte stream splits into at the terminator 125.
   - Both Bluetooth clients are classes. Their read loops are proved to
     stay in step with `Scan`: they forward two-byte events, answer pings
     and drop every other frame.
   - The missing escaping is proved to split a payload that holds 125.
   - Connecting, failing a read and stopping are state transitions of the
     class.
3. **Datagram liveness.**
   - `UdpClient` and the legacy service hold the online flag, the
     last-ping time, the first-message flag and a server address that is
     set once.
   - The clock and the socket outcomes are parameters.
   - The receive loops are proved against fold functions over the
     datagrams that arrive.
4. **Match state engine.**
   - `GameService` and `NetworkService` are classes whose methods each take
     one event.
   - The aggregate state OFFLINE/IDLE/GAME/DEAD, both countdowns, the
     roster merge and sort, and the device and server event rules are all
     stated.
   - Scheduled respawns are recorded as pending delays.

Some `Player` members are called by the engine, but their bodies are not in
the current source: `respawn`, `reload`, `decreaseBullets`,
`decreaseHealth`, `isAlive`, `copyPlayerValuesFrom`, `compareTo` and
`equals`. The engine receives them as the uninterpreted functions of
`Rosters.PlayerOps`, and no property depends on what they compute unless
its `requires` says so.

Where the project's design description and the code disagree, the model
follows the code:

- **UDP heartbeat timeout.** The current UDP client reports the lost
  connection on every heartbeat tick past the timeout, not once per
  transition.
- **Snapshot message type.** `GameService` switches on
  `PLAYER_VALUES_SNAPSHOT`, which the shown `Messaging` does not define.
  It is read as the snapshot type FULL_STATS (11).
- **Lost-connection signal.** `UdpClient` emits
  `PingMessage(UdpMessages.LOST_CONNECTION)`, which is taken as the
  signal `SignalMessage(SERVER_DISCONNECTED)` (102).
- **Decoder used by `UdpClient`.** `UdpClient` calls
  `UdpMessages.fromBytes`, but its handler takes the current generation's
  messages. It is modelled with the current decoder, `Messaging.Decode`.
- **Legacy snapshot fields.** The legacy `NetworkService` reads running,
  team-play and team fields from a `StatsMessage` that the shown legacy
  decoder does not produce. Its engine therefore takes its own message
  view (`ServerEvent`). `EventView` and `DecodedEventsCast` connect that
  view to the decoder for every other type.
- **Legacy timer type.** `NetworkService` switches on
  `UdpMessages.GAME_TIMER`, which the shown `UdpMessages` does not define:
  its constants stop at 12. It is taken as the current generation's
  GAME_TIMER (101).

## Model

| member | source | states |
|---|---|---|
| JavaBytes.ToByte | app/src/main/java/net/lasertag/model/WirelessMessage.kt:69 | the narrowing cast lands in byte range and is congruent to its argument modulo 256 |
| JavaBytes.ToByteOfByte | app/src/main/java/net/lasertag/model/WirelessMessage.kt:69 | a value already in byte range passes the cast unchanged |
| JavaBytes.ShortLE | app/src/main/java/net/lasertag/model/Messaging.java:65 | `getShort` in little-endian order is a signed 16-bit value congruent to low byte + 256 × high byte (both unsigned) |
| JavaBytes.IntegerCompare | app/src/main/java/net/lasertag/model/UdpMessages.java:48 | the comparison's sign is negative, zero or positive exactly when x is below, equal to or above y |
| BondedDevices.FindByName | app/src/main/java/net/lasertag/communication/BluetoothClient.java:100-107 | a device is found iff some bonded device carries the configured name, and the one found carries it |
| BondedDevices.FindByNameFirst | app/src/main/java/net/lasertag/communication/BluetoothClient.java:101-106 | the search stops at the first device with the name |
| BondedDevices.SearchBonded | app/src/main/java/net/lasertag/BluetoothComm.java:98-106 | the for-each with `break` returns the first device with the name, or none |
| Liveness.DestinationFor | app/src/main/java/net/lasertag/communication/UdpClient.java:61 | packets go to broadcast iff no server address is known, otherwise to that address |
| Liveness.HeartbeatPacket | app/src/main/java/net/lasertag/communication/UdpClient.java:77 | the heartbeat is three bytes: PING, the player id, then 1 iff it is the first message and 0 otherwise |
| Liveness.FirstHeartbeats | app/src/main/java/net/lasertag/communication/UdpClient.java:77-81 | the count of heartbeats that announce a fresh start is bounded by the log and is zero iff no datagram is one |
| Liveness.FirstHeartbeatsAppend | app/src/main/java/net/lasertag/communication/UdpClient.java:80-81 | sending one datagram raises that count by one exactly when the datagram is a first heartbeat |
| Liveness.FirstHeartbeatsSince | app/src/main/java/net/lasertag/communication/UdpClient.java:80-81 | the same holds for the datagrams sent since any earlier point |
| WirelessMessages.GetBytes | app/src/main/java/net/lasertag/model/WirelessMessage.kt:8-10 | every encoding starts with the type byte; the two outbound packets take 6 and 5 bytes, and every other message encodes as its type byte alone |
| WirelessMessages.EventToServer | app/src/main/java/net/lasertag/model/WirelessMessage.kt:65-69 | the Player-based constructor keeps only the low 8 bits of id, otherPlayerId, health, score and bulletsLeft |
| WirelessMessages.EventToServerLayout | app/src/main/java/net/lasertag/model/WirelessMessage.kt:62-64 | an event to the server is exactly type, playerId, otherPlayerId, health, score, bulletsLeft; an in-range score reaches the wire unchanged |
| WirelessMessages.EventToServerTruncates | app/src/main/java/net/lasertag/model/WirelessMessage.kt:69 | scores that differ by 256 give the same packet |
| WirelessMessages.MessageToDeviceLayout | app/src/main/java/net/lasertag/model/WirelessMessage.kt:79-81 | the device state packet is exactly type, playerId, playerTeam, playerState, bulletsLeft |
| WirelessMessages.PayloadNotEncoded | app/src/main/java/net/lasertag/model/WirelessMessage.kt:27-52 | time, event, game-start, stats and signal messages of the same type encode identically, whatever their fields |
| Messaging.PlayersAt | app/src/main/java/net/lasertag/model/Messaging.java:68-80 | a successful roster parse yields exactly `count` players and ends at or after its start, and inside the packet when it read any |
| Messaging.FromBytes | app/src/main/java/net/lasertag/model/Messaging.java:28-43 | the cursor-based decoder gives exactly `Decode` of the first `length` bytes, including its failures |
| Messaging.ParseEventFromServer | app/src/main/java/net/lasertag/model/Messaging.java:45-48 | reads one byte as the payload, or underflows |
| Messaging.ParseGameStartEventFromServer | app/src/main/java/net/lasertag/model/Messaging.java:50-56 | reads exactly four bytes into the game-start fields, or underflows |
| Messaging.ParseTimeMessage | app/src/main/java/net/lasertag/model/Messaging.java:84-88 | reads minutes then seconds, or underflows |
| Messaging.ParseFullStatsMessage | app/src/main/java/net/lasertag/model/Messaging.java:62-82 | the header reads, the negative-count guard and the player loop give exactly the FULL_STATS body's meaning |
| Messaging.ParsePlayer | app/src/main/java/net/lasertag/model/Messaging.java:69-79 | one loop pass reads seven header bytes and the name; it fails with the same error as the specification and otherwise leaves the cursor where the specification ends |
| Messaging.ParseMessageFromDevice | app/src/main/java/net/lasertag/model/Messaging.java:58-60 | a device frame becomes an event whose type and payload are its first two bytes, and nothing after them is read |
| MessagingProperties.DecodePing | app/src/main/java/net/lasertag/model/Messaging.java:32-33 | type 1 decodes to `SignalMessage(PING)` whatever follows it |
| MessagingProperties.PingRoundTrip | app/src/main/java/net/lasertag/model/WirelessMessage.kt:23-25 | `SignalMessage()` encodes as `[1]` and decodes back to itself |
| MessagingProperties.DecodeGameStart | app/src/main/java/net/lasertag/model/Messaging.java:50-56 | type 8 reads exactly four bytes: teamPlay iff the first is non-zero, then the next three sign-extended; fewer bytes underflow |
| MessagingProperties.DecodeTime | app/src/main/java/net/lasertag/model/Messaging.java:84-88 | type 101 is minutes then seconds; fewer than two bytes underflow |
| MessagingProperties.DecodeOtherTypes | app/src/main/java/net/lasertag/model/Messaging.java:40-48 | every other type byte decodes to `EventMessageIn(type, next byte)`, or underflows without one |
| MessagingProperties.UnknownTypeAccepted | app/src/main/java/net/lasertag/model/Messaging.java:40-42 | a type byte that no constant names (77) is accepted as an event |
| MessagingProperties.TimeMessageHasNoRoundTrip | app/src/main/java/net/lasertag/model/WirelessMessage.kt:8-10 | a time message encodes as its type byte alone, so its own encoding does not decode |
| MessagingProperties.NegativeCountFails | app/src/main/java/net/lasertag/model/Messaging.java:66-67 | a negative player count makes the array allocation fail |
| MessagingProperties.DecodeWellTyped | app/src/main/java/net/lasertag/model/Messaging.java:32-42 | a decoded message is a GameStartMessageIn iff its type is 8, and a StatsMessageIn iff its type is 11, so the engine's casts succeed |
| MessagingProperties.PlayerAtExtended | app/src/main/java/net/lasertag/model/Messaging.java:69-79 | a roster entry that parses parses the same with bytes appended |
| MessagingProperties.PlayersAtExtended | app/src/main/java/net/lasertag/model/Messaging.java:68-80 | a roster run that parses parses the same with bytes appended |
| MessagingProperties.DecodeIgnoresTrailing | app/src/main/java/net/lasertag/model/Messaging.java:28-29 | a packet that decodes gives the same message whatever bytes follow: only the bytes the variant needs are read |
| MessagingProperties.EncodePlayer | app/src/main/java/net/lasertag/model/Messaging.java:69-77 | the server's encoding of an entry takes seven header bytes plus the name |
| MessagingProperties.StatsLayout | app/src/main/java/net/lasertag/model/Messaging.java:63-66 | a FULL_STATS packet is the type, the two flags, the timer's low then high byte, the count, then the entries |
| MessagingProperties.ShortRoundTrip | app/src/main/java/net/lasertag/model/Messaging.java:65 | any 16-bit timer sent low byte first is read back by `getShort` |
| MessagingProperties.EncodedPlayerAt | app/src/main/java/net/lasertag/model/Messaging.java:69-79 | an encoded entry parses back to itself wherever it sits, ending where its encoding ends |
| MessagingProperties.LaidOutParses | app/src/main/java/net/lasertag/model/Messaging.java:68-80 | entries that each parse where the previous one ends parse as one run, in wire order |
| MessagingProperties.EncodedLaidOut | app/src/main/java/net/lasertag/model/Messaging.java:68-80 | an encoded run of entries is laid out entry after entry |
| MessagingProperties.StatsPacketDecodes | app/src/main/java/net/lasertag/model/Messaging.java:62-82 | a packet laid out as FULL_STATS decodes to its flags, timer and players in wire order |
| MessagingProperties.StatsRoundTrip | app/src/main/java/net/lasertag/model/Messaging.java:62-82 | decoding the encoding of a snapshot gives the snapshot back |
| MessagingProperties.CutPlayerFails | app/src/main/java/net/lasertag/model/Messaging.java:69-77 | an encoded entry cut anywhere before its end underflows |
| MessagingProperties.TruncatedPlayersFail | app/src/main/java/net/lasertag/model/Messaging.java:68-80 | an encoded run cut anywhere before its end underflows |
| MessagingProperties.TruncatedStatsFails | app/src/main/java/net/lasertag/model/Messaging.java:62-82 | every proper prefix of a FULL_STATS packet underflows |
| UdpMessages.PlayersAt | app/src/main/java/net/lasertag/model/UdpMessages.java:38-47 | a successful roster parse yields exactly `count` players and ends at or after its start, and inside the packet when it read any |
| UdpMessages.FromBytes | app/src/main/java/net/lasertag/model/UdpMessages.java:22-33 | the cursor-based legacy decoder gives exactly `Decode` of the first `length` bytes |
| UdpMessages.ParseEventMessage | app/src/main/java/net/lasertag/model/UdpMessages.java:52-58 | reads counterpart id, health, score and bullets, or underflows |
| UdpMessages.ParseFullStatsMessage | app/src/main/java/net/lasertag/model/UdpMessages.java:35-50 | count, array, player loop and in-place sort give exactly the legacy FULL_STATS meaning |
| UdpMessages.ReadPlayers | app/src/main/java/net/lasertag/model/UdpMessages.java:38-47 | the loop fills the array with the parsed players and leaves the cursor after them, or fails with the specification's error |
| UdpMessages.SortInPlace | app/src/main/java/net/lasertag/model/UdpMessages.java:48 | `Arrays.sort` leaves the array holding the stable sort by descending score of what it held |
| UdpMessages.ParsePlayer | app/src/main/java/net/lasertag/model/UdpMessages.java:39-46 | one loop pass reads id, health, score, name length and the name, agreeing with the specification on success and on the error |
| UdpMessagesProperties.DecodeAck | app/src/main/java/net/lasertag/model/UdpMessages.java:26-27 | type 1 decodes to `AckMessage(PING)` whatever follows it |
| UdpMessagesProperties.DecodeEvent | app/src/main/java/net/lasertag/model/UdpMessages.java:52-58 | every type but PING and FULL_STATS, unknown ones included, reads exactly four bytes as an event; fewer underflow |
| UdpMessagesProperties.WithScore | app/src/main/java/net/lasertag/model/UdpMessages.java:48 | selecting the players of one score keeps only players with that score |
| UdpMessagesProperties.ScoreDescendingIsPreorder | app/src/main/java/net/lasertag/model/UdpMessages.java:48 | the comparator flips sign when its arguments swap and "precedes or ties" is transitive |
| UdpMessagesProperties.HeadScoreIsMax | app/src/main/java/net/lasertag/model/UdpMessages.java:48 | in a sorted roster no player outscores the first |
| UdpMessagesProperties.InsertStable | app/src/main/java/net/lasertag/model/UdpMessages.java:48 | inserting a player into a sorted roster puts it after the players of equal score |
| UdpMessagesProperties.SortByScoreSorted | app/src/main/java/net/lasertag/model/UdpMessages.java:48 | the sorted roster is ordered by the comparator |
| UdpMessagesProperties.SortIsStable | app/src/main/java/net/lasertag/model/UdpMessages.java:48 | players of equal score keep their wire order |
| UdpMessagesProperties.SortByScoreSpec | app/src/main/java/net/lasertag/model/UdpMessages.java:48 | the sorted roster has non-increasing scores, is a permutation of the wire roster and is stable |
| UdpMessagesProperties.SortedRosterUnchanged | app/src/main/java/net/lasertag/model/UdpMessages.java:48 | a roster already in descending score order is returned as it is |
| UdpMessagesProperties.DecodeStats | app/src/main/java/net/lasertag/model/UdpMessages.java:35-50 | a decoded FULL_STATS has `numPlayers` equal to the count byte and holds the parsed players sorted by score |
| UdpMessagesProperties.EncodePlayer | app/src/main/java/net/lasertag/model/UdpMessages.java:39-45 | the legacy server's encoding of an entry takes four header bytes plus the name |
| UdpMessagesProperties.StatsLayout | app/src/main/java/net/lasertag/model/UdpMessages.java:36 | a legacy FULL_STATS packet is the type, the count, then the entries |
| UdpMessagesProperties.EncodedPlayerAt | app/src/main/java/net/lasertag/model/UdpMessages.java:39-46 | an encoded legacy entry parses back to itself wherever it sits |
| UdpMessagesProperties.LaidOutParses | app/src/main/java/net/lasertag/model/UdpMessages.java:38-47 | entries that each parse where the previous one ends parse as one run |
| UdpMessagesProperties.EncodedLaidOut | app/src/main/java/net/lasertag/model/UdpMessages.java:38-47 | an encoded run of legacy entries is laid out entry after entry |
| UdpMessagesProperties.StatsPacketDecodes | app/src/main/java/net/lasertag/model/UdpMessages.java:35-50 | a packet laid out as legacy FULL_STATS decodes to its count and its players sorted by score |
| UdpMessagesProperties.StatsRoundTrip | app/src/main/java/net/lasertag/model/UdpMessages.java:35-50 | decoding an encoded roster gives it back sorted, and unchanged when it was already in score order |
| UdpMessagesProperties.CutPlayerFails | app/src/main/java/net/lasertag/model/UdpMessages.java:39-45 | an encoded legacy entry cut before its end underflows |
| UdpMessagesProperties.TruncatedPlayersFail | app/src/main/java/net/lasertag/model/UdpMessages.java:38-47 | an encoded legacy run cut before its end underflows |
| UdpMessagesProperties.TruncatedStatsFails | app/src/main/java/net/lasertag/model/UdpMessages.java:35-50 | every proper prefix of a legacy FULL_STATS packet underflows |
| Sorting.Insert | app/src/main/java/net/lasertag/model/UdpMessages.java:48 | inserting adds exactly the one element |
| Sorting.InsertionSort | app/src/main/java/net/lasertag/GameService.java:271 | the library sort returns a permutation of its input |
| Sorting.InsertKeepsOrder | app/src/main/java/net/lasertag/model/UdpMessages.java:48 | inserting into an ordered sequence keeps it ordered pair by pair |
| Sorting.SortIsAdjacentSorted | app/src/main/java/net/lasertag/model/UdpMessages.java:48 | with an antisymmetric comparator the sort output is ordered pair by pair |
| Sorting.AdjacentToSorted | app/src/main/java/net/lasertag/model/UdpMessages.java:48 | with a transitive comparator pairwise order is total order |
| Sorting.SortIsSorted | app/src/main/java/net/lasertag/GameService.java:271 | for a total preorder the sort output is sorted and a permutation of the input |
| Sorting.InsertLast | app/src/main/java/net/lasertag/model/UdpMessages.java:48 | an element that nothing precedes goes to the end |
| Sorting.SortOfSorted | app/src/main/java/net/lasertag/model/UdpMessages.java:48 | an already ordered sequence comes back unchanged |
| Rosters.FirstWithId | app/src/main/java/net/lasertag/GameService.java:328-333 | `getPlayerById` finds a player iff one has the id, and the one found has it |
| Rosters.FirstWithIdIsFirst | app/src/main/java/net/lasertag/GameService.java:328-333 | the lookup returns the earliest entry with the id |
| Rosters.UpdateById | app/src/main/java/net/lasertag/GameService.java:264-268 | every entry with the update's id has copied its values, and every other entry is unchanged |
| Rosters.IdsAppend | app/src/main/java/net/lasertag/GameService.java:262 | appending a player adds exactly its id to the roster's ids |
| Rosters.MergeOneById | app/src/main/java/net/lasertag/GameService.java:261-269 | with id-based `equals`, an update for a present id updates in place, and any other update is appended |
| Rosters.MergeOneKeepsIdsUnique | app/src/main/java/net/lasertag/GameService.java:260-270 | with id-based `equals` and an id-keeping copy, one update adds its id and keeps ids unique |
| Rosters.MergeAllKeepsIdsUnique | app/src/main/java/net/lasertag/GameService.java:260-270 | merging a snapshot gives exactly the old ids plus the snapshot's ids, each once if they were unique |
| Rosters.StructuralEqualsDuplicatesIds | app/src/main/java/net/lasertag/GameService.java:261-262 | if `equals` compared every field, a changed entry for a present player would be appended as a second entry with the same id |
| Framing.Scan | app/src/main/java/net/lasertag/communication/BluetoothClient.java:133-140 | the frame being read never holds the terminator |
| Framing.ScanStep | app/src/main/java/net/lasertag/communication/BluetoothClient.java:134-139 | a terminator completes the current frame and starts an empty one; any other byte is appended |
| Framing.Frame | app/src/main/java/net/lasertag/communication/BluetoothClient.java:69-70 | a sent message is its bytes followed by one terminator |
| Framing.ScanNoStop | app/src/main/java/net/lasertag/communication/BluetoothClient.java:134-139 | bytes without a terminator only extend the current frame |
| Framing.FrameRoundTrip | app/src/main/java/net/lasertag/communication/BluetoothClient.java:133-140 | a sent payload without 125 in it is read back as exactly one frame equal to it |
| Framing.FramesRoundTrip | app/src/main/java/net/lasertag/communication/BluetoothClient.java:131-140 | a stream of such payloads is split back into exactly those payloads |
| Framing.ScanExtends | app/src/main/java/net/lasertag/communication/BluetoothClient.java:131-140 | reading more never changes the frames already completed |
| Framing.TerminatorSplitsPayload | app/src/main/java/net/lasertag/communication/BluetoothClient.java:136-137 | with no escaping, a payload holding 125 is cut at its first 125, so it is not read back whole |
| Framing.Sent | app/src/main/java/net/lasertag/communication/BluetoothClient.java:66-79 | what a send leaves on a stream that accepts only some bytes is that prefix of the frame, and the terminator is among them iff the whole frame was taken |
| Framing.PartialWriteMerges | app/src/main/java/net/lasertag/communication/BluetoothClient.java:68-77 | a swallowed write failure leaves a payload prefix without terminator, so the device reads it and the next message as one frame |
| Framing.ReadStart | app/src/main/java/net/lasertag/communication/BluetoothClient.java:130-133 | a terminator-free buffer is in step with the stream when listening starts |
| Framing.ReadStep | app/src/main/java/net/lasertag/communication/BluetoothClient.java:134-149 | one byte read the loop's way keeps the buffer and both logs in step with `Scan` |
| Framing.ReadAllScans | app/src/main/java/net/lasertag/communication/BluetoothClient.java:131-150 | any number of bytes read the loop's way keep the buffer and both logs in step with `Scan` |
| Framing.ReadOneFrame | app/src/main/java/net/lasertag/communication/BluetoothClient.java:133-150 | one whole frame read from a frame boundary is dispatched exactly once |
| Framing.Classify | app/src/main/java/net/lasertag/communication/BluetoothClient.java:141-149 | an empty frame is ignored, one not of length 2 is malformed, a two-byte PING is answered, and any other two-byte frame is forwarded as (type, payload) |
| BluetoothClients.DeviceEventForwarded | app/src/main/java/net/lasertag/communication/BluetoothClient.java:146-148 | a two-byte non-ping frame reaches the handler exactly once as `EventMessageIn(type, payload)` and nothing is written back |
| BluetoothClients.PingAnswered | app/src/main/java/net/lasertag/communication/BluetoothClient.java:144-145 | a ping frame is answered with a framed `SignalMessage` and is not forwarded |
| BluetoothClients.OtherFramesDropped | app/src/main/java/net/lasertag/communication/BluetoothClient.java:141-143 | empty frames and frames not of length 2 are neither forwarded nor answered |
| BluetoothClients.PayloadTerminatorLosesEvent | app/src/main/java/net/lasertag/communication/BluetoothClient.java:69-71 | an event whose payload byte is 125 arrives as a one-byte frame plus an empty frame and is never forwarded |
| BluetoothClients.BluetoothClient.constructor | app/src/main/java/net/lasertag/communication/BluetoothClient.java:45-52 | the client starts running with no device, socket or streams, and the type narrowed to a byte |
| BluetoothClients.BluetoothClient.SendMessageToDevice | app/src/main/java/net/lasertag/communication/BluetoothClient.java:66-79 | nothing is written while the streams are closed; otherwise the stream receives the first bytes of the framed message that it accepts, and the terminator arrives iff the whole frame was taken, the IOException being swallowed |
| BluetoothClients.BluetoothClient.ConnectAttempt | app/src/main/java/net/lasertag/communication/BluetoothClient.java:81-86 | a connect succeeds iff the adapter is on, a device is known or found and the socket connects; success announces DEVICE_CONNECTED and starts listening |
| BluetoothClients.BluetoothClient.ConnectToBluetoothDevice | app/src/main/java/net/lasertag/communication/BluetoothClient.java:94-126 | the bonded device is cached once found and never searched for again; the socket and streams follow the connect outcome |
| BluetoothClients.BluetoothClient.Receive | app/src/main/java/net/lasertag/communication/BluetoothClient.java:131-150 | reading a chunk leaves the buffer and both logs exactly as `Scan` and the dispatch rules say |
| BluetoothClients.BluetoothClient.ReadByte | app/src/main/java/net/lasertag/communication/BluetoothClient.java:134-149 | a terminator dispatches the buffer and clears it; any other byte is appended |
| BluetoothClients.BluetoothClient.HandleFrame | app/src/main/java/net/lasertag/communication/BluetoothClient.java:141-150 | a completed frame adds exactly its forwarded event and its reply to the logs |
| BluetoothClients.BluetoothClient.ReadFailed | app/src/main/java/net/lasertag/communication/BluetoothClient.java:151-158 | a failed read closes the streams and ends listening, so later sends are dropped |
| BluetoothClients.BluetoothClient.Stop | app/src/main/java/net/lasertag/communication/BluetoothClient.java:54-64 | stopping clears `running` and closes everything; it throws iff no socket or no streams were open |
| BluetoothComms.HandedOn | app/src/main/java/net/lasertag/BluetoothComm.java:139-147 | exactly the two-byte non-ping frames are handed on, as their two bytes |
| BluetoothComms.PingReply | app/src/main/java/net/lasertag/BluetoothComm.java:142-143 | exactly the ping frames are answered, with a framed `PingMessage` |
| BluetoothComms.TwoByteFrames | app/src/main/java/net/lasertag/BluetoothComm.java:144-146 | a two-byte non-ping frame is handed on once and nothing is written back |
| BluetoothComms.OtherFramesDropped | app/src/main/java/net/lasertag/BluetoothComm.java:139-141 | empty frames and frames not of length 2 are neither handed on nor answered |
| BluetoothComms.BluetoothComm.constructor | app/src/main/java/net/lasertag/BluetoothComm.java:40-44 | construction only stores the name: nothing runs and nothing is connected |
| BluetoothComms.BluetoothComm.Start | app/src/main/java/net/lasertag/BluetoothComm.java:46-51 | `start` launches the loop only when not running, so repeated starts launch it once |
| BluetoothComms.BluetoothComm.SendMessageToDevice | app/src/main/java/net/lasertag/BluetoothComm.java:64-77 | nothing is written while the streams are closed; otherwise the stream receives the first bytes of the framed message that it accepts, and the terminator arrives iff the whole frame was taken, the IOException being swallowed |
| BluetoothComms.BluetoothComm.ConnectAttempt | app/src/main/java/net/lasertag/BluetoothComm.java:79-84 | a connect succeeds iff the adapter is on, a device is known or found and the socket connects; success greets the device with as much of a framed `PingMessage` as the stream takes (no event goes upward) and starts listening with an empty buffer |
| BluetoothComms.BluetoothComm.ConnectToBluetoothDevice | app/src/main/java/net/lasertag/BluetoothComm.java:92-124 | the bonded device is cached once found; the socket and streams follow the connect outcome |
| BluetoothComms.BluetoothComm.Receive | app/src/main/java/net/lasertag/BluetoothComm.java:129-158 | reading a chunk leaves the buffer and both logs exactly as `Scan` and the dispatch rules say |
| BluetoothComms.BluetoothComm.ReadByte | app/src/main/java/net/lasertag/BluetoothComm.java:132-147 | a terminator dispatches the buffer and clears it; any other byte is appended |
| BluetoothComms.BluetoothComm.ReadFailed | app/src/main/java/net/lasertag/BluetoothComm.java:149-156 | a failed read closes the streams and ends listening while the loop keeps running, so it retries |
| BluetoothComms.BluetoothComm.Stop | app/src/main/java/net/lasertag/BluetoothComm.java:53-62 | stopping clears `running` and closes everything; it throws iff no socket or no streams were open |
| UdpClients.ReceivedLength | app/src/main/java/net/lasertag/communication/UdpClient.java:90-95 | a datagram is seen through a 512-byte buffer: whole if it fits, cut to 512 bytes otherwise |
| UdpClients.Accepted | app/src/main/java/net/lasertag/communication/UdpClient.java:92-102 | never more messages are handed on than datagrams arrive, and none iff no datagram decodes |
| UdpClients.FirstDecoded | app/src/main/java/net/lasertag/communication/UdpClient.java:97-100 | the first datagram that decodes, whose sender becomes the server address when none is known |
| UdpClients.LastDecoded | app/src/main/java/net/lasertag/communication/UdpClient.java:102 | the last datagram that decodes, whose arrival sets `lastPingTime` |
| UdpClients.ListenStep | app/src/main/java/net/lasertag/communication/UdpClient.java:92-103 | one more datagram keeps the listener's description true |
| UdpClients.AfterArrivalsListened | app/src/main/java/net/lasertag/communication/UdpClient.java:92-103 | after any datagrams the decoded messages are handed on in order, the address is set once, any decoded one marks the client online, and the last one stamps the time |
| UdpClients.UdpClient.constructor | app/src/main/java/net/lasertag/communication/UdpClient.java:24-36 | the client starts stopped, offline, without a socket and with `lastPingTime` 0; the first-message flag is raised only by `start` |
| UdpClients.UdpClient.Start | app/src/main/java/net/lasertag/communication/UdpClient.java:42-50 | `start` acts only when not running: it sets the first-message flag, opens the socket and schedules once, or throws if the socket cannot be made |
| UdpClients.UdpClient.Stop | app/src/main/java/net/lasertag/communication/UdpClient.java:52-57 | `stop` clears `running` and closes the socket only if it is open |
| UdpClients.UdpClient.Heartbeat | app/src/main/java/net/lasertag/communication/UdpClient.java:70-85 | a strict timeout takes the client offline and reports a lost connection on every such tick; the heartbeat goes to the server or broadcast, and only a successful send clears the first flag, so at most one first heartbeat goes out per start |
| UdpClients.UdpClient.SendEventToServer | app/src/main/java/net/lasertag/communication/UdpClient.java:59-68 | the event's six bytes go to the known server or broadcast; a failed send is swallowed |
| UdpClients.UdpClient.ReceivePacket | app/src/main/java/net/lasertag/communication/UdpClient.java:93-102 | a datagram that decodes marks the client online, sets the address only if unset, is handed on and stamps the time; one that does not changes none of these |
| UdpClients.UdpClient.Listen | app/src/main/java/net/lasertag/communication/UdpClient.java:92-103 | the receive loop over any datagrams ends in the state the listener description gives |
| GameServices.DeriveState | app/src/main/java/net/lasertag/GameService.java:163-171 | OFFLINE iff UDP is offline; IDLE iff online and not running or a start is pending; DEAD iff online, running, nothing pending and not alive; GAME otherwise |
| GameServices.Tick | app/src/main/java/net/lasertag/GameService.java:152-154 | a countdown loses one second and never goes below zero |
| GameServices.TimeDisplayExact | app/src/main/java/net/lasertag/GameService.java:157-159 | below 128 minutes the shown minutes × 60 + seconds is the counter, with seconds in 0..59 |
| GameServices.TimeDisplayWraps | app/src/main/java/net/lasertag/GameService.java:157-158 | from 128 minutes on, the byte cast wraps the shown minutes to negative values |
| GameServices.ForActivity | app/src/main/java/net/lasertag/GameService.java:200-215 | PING messages are never shown; any other message is shown with the local player, and a snapshot carries the merged roster instead of its own players |
| GameServices.GameService.constructor | app/src/main/java/net/lasertag/GameService.java:46-59 | the engine starts in state -1, not running, nothing pending, both countdowns at 0, with an empty roster and empty logs |
| GameServices.GameService.SendCurrentStateToDevice | app/src/main/java/net/lasertag/GameService.java:189-198 | both devices are sent one state packet with the player id, team, narrowed state and bullets |
| GameServices.GameService.SendMessageToActivity | app/src/main/java/net/lasertag/GameService.java:200-215 | the activity receives exactly what `ForActivity` allows |
| GameServices.GameService.EvaluateCurrentState | app/src/main/java/net/lasertag/GameService.java:163-180 | the state becomes the derived one; the activity and the devices hear of it, and the result is true, exactly when it changed |
| GameServices.GameService.TimerTick | app/src/main/java/net/lasertag/GameService.java:147-160 | with no game and no pending start nothing happens; otherwise both countdowns tick, clamped at 0, and the activity is shown the game countdown in GAME and the respawn countdown otherwise |
| GameServices.GameService.Respawn | app/src/main/java/net/lasertag/GameService.java:223-231 | the game runs, no start is pending, the player respawns, the state is re-derived, and RESPAWN goes to the server and the activity |
| GameServices.GameService.FireRespawn | app/src/main/java/net/lasertag/GameService.java:248 | running a scheduled respawn removes it from the pending ones, then does exactly what `respawn` does: flags, player, re-derived state, the activity and devices told of a change, RESPAWN to the server and the activity |
| GameServices.GameService.OnGameStart | app/src/main/java/net/lasertag/GameService.java:240-249 | a start is pending, team play and respawn time are taken, the countdowns become minutes × 60 + delay and delay, and a respawn is scheduled after the delay |
| GameServices.GameService.OnSnapshot | app/src/main/java/net/lasertag/GameService.java:254-276 | running, team play and the game countdown come from the snapshot; the roster is merged then sorted; the player copies its own entry if there is one |
| GameServices.GameService.MergeSnapshot | app/src/main/java/net/lasertag/GameService.java:260-270 | the loop over the snapshot's players merges each in wire order |
| GameServices.GameService.ContainsPlayer | app/src/main/java/net/lasertag/GameService.java:261 | `contains` holds iff some entry `equals` the update |
| GameServices.GameService.CopyIntoEntriesWithId | app/src/main/java/net/lasertag/GameService.java:264-268 | the inner loop updates exactly the entries with the update's id |
| GameServices.GameService.HandleEventFromServer | app/src/main/java/net/lasertag/GameService.java:233-282 | GAME_OVER stops the game, YOU_SCORED adds a point, GAME_START and FULL_STATS apply as above; the message is shown, the state re-derived, and the devices hear the state exactly once, changed or not |
| GameServices.GameService.ApplyServerEvent | app/src/main/java/net/lasertag/GameService.java:234-277 | the switch changes each field exactly as its event type says and leaves the rest alone |
| GameServices.GameService.ReportServerEvent | app/src/main/java/net/lasertag/GameService.java:278-281 | the message is shown, and the devices get the state once whether or not it changed |
| GameServices.GameService.OnHit | app/src/main/java/net/lasertag/GameService.java:303-319 | an enemy hit applies its damage; a lethal one re-derives the state, reports YOU_KILLED, sets the respawn countdown and schedules a respawn |
| GameServices.GameService.HandleEventFromDevice | app/src/main/java/net/lasertag/GameService.java:284-326 | a GOT_HIT from an unknown attacker is an error and one from a team-mate changes nothing; otherwise DEVICE_CONNECTED sends the devices the state, a shot spends a bullet or becomes GUN_NO_BULLETS (never sent to the server), a reload reloads, a hit applies damage and a lethal one re-derives the state, sets the respawn countdown and schedules a respawn; the event goes to the server and the activity under its final type |
| NetworkServices.LegacyDeriveState | app/src/main/java/net/lasertag/NetworkService.java:221-229 | OFFLINE iff offline; IDLE iff online and not running; DEAD iff online, running and dead; GAME otherwise |
| NetworkServices.LegacyStateIsCurrentWithoutPendingStart | app/src/main/java/net/lasertag/NetworkService.java:221-229 | the legacy rule is the current rule with no pending start and alive meaning not dead |
| NetworkServices.EventView | app/src/main/java/net/lasertag/NetworkService.java:265-269 | every decoded message but a snapshot has a view with the same type, and an event's view keeps its counterpart and bullets |
| NetworkServices.DecodedEventsCast | app/src/main/java/net/lasertag/NetworkService.java:284-287 | whatever the legacy decoder yields for a type other than FULL_STATS passes the GAME_START cast |
| NetworkServices.OwnEntry | app/src/main/java/net/lasertag/NetworkService.java:298-304 | the player's own entry is found iff some entry has its id |
| NetworkServices.Delivered | app/src/main/java/net/lasertag/NetworkService.java:203-214 | the listener posts the decoded prefix of the datagrams, and stops at the first one that does not decode |
| NetworkServices.DevicePacket | app/src/main/java/net/lasertag/NetworkService.java:129 | a device event goes to the server as type, own id, counterpart |
| NetworkServices.ReceivedStep | app/src/main/java/net/lasertag/NetworkService.java:204-213 | one more decoded datagram extends what the listener has posted and stamped |
| NetworkServices.NetworkService.constructor | app/src/main/java/net/lasertag/NetworkService.java:50-60 | the service starts offline, not running, alive, in state -1, with the first flag set |
| NetworkServices.NetworkService.EvaluateCurrentState | app/src/main/java/net/lasertag/NetworkService.java:221-235 | the state becomes the derived one; the activity and the devices hear of it only when it changed |
| NetworkServices.NetworkService.Heartbeat | app/src/main/java/net/lasertag/NetworkService.java:181-196 | a strict timeout takes the service offline and re-derives the state, and the activity and the devices hear of it iff it changed; the heartbeat goes to the server or broadcast, and a successful send clears the first flag |
| NetworkServices.NetworkService.ReceivePacket | app/src/main/java/net/lasertag/NetworkService.java:204-213 | a datagram that decodes is posted, sets the address only if unset and stamps the time; one that does not ends the listener |
| NetworkServices.NetworkService.Listen | app/src/main/java/net/lasertag/NetworkService.java:199-218 | the listener posts the decoded prefix of the datagrams, keeps listening iff all decoded, and sets the address and time from them |
| NetworkServices.NetworkService.HandleEventFromServer | app/src/main/java/net/lasertag/NetworkService.java:265-312 | every message sets online and every event the bullets; RESPAWN, GAME_OVER, GAME_START, YOU_KILLED and FULL_STATS change their flags; FULL_STATS always pushes the state; the state is re-derived except after GAME_TIMER |
| NetworkServices.NetworkService.ApplyServerEvent | app/src/main/java/net/lasertag/NetworkService.java:266-308 | the switch changes each flag exactly as its event type says; FULL_STATS takes team and death from the player's own entry if present |
| NetworkServices.NetworkService.HandleBluetoothMessage | app/src/main/java/net/lasertag/NetworkService.java:126-133 | the three-byte packet goes to the server or broadcast; a failed send throws |

## Left out

- Threads, executors, `Thread.sleep`/`yield`, volatile and atomic fields, and races between the heartbeat, listener, timer and Bluetooth threads. Each thread's step is a method, and the model runs the steps one at a time.
- Real sockets, RFCOMM and `DatagramSocket`. Whether a datagram send, a socket creation or a connect succeeds is a parameter, as is how many bytes a Bluetooth output stream takes before a write throws. The bytes written or sent are recorded in sequences.
- The clock. `System.currentTimeMillis()` is the `now` parameter of the heartbeats and the `time` of an arriving datagram.
- Sounds (`SoundManager`), notifications, the service lifecycle (`onCreate`, `onStartCommand`, `onDestroy`) and intent broadcasting. Activity notes and device packets are recorded in sequences.
- GameServices.GameService.SendMessageToActivity: the paused-activity buffering (`isActive`, `lastStatsMessage`, `lastReceivedEvent`) is not modelled, because it is presentation glue. Every note is recorded as if the activity were active. The legacy `sendUdpMessageToActivity` is left out for the same reason.
- BluetoothClients.BluetoothClient.HandleFrame: the ping reply is written whole. A swallowed write failure is modelled at `SendMessageToDevice`, but not inside the read loop, whose proof tracks the replies as whole frames. The same holds for `BluetoothComms.BluetoothComm.ReadByte`.
- BluetoothComms.BluetoothComm.ReadByte: a frame handed to `handleBluetoothMessage` always lets the loop go on reading. In the source, a failed datagram send there throws an IOException, which the read loop catches as a lost connection: it closes the streams and reconnects.
- BluetoothClients.BluetoothClient.ReadByte: a forwarded event always lets the loop go on reading. In the source, the NullPointerException of a GOT_HIT from an unknown attacker (`GameServices.GameService.HandleEventFromDevice` returns `UnknownAttacker`) is not an IOException, so it escapes `listening` and ends the client's loop.
- GameServices.GameService.OnSnapshot: `Collections.sort` is modelled as a stable insertion sort over `compareTo`. The two agree when `compareTo` is a total preorder, which is not stated. For any other `compareTo` the library may order the roster differently or throw IllegalArgumentException. The same holds for `GameServices.GameService.HandleEventFromServer`.
- Rosters.PlayerOps: the bodies of `respawn`, `reload`, `decreaseBullets`, `decreaseHealth`, `isAlive`, `copyPlayerValuesFrom`, `compareTo` and `equals` are not in the source. They are uninterpreted, so no bullet or health bound is claimed.
- GameServices.GameService.HandleEventFromServer: requires that a GAME_START message is a `GameStartMessageIn` and a FULL_STATS message a `StatsMessageIn`. In the source a wrong message fails the cast; `MessagingProperties.DecodeWellTyped` proves the decoder never produces one.
- GameServices.GameService.HandleEventFromDevice: requires an `EventMessageIn`, the only kind the Bluetooth client hands on. A GOT_HIT from an attacker missing from the roster ends in the `UnknownAttacker` outcome, which stands for the source's null dereference.
- NetworkServices.NetworkService.HandleEventFromServer: takes the `ServerEvent` view. The source reads `isGameRunning`, `isTeamPlay` and `teamId` from a `StatsMessage` that the legacy decoder does not build. `NetworkServices.DecodedEventsCast` covers every other message type.
- The legacy `UdpMessages.parseMessageFromDevice`, `PingMessage`, `MessageFromDevice`, `UdpMessages.DEVICE_PLAYER_STATE` and the legacy `MessageToDevice` encoding are not part of this model. `BluetoothComm` hands on frames as `MessageFromDevice(type, counterpart)`. A ping is the single byte PING. The legacy device state is recorded as its fields (`DeviceState`).
- `Config` getters: the player id and the server address are constructor parameters. `getBroadcastAddress` and `setServerAddress`, which the callers use but `Config` lacks, become the `Broadcast` destination and the address fields.
- Names stay byte sequences: `new String(nameBytes)` and the platform charset are not modelled.
- `WirelessMessage.equals` and `hashCode` are left out. Dafny datatypes have structural equality, every subclass is a Kotlin data class that overrides them, and the hash code feeds nothing in the core.
- The 2000 ms retry delay of the Bluetooth loops and the heartbeat period are not modelled. Each pass of a loop is one call.
- `MainActivity`, `BluetoothMessageHandler` and `WirelessMessageHandler` are not modelled. The handlers are recorded as the messages they receive.
