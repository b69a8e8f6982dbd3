/** The current generation's decoder (`Messaging.fromBytes` and its
    parsers). `Decode` and the `...At` functions state what a packet means;
    the methods walk a ByteBuffer cursor the way the parsers do and are
    proved to compute exactly that. */
module Messaging {
  import opened JavaBytes
  import opened MessageTypes
  import opened WirelessMessages
  import opened ByteBuffers

  /*********************************************************************
   * What a packet decodes to
   *********************************************************************/

  /** The message a packet decodes to: the first byte selects the variant,
      and every type byte other than PING, FULL_STATS, GAME_TIMER and
      GAME_START is read as a one-byte event, so no type is rejected. */
  function Decode(packet: seq<JByte>): Result<WirelessMessage>
  {
    if |packet| == 0 then Failure(BufferUnderflow)
    else
      var t := packet[0];
      if t == PING then Success(SignalMessage(PING))
      else if t == FULL_STATS then FullStatsAt(packet, 1)
      else if t == GAME_TIMER then TimeAt(packet, 1)
      else if t == GAME_START then GameStartAt(packet, 1)
      else EventAt(t, packet, 1)
  }

  function EventAt(t: JByte, p: seq<JByte>, pos: nat): Result<WirelessMessage>
  {
    if pos + 1 <= |p| then Success(EventMessageIn(t, p[pos])) else Failure(BufferUnderflow)
  }

  function GameStartAt(p: seq<JByte>, pos: nat): Result<WirelessMessage>
  {
    if pos + 4 <= |p| then
      Success(GameStartMessageIn(GAME_START, p[pos] != 0, p[pos + 1], p[pos + 2], p[pos + 3]))
    else Failure(BufferUnderflow)
  }

  function TimeAt(p: seq<JByte>, pos: nat): Result<WirelessMessage>
  {
    if pos + 2 <= |p| then Success(TimeMessage(GAME_TIMER, p[pos], p[pos + 1]))
    else Failure(BufferUnderflow)
  }

  /** One roster entry: seven header bytes (id, health, score, teamId,
      damage, bulletsLeft, nameLength), then nameLength name bytes. */
  function PlayerAt(p: seq<JByte>, pos: nat): Result<(Player, nat)>
  {
    if pos + 7 > |p| then Failure(BufferUnderflow)
    else
      var nameLength := p[pos + 6];
      if nameLength < 0 then Failure(NegativeArraySize)
      else if pos + 7 + nameLength > |p| then Failure(BufferUnderflow)
      else Success((Player(p[pos], p[pos + 1], p[pos + 2], p[pos + 3], p[pos + 4], p[pos + 5],
                           p[pos + 7..pos + 7 + nameLength]),
                    pos + 7 + nameLength))
  }

  /** `count` consecutive roster entries, in wire order. */
  function PlayersAt(p: seq<JByte>, pos: nat, count: nat): (r: Result<(seq<Player>, nat)>)
    ensures r.Success? ==> |r.value.0| == count && pos <= r.value.1
    ensures r.Success? && count > 0 ==> r.value.1 <= |p|
    decreases count
  {
    if count == 0 then Success(([], pos))
    else
      match PlayerAt(p, pos)
      case Failure(e) => Failure(e)
      case Success((player, next)) => Prepend([player], PlayersAt(p, next, count - 1))
  }

  /** The FULL_STATS body: running flag, teamPlay flag, a little-endian
      16-bit game timer, a count byte, then the entries. */
  function FullStatsAt(p: seq<JByte>, pos: nat): Result<WirelessMessage>
  {
    if pos + 5 > |p| then Failure(BufferUnderflow)
    else
      var count := p[pos + 4];
      if count < 0 then Failure(NegativeArraySize)
      else
        match PlayersAt(p, pos + 5, count)
        case Failure(e) => Failure(e)
        case Success((players, _)) =>
          Success(StatsMessageIn(FULL_STATS, p[pos] != 0, p[pos + 1] != 0,
                                 ShortLE(p[pos + 2], p[pos + 3]), players))
  }

  /** `parseMessageFromDevice`: a device frame is read as an event whose
      type and payload are its first two bytes; nothing after them is read. */
  function ParseMessageFromDevice(frame: seq<JByte>): (m: WirelessMessage)
    requires |frame| >= 2
    ensures m.EventMessageIn? && [m.msgType, m.payload] == frame[..2]
  {
    EventMessageIn(frame[0], frame[1])
  }

  /*********************************************************************
   * The parsers, over a ByteBuffer cursor
   *********************************************************************/

  /** `fromBytes(bytes, length)`: decodes the first `length` bytes only. */
  method FromBytes(bytes: seq<JByte>, length: nat) returns (r: Result<WirelessMessage>)
    requires length <= |bytes|
    ensures r == Decode(bytes[..length])
  {
    var buffer := new ByteBuffer.Wrap(bytes, length);
    buffer.OrderLittleEndian();
    var t :- buffer.Get();
    if t == PING {
      r := Success(SignalMessage(PING));
    } else if t == FULL_STATS {
      r := ParseFullStatsMessage(buffer);
    } else if t == GAME_TIMER {
      r := ParseTimeMessage(buffer);
    } else if t == GAME_START {
      r := ParseGameStartEventFromServer(buffer);
    } else {
      r := ParseEventFromServer(t, buffer);
    }
  }

  method ParseEventFromServer(t: JByte, buffer: ByteBuffer) returns (r: Result<WirelessMessage>)
    requires buffer.Valid()
    modifies buffer
    ensures r == EventAt(t, buffer.data, old(buffer.position))
  {
    var otherPlayerId :- buffer.Get();
    r := Success(EventMessageIn(t, otherPlayerId));
  }

  method ParseGameStartEventFromServer(buffer: ByteBuffer) returns (r: Result<WirelessMessage>)
    requires buffer.Valid()
    modifies buffer
    ensures r == GameStartAt(buffer.data, old(buffer.position))
  {
    var teamPlay :- buffer.Get();
    var respawnTime :- buffer.Get();
    var gameTimeMinutes :- buffer.Get();
    var startDelaySeconds :- buffer.Get();
    r := Success(GameStartMessageIn(GAME_START, teamPlay != 0, respawnTime, gameTimeMinutes, startDelaySeconds));
  }

  method ParseTimeMessage(buffer: ByteBuffer) returns (r: Result<WirelessMessage>)
    requires buffer.Valid()
    modifies buffer
    ensures r == TimeAt(buffer.data, old(buffer.position))
  {
    var minutes :- buffer.Get();
    var seconds :- buffer.Get();
    r := Success(TimeMessage(GAME_TIMER, minutes, seconds));
  }

  method ParseFullStatsMessage(buffer: ByteBuffer) returns (r: Result<WirelessMessage>)
    requires buffer.Valid() && buffer.littleEndian
    modifies buffer
    ensures r == FullStatsAt(buffer.data, old(buffer.position))
  {
    ghost var start := buffer.position;
    var isGameRunning :- buffer.Get();
    var teamPlay :- buffer.Get();
    var gameTimerSeconds :- buffer.GetShort();
    var playersCount :- buffer.Get();
    if playersCount < 0 {
      return Failure(NegativeArraySize);
    }
    var players: seq<Player> := [];
    PrependNothing(PlayersAt(buffer.data, buffer.position, playersCount));
    for i := 0 to playersCount
      invariant buffer.Valid() && buffer.littleEndian
      invariant PlayersAt(buffer.data, start + 5, playersCount) ==
                Prepend(players, PlayersAt(buffer.data, buffer.position, playersCount - i))
    {
      ghost var rest := playersCount - i - 1;
      var player :- ParsePlayer(buffer);
      PrependTwice(players, [player], PlayersAt(buffer.data, buffer.position, rest));
      players := players + [player];
    }
    assert players + [] == players;
    r := Success(StatsMessageIn(FULL_STATS, isGameRunning != 0, teamPlay != 0, gameTimerSeconds, players));
  }

  /** One pass of the loop body in `parseFullStatsMessage`: the seven
      header reads, the name array, the name bytes. */
  method ParsePlayer(buffer: ByteBuffer) returns (r: Result<Player>)
    requires buffer.Valid()
    modifies buffer
    ensures buffer.Valid() && buffer.littleEndian == old(buffer.littleEndian)
    ensures var spec := PlayerAt(buffer.data, old(buffer.position));
      && (r.Success? <==> spec.Success?)
      && (r.Failure? ==> r.error == spec.error)
      && (r.Success? ==> r.value == spec.value.0 && buffer.position == spec.value.1)
  {
    var id :- buffer.Get();
    var health :- buffer.Get();
    var score :- buffer.Get();
    var teamId :- buffer.Get();
    var damage :- buffer.Get();
    var bulletsLeft :- buffer.Get();
    var nameLength :- buffer.Get();
    if nameLength < 0 {
      return Failure(NegativeArraySize);
    }
    var name :- buffer.GetBytes(nameLength);
    r := Success(Player(id, health, score, teamId, damage, bulletsLeft, name));
  }
}
