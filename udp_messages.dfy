/** The legacy generation's decoder (`UdpMessages.fromBytes`). Its type
    table lists the same values 1..12 as the current one, so the constants
    of `MessageTypes` are shared. A FULL_STATS roster is sorted by score,
    highest first, before it is returned. */
module UdpMessages {
  import opened JavaBytes
  import opened MessageTypes
  import opened ByteBuffers
  import opened Sorting

  /** The legacy roster entry: id, health and score bytes and the name. */
  datatype LegacyPlayer = LegacyPlayer(id: int, health: int, score: int, name: seq<JByte>)

  datatype UdpMessage =
    | AckMessage(msgType: JByte)
    | EventMessage(msgType: JByte, counterpartPlayerId: JByte, health: JByte, score: JByte, bulletsLeft: JByte)
    | StatsMessage(msgType: JByte, numPlayers: JByte, players: seq<LegacyPlayer>)

  /** The comparator handed to `Arrays.sort`: `Integer.compare(b.score, a.score)`. */
  function ScoreDescending(a: LegacyPlayer, b: LegacyPlayer): int
  {
    IntegerCompare(b.score, a.score)
  }

  /** `Arrays.sort` on objects is a stable sort. */
  function SortByScore(players: seq<LegacyPlayer>): seq<LegacyPlayer>
  {
    InsertionSort(players, ScoreDescending)
  }

  /*********************************************************************
   * What a packet decodes to
   *********************************************************************/

  function Decode(packet: seq<JByte>): Result<UdpMessage>
  {
    if |packet| == 0 then Failure(BufferUnderflow)
    else
      var t := packet[0];
      if t == PING then Success(AckMessage(PING))
      else if t == FULL_STATS then StatsAt(packet, 1)
      else EventAt(t, packet, 1)
  }

  /** Any type other than PING and FULL_STATS: four payload bytes. */
  function EventAt(t: JByte, p: seq<JByte>, pos: nat): Result<UdpMessage>
  {
    if pos + 4 <= |p| then Success(EventMessage(t, p[pos], p[pos + 1], p[pos + 2], p[pos + 3]))
    else Failure(BufferUnderflow)
  }

  /** id, health, score, nameLength, then nameLength name bytes. */
  function PlayerAt(p: seq<JByte>, pos: nat): Result<(LegacyPlayer, nat)>
  {
    if pos + 4 > |p| then Failure(BufferUnderflow)
    else
      var nameLength := p[pos + 3];
      if nameLength < 0 then Failure(NegativeArraySize)
      else if pos + 4 + nameLength > |p| then Failure(BufferUnderflow)
      else Success((LegacyPlayer(p[pos], p[pos + 1], p[pos + 2], p[pos + 4..pos + 4 + nameLength]),
                    pos + 4 + nameLength))
  }

  /** `count` consecutive roster entries, in wire order. */
  function PlayersAt(p: seq<JByte>, pos: nat, count: nat): (r: Result<(seq<LegacyPlayer>, nat)>)
    ensures r.Success? ==> |r.value.0| == count && pos <= r.value.1
    ensures r.Success? && count > 0 ==> r.value.1 <= |p|
    decreases count
  {
    if count == 0 then Success(([], pos))
    else
      match PlayerAt(p, pos)
      case Failure(e) => Failure(e)
      case Success((player, next)) => Prepend([player], PlayersAt(p, next, count - 1))
  }

  /** A count byte, the entries, and the entries sorted by score. */
  function StatsAt(p: seq<JByte>, pos: nat): Result<UdpMessage>
  {
    if pos + 1 > |p| then Failure(BufferUnderflow)
    else
      var count := p[pos];
      if count < 0 then Failure(NegativeArraySize)
      else
        match PlayersAt(p, pos + 1, count)
        case Failure(e) => Failure(e)
        case Success((players, _)) => Success(StatsMessage(FULL_STATS, count, SortByScore(players)))
  }

  /*********************************************************************
   * The parsers, over a ByteBuffer cursor
   *********************************************************************/

  /** `fromBytes(bytes, length)`: decodes the first `length` bytes only. */
  method FromBytes(bytes: seq<JByte>, length: nat) returns (r: Result<UdpMessage>)
    requires length <= |bytes|
    ensures r == Decode(bytes[..length])
  {
    var buffer := new ByteBuffer.Wrap(bytes, length);
    buffer.OrderLittleEndian();
    var t :- buffer.Get();
    if t == PING {
      r := Success(AckMessage(PING));
    } else if t == FULL_STATS {
      r := ParseFullStatsMessage(buffer);
    } else {
      r := ParseEventMessage(t, buffer);
    }
  }

  method ParseEventMessage(t: JByte, buffer: ByteBuffer) returns (r: Result<UdpMessage>)
    requires buffer.Valid()
    modifies buffer
    ensures r == EventAt(t, buffer.data, old(buffer.position))
  {
    var counterpartPlayerId :- buffer.Get();
    var health :- buffer.Get();
    var score :- buffer.Get();
    var bulletsLeft :- buffer.Get();
    r := Success(EventMessage(t, counterpartPlayerId, health, score, bulletsLeft));
  }

  /** Fills a `Player[count]` array in wire order, then sorts it in place. */
  method ParseFullStatsMessage(buffer: ByteBuffer) returns (r: Result<UdpMessage>)
    requires buffer.Valid()
    modifies buffer
    ensures r == StatsAt(buffer.data, old(buffer.position))
  {
    var playersCount :- buffer.Get();
    if playersCount < 0 {
      return Failure(NegativeArraySize);
    }
    var players := new LegacyPlayer[playersCount](_ => LegacyPlayer(0, 0, 0, []));
    var filled := ReadPlayers(buffer, players);
    if filled.Failure? {
      return Failure(filled.error);
    }
    SortInPlace(players);
    r := Success(StatsMessage(FULL_STATS, playersCount, players[..]));
  }

  /** The loop of `parseFullStatsMessage`: one entry per array slot, in wire
      order; the first entry that cannot be read ends the parse. */
  method ReadPlayers(buffer: ByteBuffer, players: array<LegacyPlayer>) returns (r: Result<()>)
    requires buffer.Valid()
    modifies buffer, players
    ensures buffer.Valid()
    ensures var spec := PlayersAt(buffer.data, old(buffer.position), players.Length);
      && (r.Success? <==> spec.Success?)
      && (r.Failure? ==> r.error == spec.error)
      && (r.Success? ==> players[..] == spec.value.0 && buffer.position == spec.value.1)
  {
    ghost var start := buffer.position;
    PrependNothing(PlayersAt(buffer.data, start, players.Length));
    for i := 0 to players.Length
      invariant buffer.Valid()
      invariant PlayersAt(buffer.data, start, players.Length) ==
                Prepend(players[..i], PlayersAt(buffer.data, buffer.position, players.Length - i))
    {
      ghost var rest, here := players.Length - i - 1, buffer.position;
      var player := ParsePlayer(buffer);
      if player.Failure? {
        assert PlayersAt(buffer.data, here, players.Length - i) == Failure(player.error);
        return Failure(player.error);
      }
      PrependTwice(players[..i], [player.value], PlayersAt(buffer.data, buffer.position, rest));
      ghost var parsed := players[..i];
      players[i] := player.value;
      assert players[..i + 1] == parsed + [player.value];
    }
    assert players[..players.Length] == players[..];
    assert players[..] + [] == players[..];
    r := Success(());
  }

  /** `Arrays.sort(players, ...)`: the array's contents are replaced by
      their stable sort. */
  method SortInPlace(players: array<LegacyPlayer>)
    modifies players
    ensures players[..] == SortByScore(old(players[..]))
  {
    var sorted := SortByScore(players[..]);
    forall i | 0 <= i < players.Length {
      players[i] := sorted[i];
    }
    assert players[..] == sorted;
  }

  /** One pass of the loop body: four header reads, the name bytes. */
  method ParsePlayer(buffer: ByteBuffer) returns (r: Result<LegacyPlayer>)
    requires buffer.Valid()
    modifies buffer
    ensures buffer.Valid()
    ensures var spec := PlayerAt(buffer.data, old(buffer.position));
      && (r.Success? <==> spec.Success?)
      && (r.Failure? ==> r.error == spec.error)
      && (r.Success? ==> r.value == spec.value.0 && buffer.position == spec.value.1)
  {
    var id :- buffer.Get();
    var health :- buffer.Get();
    var score :- buffer.Get();
    var nameLength :- buffer.Get();
    if nameLength < 0 {
      return Failure(NegativeArraySize);
    }
    var name :- buffer.GetBytes(nameLength);
    r := Success(LegacyPlayer(id, health, score, name));
  }
}
