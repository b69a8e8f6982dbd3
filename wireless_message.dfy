/** Message type bytes shared by the current wire codec, the serial link and
    the match engine. */
module MessageTypes {
  import opened JavaBytes

  const PING: JByte := 1
  const GUN_SHOT: JByte := 2
  const GUN_RELOAD: JByte := 3
  const YOU_HIT_SOMEONE: JByte := 4
  const GOT_HIT: JByte := 5
  const RESPAWN: JByte := 6
  const GAME_OVER: JByte := 7
  const GAME_START: JByte := 8
  const YOU_KILLED: JByte := 9
  const YOU_SCORED: JByte := 10
  const FULL_STATS: JByte := 11
  const GUN_NO_BULLETS: JByte := 12
  const DEVICE_PLAYER_STATE: JByte := 13
  const DEVICE_CONNECTED: JByte := 14
  const DEVICE_DISCONNECTED: JByte := 15
  const GAME_TIMER: JByte := 101
  const SERVER_DISCONNECTED: JByte := 102
}

/** The current generation's message family and its outbound encoding
    (`getBytes`). */
module WirelessMessages {
  import opened JavaBytes
  import opened MessageTypes

  /** A roster entry as the current decoder builds it: every field is a
      wire byte widened to `int`, the name is kept as raw bytes. */
  datatype Player = Player(
    id: int,
    health: int,
    score: int,
    teamId: int,
    damage: int,
    bulletsLeft: int,
    name: seq<JByte>)

  /** The closed family of messages; `msgType` is the type byte every
      message carries. Equality is the structural equality Kotlin generates
      for data classes. */
  datatype WirelessMessage =
    | SignalMessage(msgType: JByte)
    | TimeMessage(msgType: JByte, minutes: JByte, seconds: JByte)
    | EventMessageIn(msgType: JByte, payload: JByte)
    | GameStartMessageIn(msgType: JByte, teamPlay: bool, respawnTime: int,
                         gameTimeMinutes: int, startDelaySeconds: int)
    | StatsMessageIn(msgType: JByte, isGameRunning: bool, isTeamPlay: bool,
                     gameTimerSeconds: int, players: seq<Player>)
    | EventMessageToServer(msgType: JByte, playerId: JByte, otherPlayerId: JByte,
                           health: JByte, score: JByte, bulletsLeft: JByte)
    | MessageToDevice(msgType: JByte, playerId: JByte, playerTeam: JByte,
                      playerState: JByte, bulletsLeft: JByte)

  /** `SignalMessage()`: the default type is PING. */
  const DefaultSignal: WirelessMessage := SignalMessage(PING)

  /** `getBytes()`: the two outbound packet kinds override it with their
      fixed layouts; every other message keeps the base version and
      encodes as its type byte alone, dropping its payload fields. */
  function GetBytes(m: WirelessMessage): (bytes: seq<JByte>)
    ensures |bytes| >= 1 && bytes[0] == m.msgType
    ensures m.EventMessageToServer? ==> |bytes| == 6
    ensures m.MessageToDevice? ==> |bytes| == 5
    ensures !m.EventMessageToServer? && !m.MessageToDevice? ==> |bytes| == 1
  {
    match m
    case EventMessageToServer(t, p, o, h, s, b) => [t, p, o, h, s, b]
    case MessageToDevice(t, p, team, state, b) => [t, p, team, state, b]
    case _ => [m.msgType]
  }

  /** The secondary `EventMessageToServer(type, player, otherPlayerId)`
      constructor: each `Int` is narrowed with `toByte()`, so only its low
      8 bits reach the wire. */
  function EventToServer(msgType: JByte, player: Player, otherPlayerId: int): (m: WirelessMessage)
    ensures m.EventMessageToServer? && m.msgType == msgType
    ensures (m.playerId - player.id) % 256 == 0
    ensures (m.otherPlayerId - otherPlayerId) % 256 == 0
    ensures (m.health - player.health) % 256 == 0
    ensures (m.score - player.score) % 256 == 0
    ensures (m.bulletsLeft - player.bulletsLeft) % 256 == 0
  {
    EventMessageToServer(msgType, ToByte(player.id), ToByte(otherPlayerId),
                         ToByte(player.health), ToByte(player.score), ToByte(player.bulletsLeft))
  }

  /** The six bytes on the wire, in order: type, playerId, otherPlayerId,
      health, score, bulletsLeft; values already in byte range pass through
      unchanged. */
  lemma EventToServerLayout(msgType: JByte, player: Player, otherPlayerId: int)
    ensures GetBytes(EventToServer(msgType, player, otherPlayerId)) ==
      [msgType, ToByte(player.id), ToByte(otherPlayerId), ToByte(player.health),
       ToByte(player.score), ToByte(player.bulletsLeft)]
    ensures -128 <= player.score < 128 ==> GetBytes(EventToServer(msgType, player, otherPlayerId))[4] == player.score
  {
  }

  /** A score of 256 and a score of 0 produce the same packet: the
      narrowing loses the high bits. */
  lemma EventToServerTruncates(msgType: JByte, player: Player, otherPlayerId: int)
    ensures EventToServer(msgType, player, otherPlayerId) ==
            EventToServer(msgType, player.(score := player.score + 256), otherPlayerId)
  {
  }

  /** The device state packet: type, playerId, playerTeam, playerState,
      bulletsLeft. */
  lemma MessageToDeviceLayout(t: JByte, id: JByte, team: JByte, state: JByte, bullets: JByte)
    ensures GetBytes(MessageToDevice(t, id, team, state, bullets)) == [t, id, team, state, bullets]
  {
  }

  /** Messages that keep the base `getBytes` do not encode their fields:
      two of them that differ only in payload are indistinguishable on the
      wire. */
  lemma PayloadNotEncoded(a: WirelessMessage, b: WirelessMessage)
    requires a.msgType == b.msgType
    requires a.TimeMessage? || a.EventMessageIn? || a.GameStartMessageIn? || a.StatsMessageIn? || a.SignalMessage?
    requires b.TimeMessage? || b.EventMessageIn? || b.GameStartMessageIn? || b.StatsMessageIn? || b.SignalMessage?
    ensures GetBytes(a) == GetBytes(b)
  {
  }
}
