/** The legacy generation's match engine (`NetworkService`). It keeps
    fewer flags than the current one: online, running, dead and team play,
    plus the team and bullet count it pushes to the devices. Server events
    arrive from a receive loop that ends at the first packet that does not
    decode; device events go straight to the server as three bytes. */
module NetworkServices {
  import opened JavaBytes
  import opened Options
  import opened MessageTypes
  import opened ByteBuffers
  import opened Config
  import opened Liveness
  import opened UdpMessages
  import opened UdpClients
  import opened BluetoothComms
  import GameServices

  /** The aggregate state, as the legacy `evaluateCurrentState` derives it. */
  function LegacyDeriveState(isOnline: bool, isGameRunning: bool, isPlayerDead: bool): (s: int)
    ensures s == STATE_OFFLINE <==> !isOnline
    ensures s == STATE_IDLE <==> isOnline && !isGameRunning
    ensures s == STATE_DEAD <==> isOnline && isGameRunning && isPlayerDead
    ensures s == STATE_GAME <==> isOnline && isGameRunning && !isPlayerDead
  {
    if !isOnline then STATE_OFFLINE
    else if !isGameRunning then STATE_IDLE
    else if isPlayerDead then STATE_DEAD
    else STATE_GAME
  }

  /** The legacy rule is the current one without a pending start: being
      dead is not being alive. */
  lemma LegacyStateIsCurrentWithoutPendingStart(isOnline: bool, isGameRunning: bool, isPlayerDead: bool)
    ensures LegacyDeriveState(isOnline, isGameRunning, isPlayerDead)
            == GameServices.DeriveState(isOnline, isGameRunning, false, !isPlayerDead)
  {
  }

  /** A roster entry as the engine reads it: id, team and health. */
  datatype StatsEntry = StatsEntry(id: JByte, teamId: JByte, health: JByte)

  /** The messages the engine handles. The engine reads running and team
      play flags and per-player teams from a FULL_STATS message, which the
      legacy decoder does not produce, so the snapshot is taken here with
      exactly the fields the engine reads. */
  datatype ServerEvent =
    | Ack(msgType: JByte)
    | Event(msgType: JByte, counterpartPlayerId: JByte, bulletsLeft: JByte)
    | Stats(msgType: JByte, isGameRunning: bool, isTeamPlay: bool, players: seq<StatsEntry>)

  /** The view of what the legacy decoder produces for everything but a
      snapshot. */
  function EventView(m: UdpMessage): (r: Option<ServerEvent>)
    ensures r.None? <==> m.StatsMessage?
    ensures r.Some? ==> r.value.msgType == m.msgType
    ensures m.EventMessage? ==> r == Some(Event(m.msgType, m.counterpartPlayerId, m.bulletsLeft))
  {
    match m
    case AckMessage(t) => Some(Ack(t))
    case EventMessage(t, c, _, _, b) => Some(Event(t, c, b))
    case StatsMessage(_, _, _) => None
  }

  /** The casts in `handleEventFromServer` succeed. */
  predicate CastsHold(m: ServerEvent)
  {
    && (m.msgType == GAME_START ==> m.Event?)
    && (m.msgType == FULL_STATS ==> m.Stats?)
  }

  /** Whatever the legacy decoder produces for a type other than FULL_STATS
      passes the GAME_START cast: the decoder reads every such type as an
      event. */
  lemma DecodedEventsCast(packet: seq<JByte>)
    requires Decode(packet).Success? && Decode(packet).value.msgType != FULL_STATS
    ensures EventView(Decode(packet).value).Some?
    ensures CastsHold(EventView(Decode(packet).value).value)
  {
  }

  /** The player's own entry: the first with its id. */
  function OwnEntry(players: seq<StatsEntry>, id: JByte): (r: Option<StatsEntry>)
    ensures r.Some? <==> exists i :: 0 <= i < |players| && players[i].id == id
    ensures r.Some? ==> r.value.id == id && r.value in players
  {
    if players == [] then None
    else if players[0].id == id then Some(players[0])
    else OwnEntry(players[1..], id)
  }

  /** What the listener makes of one datagram: the legacy decoder over the
      bytes that fit its 512-byte buffer. */
  function LegacyReadable(a: Arrival): Result<UdpMessage>
  {
    Decode(a.datagram[..ReceivedLength(|a.datagram|)])
  }

  /** The messages the listener posts for `arrivals`, in order: the
      exception a datagram that does not decode throws leaves the `while
      (true)` loop, so nothing after it is received. */
  function Delivered(arrivals: seq<Arrival>): (r: seq<UdpMessage>)
    ensures |r| <= |arrivals|
    ensures forall i :: 0 <= i < |r| ==> LegacyReadable(arrivals[i]) == Success(r[i])
    ensures |r| < |arrivals| ==> LegacyReadable(arrivals[|r|]).Failure?
  {
    if arrivals == [] then []
    else
      match LegacyReadable(arrivals[0])
      case Failure(_) => []
      case Success(m) => [m] + Delivered(arrivals[1..])
  }

  /** What the devices are sent: `MessageToDevice(DEVICE_PLAYER_STATE,
      playerId, playerTeam, (byte) currentState, bulletsLeft)`. */
  datatype DeviceState = DeviceState(playerId: JByte, team: JByte, state: JByte, bulletsLeft: JByte)

  /** The CURRENT_STATE broadcast. */
  datatype StateBroadcast = StateBroadcast(state: int, teamPlay: bool)

  /** The packet `handleBluetoothMessage` sends: type, own id, counterpart. */
  function DevicePacket(message: MessageFromDevice, playerId: JByte): (p: seq<JByte>)
    ensures |p| == 3 && p[0] == message.msgType && p[1] == playerId && p[2] == message.counterpartPlayerId
  {
    [message.msgType, playerId, message.counterpartPlayerId]
  }

  /** After the first `k` datagrams of `arrivals` decoded: their messages
      are posted, the address is learnt from the first if none was known,
      and the last of them stamped the ping time. */
  ghost predicate Received(arrivals: seq<Arrival>, k: nat,
                           posted0: seq<UdpMessage>, address0: Option<nat>, time0: int,
                           posted: seq<UdpMessage>, address: Option<nat>, time: int)
  {
    && k <= |Delivered(arrivals)|
    && posted == posted0 + Delivered(arrivals)[..k]
    && address == (if address0.None? && k > 0 then Some(arrivals[0].source) else address0)
    && time == (if k > 0 then arrivals[k - 1].time else time0)
  }

  /** One more datagram that decodes extends what was received. */
  lemma ReceivedStep(arrivals: seq<Arrival>, k: nat,
                     posted0: seq<UdpMessage>, address0: Option<nat>, time0: int,
                     posted: seq<UdpMessage>, address: Option<nat>, time: int)
    requires Received(arrivals, k, posted0, address0, time0, posted, address, time)
    requires k < |Delivered(arrivals)|
    ensures LegacyReadable(arrivals[k]) == Success(Delivered(arrivals)[k])
    ensures Received(arrivals, k + 1, posted0, address0, time0,
                     posted + [LegacyReadable(arrivals[k]).value],
                     if address.None? then Some(arrivals[k].source) else address,
                     arrivals[k].time)
  {
    assert Delivered(arrivals)[..k + 1] == Delivered(arrivals)[..k] + [Delivered(arrivals)[k]];
  }

  class NetworkService {
    const playerId: JByte
    var isGameRunning: bool
    var isPlayerDead: bool
    var isOnline: bool
    var teamPlay: bool
    var lastPingTime: int
    var currentState: int
    var playerTeam: JByte
    var bulletsLeft: JByte
    var firstEverMessage: bool
    /** The server address, known once the first packet arrived. */
    var serverAddress: Option<nat>
    /** The listener is still in its receive loop. */
    var listening: bool
    /** Every datagram sent. */
    var sent: seq<Datagram>
    /** Every message the listener posted to the main thread, which shows
        it to the activity and hands it to `handleEventFromServer`. */
    var posted: seq<UdpMessage>
    var toActivity: seq<StateBroadcast>
    /** Every state sent to both devices. */
    var toDevices: seq<DeviceState>

    constructor(playerId: JByte, serverAddress: Option<nat>)
      ensures this.playerId == playerId && this.serverAddress == serverAddress
      ensures !isGameRunning && !isPlayerDead && !isOnline && !teamPlay
      ensures lastPingTime == 0 && currentState == -1 && playerTeam == 0 && bulletsLeft == 0
      ensures firstEverMessage && listening
      ensures sent == [] && posted == [] && toActivity == [] && toDevices == []
    {
      this.playerId := playerId;
      this.serverAddress := serverAddress;
      isGameRunning := false;
      isPlayerDead := false;
      isOnline := false;
      teamPlay := false;
      lastPingTime := 0;
      currentState := -1;
      playerTeam := 0;
      bulletsLeft := 0;
      firstEverMessage := true;
      listening := true;
      sent := [];
      posted := [];
      toActivity := [];
      toDevices := [];
    }

    function StateForDevice(): DeviceState
      reads this
    {
      DeviceState(playerId, playerTeam, ToByte(currentState), bulletsLeft)
    }

    /** `evaluateCurrentState`: the activity and the devices hear of the
        state only when it changed. */
    method EvaluateCurrentState() returns (changed: bool)
      modifies this`currentState, this`toActivity, this`toDevices
      ensures currentState == LegacyDeriveState(isOnline, isGameRunning, isPlayerDead)
      ensures changed <==> currentState != old(currentState)
      ensures toActivity == old(toActivity) + (if changed then [StateBroadcast(currentState, teamPlay)] else [])
      ensures toDevices == old(toDevices) + (if changed then [StateForDevice()] else [])
    {
      var newState := LegacyDeriveState(isOnline, isGameRunning, isPlayerDead);
      changed := newState != currentState;
      if changed {
        currentState := newState;
        toActivity := toActivity + [StateBroadcast(currentState, teamPlay)];
        toDevices := toDevices + [StateForDevice()];
      }
    }

    /** `heartbeat` at time `now`: a strict timeout takes the service
        offline and re-evaluates the state; then the heartbeat goes to the
        server, or broadcast, and a successful send clears the first flag. */
    method Heartbeat(now: int, sendSucceeds: bool)
      modifies this`isOnline, this`currentState, this`toActivity, this`toDevices, this`sent, this`firstEverMessage
      ensures isOnline == (old(isOnline) && !TimedOut(now, lastPingTime))
      ensures TimedOut(now, lastPingTime) ==>
        && currentState == LegacyDeriveState(false, isGameRunning, isPlayerDead)
        && var changed := currentState != old(currentState);
        && toActivity == old(toActivity) + (if changed then [StateBroadcast(currentState, teamPlay)] else [])
        && toDevices == old(toDevices) + (if changed then [StateForDevice()] else [])
      ensures !TimedOut(now, lastPingTime) ==>
                currentState == old(currentState) && toActivity == old(toActivity) && toDevices == old(toDevices)
      ensures sent == old(sent) + (if sendSucceeds then [Datagram(DestinationFor(serverAddress),
                                                                  HeartbeatPacket(playerId, old(firstEverMessage)))]
                                   else [])
      ensures firstEverMessage == (old(firstEverMessage) && !sendSucceeds)
    {
      if now - lastPingTime > HEARTBEAT_TIMEOUT {
        isOnline := false;
        var _ := EvaluateCurrentState();
      }
      if sendSucceeds {
        var message := [PING, playerId, if firstEverMessage then 1 else 0];
        sent := sent + [Datagram(DestinationFor(serverAddress), message)];
        firstEverMessage := false;
      }
    }

    /** One pass of the listener: a datagram that decodes sets the server
        address if none is known, is posted, and stamps `lastPingTime`; one
        that does not ends the listener. */
    method ReceivePacket(packet: Arrival) returns (decoded: bool)
      requires listening
      modifies this`serverAddress, this`posted, this`lastPingTime, this`listening
      ensures decoded <==> LegacyReadable(packet).Success?
      ensures listening == decoded
      ensures decoded ==>
        && serverAddress == (if old(serverAddress).None? then Some(packet.source) else old(serverAddress))
        && posted == old(posted) + [LegacyReadable(packet).value]
        && lastPingTime == packet.time
      ensures !decoded ==>
        serverAddress == old(serverAddress) && posted == old(posted) && lastPingTime == old(lastPingTime)
    {
      var message := UdpMessages.FromBytes(packet.datagram, ReceivedLength(|packet.datagram|));
      if message.Failure? {
        listening := false;
        return false;
      }
      if serverAddress == None {
        serverAddress := Some(packet.source);
      }
      posted := posted + [message.value];
      lastPingTime := packet.time;
      return true;
    }

    /** The listener's `while (true)` loop over `arrivals`: it posts
        exactly the messages that decode up to the first that does not,
        learns the server address from the first datagram when none is
        known, and stops listening if some datagram failed. */
    method Listen(arrivals: seq<Arrival>)
      requires listening
      modifies this`serverAddress, this`posted, this`lastPingTime, this`listening
      ensures posted == old(posted) + Delivered(arrivals)
      ensures listening <==> |Delivered(arrivals)| == |arrivals|
      ensures serverAddress == (if old(serverAddress).None? && |Delivered(arrivals)| > 0
                                then Some(arrivals[0].source) else old(serverAddress))
      ensures lastPingTime == (if |Delivered(arrivals)| > 0 then arrivals[|Delivered(arrivals)| - 1].time
                               else old(lastPingTime))
    {
      ghost var delivered := Delivered(arrivals);
      var i := 0;
      while i < |arrivals| && listening
        invariant 0 <= i <= |arrivals|
        invariant listening ==> i <= |delivered|
        invariant !listening ==> i == |delivered| + 1
        invariant Received(arrivals, if listening then i else i - 1, old(posted), old(serverAddress), old(lastPingTime),
                           posted, serverAddress, lastPingTime)
      {
        ghost var p, a, t := posted, serverAddress, lastPingTime;
        var ok := ReceivePacket(arrivals[i]);
        if ok {
          assert i < |delivered|;
          ReceivedStep(arrivals, i, old(posted), old(serverAddress), old(lastPingTime), p, a, t);
        } else {
          assert i == |delivered|;
        }
        i := i + 1;
      }
      assert Received(arrivals, |delivered|, old(posted), old(serverAddress), old(lastPingTime),
                      posted, serverAddress, lastPingTime);
    }

    /** `handleEventFromServer`. Every message takes the service online and
        every event overwrites the bullet count; RESPAWN makes the player
        alive in a running game, GAME_OVER ends the game, GAME_START sets
        team play from the counterpart byte, YOU_KILLED makes the player
        dead, and FULL_STATS takes the flags, the team and whether the
        player is dead from the snapshot and always pushes the state to the
        devices. The state is then re-evaluated, except after GAME_TIMER. */
    method HandleEventFromServer(m: ServerEvent)
      requires CastsHold(m)
      modifies this`isOnline, this`bulletsLeft, this`isGameRunning, this`isPlayerDead, this`teamPlay,
               this`playerTeam, this`currentState, this`toActivity, this`toDevices
      ensures isOnline
      ensures bulletsLeft == if m.Event? then m.bulletsLeft else old(bulletsLeft)
      ensures var t, own := m.msgType, if m.Stats? then OwnEntry(m.players, playerId) else None;
        && isGameRunning == (if t == RESPAWN then true
                             else if t == GAME_OVER then false
                             else if t == FULL_STATS then m.isGameRunning
                             else old(isGameRunning))
        && isPlayerDead == (if t == RESPAWN then false
                            else if t == YOU_KILLED then true
                            else if t == FULL_STATS && own.Some? then own.value.health <= 0
                            else old(isPlayerDead))
        && teamPlay == (if t == GAME_START then m.counterpartPlayerId != 0
                        else if t == FULL_STATS then m.isTeamPlay
                        else old(teamPlay))
        && playerTeam == (if t == FULL_STATS && own.Some? then own.value.teamId else old(playerTeam))
      ensures m.msgType == GAME_TIMER ==>
        currentState == old(currentState) && toActivity == old(toActivity) && toDevices == old(toDevices)
      ensures m.msgType != GAME_TIMER ==>
        && currentState == LegacyDeriveState(isOnline, isGameRunning, isPlayerDead)
        && var changed := currentState != old(currentState);
        && toActivity == old(toActivity) + (if changed then [StateBroadcast(currentState, teamPlay)] else [])
        && toDevices == old(toDevices)
                        + (if m.msgType == FULL_STATS
                           then [DeviceState(playerId, playerTeam, ToByte(old(currentState)), bulletsLeft)] else [])
                        + (if changed then [StateForDevice()] else [])
    {
      ApplyServerEvent(m);
      if m.msgType != GAME_TIMER {
        var _ := EvaluateCurrentState();
      }
    }

    /** The part of `handleEventFromServer` before the re-evaluation. */
    method ApplyServerEvent(m: ServerEvent)
      requires CastsHold(m)
      modifies this`isOnline, this`bulletsLeft, this`isGameRunning, this`isPlayerDead, this`teamPlay,
               this`playerTeam, this`toDevices
      ensures isOnline
      ensures bulletsLeft == if m.Event? then m.bulletsLeft else old(bulletsLeft)
      ensures var t, own := m.msgType, if m.Stats? then OwnEntry(m.players, playerId) else None;
        && isGameRunning == (if t == RESPAWN then true
                             else if t == GAME_OVER then false
                             else if t == FULL_STATS then m.isGameRunning
                             else old(isGameRunning))
        && isPlayerDead == (if t == RESPAWN then false
                            else if t == YOU_KILLED then true
                            else if t == FULL_STATS && own.Some? then own.value.health <= 0
                            else old(isPlayerDead))
        && teamPlay == (if t == GAME_START then m.counterpartPlayerId != 0
                        else if t == FULL_STATS then m.isTeamPlay
                        else old(teamPlay))
        && playerTeam == (if t == FULL_STATS && own.Some? then own.value.teamId else old(playerTeam))
        && toDevices == old(toDevices) + (if t == FULL_STATS then [StateForDevice()] else [])
    {
      isOnline := true;
      if m.Event? {
        bulletsLeft := m.bulletsLeft;
      }
      var t := m.msgType;
      if t == RESPAWN {
        isGameRunning := true;
        isPlayerDead := false;
      } else if t == GAME_OVER {
        isGameRunning := false;
      } else if t == GAME_START {
        teamPlay := m.counterpartPlayerId != 0;
      } else if t == YOU_KILLED {
        isPlayerDead := true;
      } else if t == FULL_STATS {
        isGameRunning := m.isGameRunning;
        teamPlay := m.isTeamPlay;
        var own := OwnEntry(m.players, playerId);
        if own.Some? {
          playerTeam := own.value.teamId;
          isPlayerDead := own.value.health <= 0;
        }
        toDevices := toDevices + [StateForDevice()];
      }
    }

    /** `handleBluetoothMessage`: type, own id and counterpart go to the
        server, or broadcast. A failed send throws out of the handler into
        the serial link's read loop, which treats it as a lost connection. */
    method HandleBluetoothMessage(message: MessageFromDevice, sendSucceeds: bool) returns (threw: bool)
      modifies this`sent
      ensures threw <==> !sendSucceeds
      ensures sent == old(sent) + (if sendSucceeds then [Datagram(DestinationFor(serverAddress),
                                                                  DevicePacket(message, playerId))]
                                   else [])
    {
      if !sendSucceeds {
        return true;
      }
      var raw := [message.msgType, playerId, message.counterpartPlayerId];
      sent := sent + [Datagram(DestinationFor(serverAddress), raw)];
      return false;
    }
  }
}
