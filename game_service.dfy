/** The current generation's match engine (`GameService`): it derives the
    aggregate state OFFLINE/IDLE/GAME/DEAD, runs the game and respawn
    countdowns, applies server events (game start, snapshot merge, score,
    game over) and device events (shots, reloads, hits), and reports to the
    activity, the two devices and the server. Sounds are not modelled; the
    UDP link's `isOnline()` is a parameter; scheduled respawns are recorded
    as pending delays and fired by `FireRespawn`. */
module GameServices {
  import opened JavaBytes
  import opened Options
  import opened MessageTypes
  import opened WirelessMessages
  import opened Config
  import opened Rosters

  const TIMER_GAME: nat := 0
  const TIMER_RESPAWN: nat := 1

  /** The aggregate state, as `evaluateCurrentState` derives it. */
  function DeriveState(udpOnline: bool, isGameRunning: bool, isGameStartPending: bool, alive: bool): (s: int)
    ensures s == STATE_OFFLINE <==> !udpOnline
    ensures s == STATE_IDLE <==> udpOnline && (!isGameRunning || isGameStartPending)
    ensures s == STATE_DEAD <==> udpOnline && isGameRunning && !isGameStartPending && !alive
    ensures s == STATE_GAME <==> udpOnline && isGameRunning && !isGameStartPending && alive
  {
    if !udpOnline then STATE_OFFLINE
    else if !isGameRunning || isGameStartPending then STATE_IDLE
    else if !alive then STATE_DEAD
    else STATE_GAME
  }

  /** One second off a countdown, never below zero. */
  function Tick(v: int): (r: int)
    ensures r >= 0
    ensures v >= 1 ==> r == v - 1
    ensures v < 1 ==> r == 0
  {
    if v - 1 < 0 then 0 else v - 1
  }

  /** What the activity is shown for a counter value `v >= 0`: minutes and
      seconds, each narrowed to a byte. */
  function TimeDisplay(v: nat): WirelessMessage
  {
    TimeMessage(GAME_TIMER, ToByte(v / 60), ToByte(v % 60))
  }

  /** Below 128 minutes the display is exact. */
  lemma TimeDisplayExact(v: nat)
    requires v < 128 * 60
    ensures TimeDisplay(v).minutes * 60 + TimeDisplay(v).seconds == v
    ensures 0 <= TimeDisplay(v).seconds < 60
  {
    ToByteOfByte(v / 60);
    ToByteOfByte(v % 60);
  }

  /** From 128 minutes on the minutes wrap to negative values: a counter
      of 127 * 60 + 127 seconds, which a FULL_STATS snapshot can set as the
      game countdown, shows -127 minutes. */
  lemma TimeDisplayWraps()
    ensures TimeDisplay(127 * 60 + 127).minutes == -127
    ensures TimeDisplay(127 * 60 + 127).seconds == 7
  {
  }

  /** The two broadcast actions. */
  datatype Intercom = GameMessageAction | TimeTickAction

  /** What the activity is sent: the current state with the team-play flag,
      or a message together with the local player. */
  datatype ActivityNote =
    | CurrentStateNote(state: int, teamPlay: bool)
    | MessageNote(action: Intercom, message: WirelessMessage, player: Player)

  /** `sendMessageToActivity`: PING messages are not shown; a snapshot is
      shown with the merged roster in place of its own players. */
  function ForActivity(message: WirelessMessage, action: Intercom, roster: seq<Player>, me: Player): (r: seq<ActivityNote>)
    ensures r == [] <==> message.msgType == PING
    ensures r != [] ==> r[0].MessageNote? && r[0].action == action && r[0].player == me
                        && r[0].message.msgType == message.msgType
    ensures r != [] && message.StatsMessageIn? ==> r[0].message == message.(players := roster)
    ensures r != [] && !message.StatsMessageIn? ==> r[0].message == message
  {
    if message.msgType == PING then []
    else if message.StatsMessageIn? then [MessageNote(action, message.(players := roster), me)]
    else [MessageNote(action, message, me)]
  }

  /** How a device event ends: handled to the end, dropped as friendly fire,
      or a NullPointerException because the attacker is not in the roster. */
  datatype DeviceOutcome = Handled | FriendlyFire | UnknownAttacker

  class GameService {
    const playerId: JByte
    const ops: PlayerOps
    var currentState: int
    var isGameRunning: bool
    var isGameStartPending: bool
    var teamPlay: bool
    var respawnTimeoutSeconds: int
    /** The game countdown at TIMER_GAME, the respawn countdown at
        TIMER_RESPAWN, in seconds. */
    const timerCounters: array<int>
    /** `thisPlayer`. */
    var me: Player
    /** `allPlayersSnapshot`. */
    var roster: seq<Player>
    var toActivity: seq<ActivityNote>
    /** Every message sent to both devices. */
    var toDevices: seq<WirelessMessage>
    /** Every event handed to the UDP client. */
    var toServer: seq<WirelessMessage>
    /** The delays, in seconds, of the respawns scheduled and not yet run. */
    var pendingRespawns: seq<int>

    ghost predicate Valid()
      reads this
    {
      timerCounters.Length == 2
    }

    /** `thisPlayer` is `new Player(playerId)`; its other fields come from a
        constructor that is not part of this model, so it is a parameter. */
    constructor(playerId: JByte, ops: PlayerOps, me: Player)
      ensures Valid() && fresh(timerCounters)
      ensures this.playerId == playerId && this.ops == ops && this.me == me
      ensures currentState == -1 && !isGameRunning && !isGameStartPending && !teamPlay
      ensures respawnTimeoutSeconds == 0 && timerCounters[..] == [0, 0]
      ensures roster == [] && toActivity == [] && toDevices == [] && toServer == [] && pendingRespawns == []
    {
      this.playerId := playerId;
      this.ops := ops;
      this.me := me;
      currentState := -1;
      isGameRunning := false;
      isGameStartPending := false;
      teamPlay := false;
      respawnTimeoutSeconds := 0;
      timerCounters := new int[2](_ => 0);
      roster := [];
      toActivity := [];
      toDevices := [];
      toServer := [];
      pendingRespawns := [];
    }

    /** The state packet both devices are sent. */
    function StateForDevice(): WirelessMessage
      reads this
    {
      MessageToDevice(DEVICE_PLAYER_STATE, playerId, ToByte(me.teamId), ToByte(currentState), ToByte(me.bulletsLeft))
    }

    method SendCurrentStateToDevice()
      modifies this`toDevices
      ensures toDevices == old(toDevices) + [StateForDevice()]
    {
      toDevices := toDevices + [StateForDevice()];
    }

    method SendMessageToActivity(message: WirelessMessage, action: Intercom)
      modifies this`toActivity
      ensures toActivity == old(toActivity) + ForActivity(message, action, roster, me)
    {
      if message.msgType == PING {
        return;
      }
      if message.StatsMessageIn? {
        toActivity := toActivity + [MessageNote(action, message.(players := roster), me)];
      } else {
        toActivity := toActivity + [MessageNote(action, message, me)];
      }
    }

    /** `evaluateCurrentState`: the new state is derived from the flags;
        the activity and the devices hear of it only when it changed, and
        the result says whether it did. */
    method EvaluateCurrentState(udpOnline: bool) returns (changed: bool)
      modifies this`currentState, this`toActivity, this`toDevices
      ensures currentState == DeriveState(udpOnline, isGameRunning, isGameStartPending, ops.isAlive(me))
      ensures changed <==> currentState != old(currentState)
      ensures toActivity == old(toActivity) + (if changed then [CurrentStateNote(currentState, teamPlay)] else [])
      ensures toDevices == old(toDevices) + (if changed then [StateForDevice()] else [])
    {
      var newState := DeriveState(udpOnline, isGameRunning, isGameStartPending, ops.isAlive(me));
      if newState != currentState {
        currentState := newState;
        toActivity := toActivity + [CurrentStateNote(currentState, teamPlay)];
        SendCurrentStateToDevice();
        return true;
      }
      return false;
    }

    /** `timerTick`, once a second: nothing unless a game runs or a start is
        pending; otherwise both countdowns lose a second, stopping at zero,
        and the activity is shown the game countdown in state GAME and the
        respawn countdown otherwise. */
    method TimerTick()
      requires Valid()
      modifies timerCounters, this`toActivity
      ensures Valid()
      ensures !isGameStartPending && !isGameRunning ==>
                timerCounters[..] == old(timerCounters[..]) && toActivity == old(toActivity)
      ensures isGameStartPending || isGameRunning ==>
        && timerCounters[..] == [Tick(old(timerCounters[TIMER_GAME])), Tick(old(timerCounters[TIMER_RESPAWN]))]
        && toActivity == old(toActivity) + ForActivity(
             TimeDisplay(timerCounters[if currentState == STATE_GAME then TIMER_GAME else TIMER_RESPAWN]),
             TimeTickAction, roster, me)
    {
      if !isGameStartPending && !isGameRunning {
        return;
      }
      for i := 0 to 2
        invariant forall j :: 0 <= j < i ==> timerCounters[j] == Tick(old(timerCounters[j]))
        invariant forall j :: i <= j < 2 ==> timerCounters[j] == old(timerCounters[j])
        invariant toActivity == old(toActivity)
      {
        var v := timerCounters[i] - 1;
        if v < 0 {
          v := 0;
        }
        timerCounters[i] := v;
      }
      var timerId := if currentState == STATE_GAME then TIMER_GAME else TIMER_RESPAWN;
      SendMessageToActivity(TimeDisplay(timerCounters[timerId]), TimeTickAction);
    }

    /** `respawn`: the game runs and no start is pending any more, the
        player respawns, the state is re-evaluated, and the server and the
        activity are told. */
    method Respawn(udpOnline: bool)
      modifies this`isGameRunning, this`isGameStartPending, this`me, this`currentState,
               this`toActivity, this`toDevices, this`toServer
      ensures isGameRunning && !isGameStartPending && me == ops.respawn(old(me))
      ensures currentState == DeriveState(udpOnline, true, false, ops.isAlive(me))
      ensures var changed := currentState != old(currentState);
        && toActivity == old(toActivity) + (if changed then [CurrentStateNote(currentState, teamPlay)] else [])
                         + [MessageNote(GameMessageAction, EventMessageIn(RESPAWN, 0), me)]
        && toDevices == old(toDevices) + (if changed then [StateForDevice()] else [])
      ensures toServer == old(toServer) + [EventToServer(RESPAWN, me, 0)]
    {
      isGameRunning := true;
      isGameStartPending := false;
      me := ops.respawn(me);
      var _ := EvaluateCurrentState(udpOnline);
      toServer := toServer + [EventToServer(RESPAWN, me, 0)];
      SendMessageToActivity(EventMessageIn(RESPAWN, 0), GameMessageAction);
    }

    /** The executor running the scheduled respawn at index `k`. */
    method FireRespawn(k: nat, udpOnline: bool)
      requires k < |pendingRespawns|
      modifies this`pendingRespawns, this`isGameRunning, this`isGameStartPending, this`me,
               this`currentState, this`toActivity, this`toDevices, this`toServer
      ensures pendingRespawns == old(pendingRespawns[..k] + pendingRespawns[k + 1..])
      ensures isGameRunning && !isGameStartPending && me == ops.respawn(old(me))
      ensures currentState == DeriveState(udpOnline, true, false, ops.isAlive(me))
      ensures var changed := currentState != old(currentState);
        && toActivity == old(toActivity) + (if changed then [CurrentStateNote(currentState, teamPlay)] else [])
                         + [MessageNote(GameMessageAction, EventMessageIn(RESPAWN, 0), me)]
        && toDevices == old(toDevices) + (if changed then [StateForDevice()] else [])
      ensures toServer == old(toServer) + [EventToServer(RESPAWN, me, 0)]
    {
      pendingRespawns := pendingRespawns[..k] + pendingRespawns[k + 1..];
      Respawn(udpOnline);
    }

    /** GAME_START: a start is pending, team play and the respawn timeout
        are taken from the message, the game countdown is set to the game
        time plus the start delay and the respawn countdown to the start
        delay, and a respawn is scheduled after the start delay. */
    method OnGameStart(m: WirelessMessage)
      requires Valid() && m.GameStartMessageIn?
      modifies this`isGameStartPending, this`teamPlay, this`respawnTimeoutSeconds, timerCounters, this`pendingRespawns
      ensures Valid()
      ensures isGameStartPending && teamPlay == m.teamPlay && respawnTimeoutSeconds == m.respawnTime
      ensures timerCounters[..] == [m.gameTimeMinutes * 60 + m.startDelaySeconds, m.startDelaySeconds]
      ensures pendingRespawns == old(pendingRespawns) + [m.startDelaySeconds]
    {
      isGameStartPending := true;
      teamPlay := m.teamPlay;
      respawnTimeoutSeconds := m.respawnTime;
      timerCounters[TIMER_GAME] := m.gameTimeMinutes * 60 + m.startDelaySeconds;
      timerCounters[TIMER_RESPAWN] := m.startDelaySeconds;
      pendingRespawns := pendingRespawns + [m.startDelaySeconds];
    }

    /** FULL_STATS: running and team play are taken from the snapshot, the
        game countdown is overwritten, the snapshot's players are merged
        into the roster, which is then sorted, and the local player copies
        its own entry if there is one. */
    method OnSnapshot(m: WirelessMessage)
      requires Valid() && m.StatsMessageIn?
      modifies this`isGameRunning, this`teamPlay, timerCounters, this`roster, this`me
      ensures Valid()
      ensures isGameRunning == m.isGameRunning && teamPlay == m.isTeamPlay
      ensures timerCounters[..] == [m.gameTimerSeconds, old(timerCounters[TIMER_RESPAWN])]
      ensures roster == SortRoster(MergeAll(old(roster), m.players, ops), ops)
      ensures me == match FirstWithId(roster, playerId)
                    case Some(mine) => ops.copyPlayerValuesFrom(old(me), mine)
                    case None => old(me)
    {
      isGameRunning := m.isGameRunning;
      teamPlay := m.isTeamPlay;
      timerCounters[TIMER_GAME] := m.gameTimerSeconds;
      MergeSnapshot(m.players);
      roster := SortRoster(roster, ops);
      var myData := FirstWithId(roster, playerId);
      if myData.Some? {
        me := ops.copyPlayerValuesFrom(me, myData.value);
      }
    }

    /** The loop over the snapshot's players. */
    method MergeSnapshot(updates: seq<Player>)
      modifies this`roster
      ensures roster == MergeAll(old(roster), updates, ops)
    {
      for k := 0 to |updates|
        invariant roster == MergeAll(old(roster), updates[..k], ops)
      {
        assert updates[..k + 1][..k] == updates[..k];
        var u := updates[k];
        var contained := ContainsPlayer(u);
        if !contained {
          roster := roster + [u];
        } else {
          CopyIntoEntriesWithId(u);
        }
      }
      assert updates[..|updates|] == updates;
    }

    /** `allPlayersSnapshot.contains(u)`. */
    method ContainsPlayer(u: Player) returns (found: bool)
      ensures found == Contains(roster, u, ops.equals)
    {
      found := false;
      var i := 0;
      while i < |roster|
        invariant 0 <= i <= |roster|
        invariant forall j :: 0 <= j < i ==> !ops.equals(u, roster[j])
      {
        if ops.equals(u, roster[i]) {
          return true;
        }
        i := i + 1;
      }
    }

    /** The inner for-each: every entry with `u`'s id copies `u`'s values
        in place. */
    method CopyIntoEntriesWithId(u: Player)
      modifies this`roster
      ensures roster == UpdateById(old(roster), u, ops.copyPlayerValuesFrom)
    {
      ghost var before := roster;
      for i := 0 to |roster|
        invariant |roster| == |before|
        invariant forall j :: 0 <= j < i ==> roster[j] == UpdateById(before, u, ops.copyPlayerValuesFrom)[j]
        invariant forall j :: i <= j < |roster| ==> roster[j] == before[j]
      {
        if roster[i].id == u.id {
          roster := roster[i := ops.copyPlayerValuesFrom(roster[i], u)];
        }
      }
      assert roster == UpdateById(before, u, ops.copyPlayerValuesFrom);
    }

    /** `handleEventFromServer`. GAME_OVER stops the game, YOU_SCORED adds a
        point, GAME_START and FULL_STATS are applied as above; the message
        is then shown to the activity, the state is re-evaluated, and the
        devices are sent the state exactly once whether or not it changed. */
    method HandleEventFromServer(message: WirelessMessage, udpOnline: bool)
      requires Valid()
      requires message.msgType == GAME_START ==> message.GameStartMessageIn?
      requires message.msgType == FULL_STATS ==> message.StatsMessageIn?
      modifies this`isGameRunning, this`isGameStartPending, this`teamPlay, this`respawnTimeoutSeconds,
               timerCounters, this`pendingRespawns, this`roster, this`me,
               this`currentState, this`toActivity, this`toDevices
      ensures Valid()
      ensures var t := message.msgType;
        && isGameRunning == (if t == GAME_OVER then false
                             else if t == FULL_STATS then message.isGameRunning
                             else old(isGameRunning))
        && isGameStartPending == (old(isGameStartPending) || t == GAME_START)
        && teamPlay == (if t == GAME_START then message.teamPlay
                        else if t == FULL_STATS then message.isTeamPlay
                        else old(teamPlay))
        && respawnTimeoutSeconds == (if t == GAME_START then message.respawnTime else old(respawnTimeoutSeconds))
        && pendingRespawns == old(pendingRespawns) + (if t == GAME_START then [message.startDelaySeconds] else [])
        && roster == (if t == FULL_STATS then SortRoster(MergeAll(old(roster), message.players, ops), ops)
                      else old(roster))
      ensures var t := message.msgType;
        && timerCounters[..] == (if t == GAME_START then [message.gameTimeMinutes * 60 + message.startDelaySeconds,
                                                          message.startDelaySeconds]
                                 else if t == FULL_STATS then [message.gameTimerSeconds, old(timerCounters[TIMER_RESPAWN])]
                                 else old(timerCounters[..]))
        && me == (if t == YOU_SCORED then old(me).(score := old(me).score + 1)
                  else if t == FULL_STATS && FirstWithId(roster, playerId).Some?
                  then ops.copyPlayerValuesFrom(old(me), FirstWithId(roster, playerId).value)
                  else old(me))
      ensures currentState == DeriveState(udpOnline, isGameRunning, isGameStartPending, ops.isAlive(me))
      ensures var changed := currentState != old(currentState);
        && toActivity == old(toActivity) + ForActivity(message, GameMessageAction, roster, me)
                         + (if changed then [CurrentStateNote(currentState, teamPlay)] else [])
        && toDevices == old(toDevices) + [StateForDevice()]
    {
      ApplyServerEvent(message);
      ReportServerEvent(message, udpOnline);
    }

    /** The `switch` of `handleEventFromServer`. */
    method ApplyServerEvent(message: WirelessMessage)
      requires Valid()
      requires message.msgType == GAME_START ==> message.GameStartMessageIn?
      requires message.msgType == FULL_STATS ==> message.StatsMessageIn?
      modifies this`isGameRunning, this`isGameStartPending, this`teamPlay, this`respawnTimeoutSeconds,
               timerCounters, this`pendingRespawns, this`roster, this`me
      ensures Valid()
      ensures var t := message.msgType;
        && isGameRunning == (if t == GAME_OVER then false
                             else if t == FULL_STATS then message.isGameRunning
                             else old(isGameRunning))
        && isGameStartPending == (old(isGameStartPending) || t == GAME_START)
        && teamPlay == (if t == GAME_START then message.teamPlay
                        else if t == FULL_STATS then message.isTeamPlay
                        else old(teamPlay))
        && respawnTimeoutSeconds == (if t == GAME_START then message.respawnTime else old(respawnTimeoutSeconds))
        && pendingRespawns == old(pendingRespawns) + (if t == GAME_START then [message.startDelaySeconds] else [])
        && roster == (if t == FULL_STATS then SortRoster(MergeAll(old(roster), message.players, ops), ops)
                      else old(roster))
      ensures var t := message.msgType;
        && timerCounters[..] == (if t == GAME_START then [message.gameTimeMinutes * 60 + message.startDelaySeconds,
                                                          message.startDelaySeconds]
                                 else if t == FULL_STATS then [message.gameTimerSeconds, old(timerCounters[TIMER_RESPAWN])]
                                 else old(timerCounters[..]))
        && me == (if t == YOU_SCORED then old(me).(score := old(me).score + 1)
                  else if t == FULL_STATS && FirstWithId(roster, playerId).Some?
                  then ops.copyPlayerValuesFrom(old(me), FirstWithId(roster, playerId).value)
                  else old(me))
    {
      var t := message.msgType;
      if t == GAME_OVER {
        isGameRunning := false;
      } else if t == GAME_START {
        OnGameStart(message);
      } else if t == YOU_SCORED {
        me := me.(score := me.score + 1);
      } else if t == FULL_STATS {
        OnSnapshot(message);
      }
    }

    /** The tail of `handleEventFromServer`: the activity is shown the
        message, the state is re-evaluated, and when it did not change the
        devices are sent it anyway, so they hear it exactly once. */
    method ReportServerEvent(message: WirelessMessage, udpOnline: bool)
      modifies this`currentState, this`toActivity, this`toDevices
      ensures currentState == DeriveState(udpOnline, isGameRunning, isGameStartPending, ops.isAlive(me))
      ensures var changed := currentState != old(currentState);
        && toActivity == old(toActivity) + ForActivity(message, GameMessageAction, roster, me)
                         + (if changed then [CurrentStateNote(currentState, teamPlay)] else [])
        && toDevices == old(toDevices) + [StateForDevice()]
    {
      SendMessageToActivity(message, GameMessageAction);
      var changed := EvaluateCurrentState(udpOnline);
      if !changed {
        SendCurrentStateToDevice();
      }
    }

    /** A GOT_HIT from `attacker`: dropped as friendly fire when the teams
        match, whether or not the game is a team game; otherwise the damage
        is applied and a lethal hit re-evaluates the state, sets the respawn
        countdown to the respawn timeout and schedules a respawn after it.
        The result is the type then reported. */
    method OnHit(attacker: Player, udpOnline: bool) returns (reported: JByte)
      requires Valid() && attacker.teamId != me.teamId
      modifies this`me, this`currentState, this`toActivity, this`toDevices, timerCounters, this`pendingRespawns
      ensures Valid()
      ensures me == ops.decreaseHealth(old(me), attacker.damage)
      ensures var killed := !ops.isAlive(me);
        && reported == (if killed then YOU_KILLED else GOT_HIT)
        && currentState == (if killed then DeriveState(udpOnline, isGameRunning, isGameStartPending, false)
                            else old(currentState))
        && var changed := currentState != old(currentState);
        && toActivity == old(toActivity) + (if changed then [CurrentStateNote(currentState, teamPlay)] else [])
        && toDevices == old(toDevices) + (if changed then [StateForDevice()] else [])
        && timerCounters[..] == (if killed then old(timerCounters[..])[TIMER_RESPAWN := respawnTimeoutSeconds]
                                 else old(timerCounters[..]))
        && pendingRespawns == old(pendingRespawns) + (if killed then [respawnTimeoutSeconds] else [])
    {
      me := ops.decreaseHealth(me, attacker.damage);
      reported := GOT_HIT;
      if !ops.isAlive(me) {
        var _ := EvaluateCurrentState(udpOnline);
        reported := YOU_KILLED;
        timerCounters[TIMER_RESPAWN] := respawnTimeoutSeconds;
        pendingRespawns := pendingRespawns + [respawnTimeoutSeconds];
      }
    }

    /** `handleEventFromDevice`. DEVICE_CONNECTED sends the state to the
        devices; GUN_SHOT spends a bullet, or without bullets becomes
        GUN_NO_BULLETS, which the server is never sent; GUN_RELOAD reloads;
        GOT_HIT is handled by `OnHit`. The event, under the type it ends up
        with, then goes to the server and the activity. */
    method HandleEventFromDevice(message: WirelessMessage, udpOnline: bool) returns (outcome: DeviceOutcome)
      requires Valid() && message.EventMessageIn?
      modifies this`me, this`currentState, this`toActivity, this`toDevices, this`toServer,
               timerCounters, this`pendingRespawns
      ensures Valid()
      ensures var t, attacker := message.msgType, FirstWithId(roster, message.payload);
        && (outcome == UnknownAttacker <==> t == GOT_HIT && attacker.None?)
        && (outcome == FriendlyFire <==> t == GOT_HIT && attacker.Some? && attacker.value.teamId == old(me).teamId)
      ensures outcome != Handled ==>
        && me == old(me) && currentState == old(currentState) && toActivity == old(toActivity)
        && toDevices == old(toDevices) && toServer == old(toServer)
        && timerCounters[..] == old(timerCounters[..]) && pendingRespawns == old(pendingRespawns)
      ensures outcome == Handled ==>
        var t := message.msgType;
        && me == (if t == GUN_SHOT && old(me).bulletsLeft > 0 then ops.decreaseBullets(old(me))
                  else if t == GUN_RELOAD then ops.reload(old(me))
                  else if t == GOT_HIT then ops.decreaseHealth(old(me), FirstWithId(roster, message.payload).value.damage)
                  else old(me))
        && var reported := if t == GUN_SHOT && old(me).bulletsLeft <= 0 then GUN_NO_BULLETS
                           else if t == GOT_HIT && !ops.isAlive(me) then YOU_KILLED
                           else t;
        && toServer == old(toServer) + (if reported == GUN_NO_BULLETS then []
                                        else [EventToServer(reported, me, message.payload)])
        && var killed := t == GOT_HIT && !ops.isAlive(me);
        && currentState == (if killed then DeriveState(udpOnline, isGameRunning, isGameStartPending, false)
                            else old(currentState))
        && var changed := currentState != old(currentState);
        && toActivity == old(toActivity) + (if changed then [CurrentStateNote(currentState, teamPlay)] else [])
                         + ForActivity(EventMessageIn(reported, message.payload), GameMessageAction, roster, me)
        && toDevices == old(toDevices) + (if t == DEVICE_CONNECTED then [StateForDevice()] else [])
                        + (if changed then [StateForDevice()] else [])
        && timerCounters[..] == (if killed then old(timerCounters[..])[TIMER_RESPAWN := respawnTimeoutSeconds]
                                 else old(timerCounters[..]))
        && pendingRespawns == old(pendingRespawns) + (if killed then [respawnTimeoutSeconds] else [])
      ensures forall i :: |old(toServer)| <= i < |toServer| ==> toServer[i].msgType != GUN_NO_BULLETS
    {
      var t := message.msgType;
      var extraValue := message.payload;
      if t == DEVICE_CONNECTED {
        SendCurrentStateToDevice();
      } else if t == GUN_SHOT {
        if me.bulletsLeft > 0 {
          me := ops.decreaseBullets(me);
        } else {
          t := GUN_NO_BULLETS;
        }
      } else if t == GUN_RELOAD {
        me := ops.reload(me);
      } else if t == GOT_HIT {
        var otherPlayer := FirstWithId(roster, extraValue);
        if otherPlayer.None? {
          return UnknownAttacker;
        }
        if otherPlayer.value.teamId == me.teamId {
          return FriendlyFire;
        }
        t := OnHit(otherPlayer.value, udpOnline);
      }
      if t != GUN_NO_BULLETS {
        toServer := toServer + [EventToServer(t, me, extraValue)];
      }
      SendMessageToActivity(EventMessageIn(t, extraValue), GameMessageAction);
      outcome := Handled;
    }
  }
}
