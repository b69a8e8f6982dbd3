/** The current generation's datagram link to the game server: a heartbeat
    that reports lost connection after a strict timeout and announces the
    first heartbeat after each start, a receive loop that decodes each
    packet and hands it on, and the choice of destination for outgoing
    events. The clock and the network's behaviour are parameters. */
module UdpClients {
  import opened JavaBytes
  import opened Options
  import opened MessageTypes
  import opened WirelessMessages
  import opened ByteBuffers
  import opened Messaging
  import opened Config
  import opened Liveness

  /** The receive loop reads into a 512-byte buffer; a longer datagram is
      cut to its first 512 bytes. */
  const RECEIVE_BUFFER_SIZE: nat := 512

  /** What the heartbeat hands to the handler on a timeout. */
  const LostConnection: WirelessMessage := SignalMessage(SERVER_DISCONNECTED)

  /** The number of bytes of a datagram of `n` bytes that the receive loop
      sees. */
  function ReceivedLength(n: nat): (m: nat)
    ensures m <= n && m <= RECEIVE_BUFFER_SIZE
    ensures m == n || m == RECEIVE_BUFFER_SIZE
  {
    if n < RECEIVE_BUFFER_SIZE then n else RECEIVE_BUFFER_SIZE
  }

  /** A datagram as the receive loop gets it: its bytes, the sender's
      address and the time of arrival. */
  datatype Arrival = Arrival(datagram: seq<JByte>, source: nat, time: int)

  /** What the receive loop makes of one datagram. */
  function Readable(a: Arrival): Result<WirelessMessage>
  {
    Decode(a.datagram[..ReceivedLength(|a.datagram|)])
  }

  /** The messages handed on for `arrivals`, in order: a datagram that
      does not decode ends the inner loop, and the outer loop opens a new
      socket and goes on with the next one. */
  function Accepted(arrivals: seq<Arrival>): (r: seq<WirelessMessage>)
    ensures |r| <= |arrivals|
    ensures r == [] <==> forall i :: 0 <= i < |arrivals| ==> Readable(arrivals[i]).Failure?
  {
    if arrivals == [] then []
    else
      var last := arrivals[|arrivals| - 1];
      Accepted(arrivals[..|arrivals| - 1]) + (if Readable(last).Success? then [Readable(last).value] else [])
  }

  /** The index of the first datagram that decodes, if any. */
  function FirstDecoded(arrivals: seq<Arrival>): (r: Option<nat>)
    ensures r.None? <==> forall i :: 0 <= i < |arrivals| ==> Readable(arrivals[i]).Failure?
    ensures r.Some? ==> r.value < |arrivals| && Readable(arrivals[r.value]).Success?
    ensures r.Some? ==> forall j :: 0 <= j < r.value ==> Readable(arrivals[j]).Failure?
  {
    if arrivals == [] then None
    else
      var n := |arrivals| - 1;
      var first := FirstDecoded(arrivals[..n]);
      assert forall i :: 0 <= i < n ==> arrivals[..n][i] == arrivals[i];
      if first.Some? then first
      else if Readable(arrivals[n]).Success? then Some(n)
      else None
  }

  /** The index of the last datagram that decodes, if any. */
  function LastDecoded(arrivals: seq<Arrival>): (r: Option<nat>)
    ensures r.None? <==> forall i :: 0 <= i < |arrivals| ==> Readable(arrivals[i]).Failure?
    ensures r.Some? ==> r.value < |arrivals| && Readable(arrivals[r.value]).Success?
    ensures r.Some? ==> forall j :: r.value < j < |arrivals| ==> Readable(arrivals[j]).Failure?
  {
    if arrivals == [] then None
    else
      var n := |arrivals| - 1;
      if Readable(arrivals[n]).Success? then Some(n)
      else
        var before := LastDecoded(arrivals[..n]);
        assert forall i :: 0 <= i < n ==> arrivals[..n][i] == arrivals[i];
        before
  }

  /** The sender of the first datagram that decodes, if any. */
  function FirstSourceOf(arrivals: seq<Arrival>): Option<nat>
  {
    match FirstDecoded(arrivals)
    case Some(i) => Some(arrivals[i].source)
    case None => None
  }

  /** The fields the receive loop changes. */
  datatype ListenerState = ListenerState(handled: seq<WirelessMessage>, address: Option<nat>, online: bool, time: int)

  /** The listener's fields `s` after the datagrams `arrivals`, starting
      from `s0`: the messages that decode are handed on in order, the first
      fixes an unknown server address, any of them marks the client online
      and the last sets `lastPingTime`. */
  ghost predicate Listened(arrivals: seq<Arrival>, s0: ListenerState, s: ListenerState)
  {
    && s.handled == s0.handled + Accepted(arrivals)
    && s.address == (if s0.address.Some? then s0.address else FirstSourceOf(arrivals))
    && s.online == (s0.online || Accepted(arrivals) != [])
    && s.time == (if LastDecoded(arrivals).Some? then arrivals[LastDecoded(arrivals).value].time else s0.time)
  }

  /** One datagram taken the way the receive loop takes it. */
  function Take(s: ListenerState, a: Arrival): ListenerState
  {
    match Readable(a)
    case Success(m) => ListenerState(s.handled + [m], if s.address.Some? then s.address else Some(a.source), true, a.time)
    case Failure(_) => s
  }

  /** The datagrams `arrivals` taken one after another. */
  function AfterArrivals(s0: ListenerState, arrivals: seq<Arrival>): ListenerState
  {
    if arrivals == [] then s0
    else Take(AfterArrivals(s0, arrivals[..|arrivals| - 1]), arrivals[|arrivals| - 1])
  }

  /** Taking one more datagram keeps the description true. */
  lemma ListenStep(arrivals: seq<Arrival>, i: nat, s0: ListenerState, s: ListenerState)
    requires i < |arrivals| && Listened(arrivals[..i], s0, s)
    ensures Listened(arrivals[..i + 1], s0, Take(s, arrivals[i]))
  {
    var before, after := arrivals[..i], arrivals[..i + 1];
    assert after[..i] == before && after[i] == arrivals[i];
    var d := Readable(arrivals[i]);
    assert Accepted(after) == Accepted(before) + (if d.Success? then [d.value] else []);
    assert LastDecoded(after) == if d.Success? then Some(i) else LastDecoded(before);
    assert FirstDecoded(after) == if FirstDecoded(before).Some? then FirstDecoded(before)
                                  else if d.Success? then Some(i) else None;
  }

  /** What taking the datagrams amounts to. */
  lemma {:induction false} AfterArrivalsListened(s0: ListenerState, arrivals: seq<Arrival>)
    ensures Listened(arrivals, s0, AfterArrivals(s0, arrivals))
    decreases |arrivals|
  {
    if arrivals == [] {
      assert Accepted(arrivals) == [];
    } else {
      var n := |arrivals| - 1;
      var before := AfterArrivals(s0, arrivals[..n]);
      AfterArrivalsListened(s0, arrivals[..n]);
      ListenStep(arrivals, n, s0, before);
      assert arrivals[..n + 1] == arrivals;
    }
  }

  /** The sending socket: never created, open, or closed by `stop`. */
  datatype SocketState = NoSocket | Open | Closed

  class UdpClient {
    const playerId: JByte
    var running: bool
    var socket: SocketState
    var isOnline: bool
    var lastPingTime: int
    var firstEverMessage: bool
    /** The configured server address, once known. */
    var serverAddress: Option<nat>
    /** How many times `start` has scheduled the heartbeat and the loop. */
    var launches: nat
    /** Every datagram the socket accepted. */
    var sent: seq<Datagram>
    /** Every message handed to `handleWirelessEvent`. */
    var handled: seq<WirelessMessage>
    /** `sent` had this length at the last effective `start`. */
    ghost var startMark: nat

    /** Since the last start at most one first heartbeat has gone out, and
        none has while the flag is still set. */
    ghost predicate Valid()
      reads this
    {
      && startMark <= |sent|
      && FirstHeartbeats(sent[startMark..]) + (if firstEverMessage then 1 else 0) <= 1
    }

    constructor(playerId: JByte, serverAddress: Option<nat>)
      ensures Valid()
      ensures this.playerId == playerId && this.serverAddress == serverAddress
      ensures !running && socket == NoSocket && !isOnline && lastPingTime == 0 && !firstEverMessage
      ensures launches == 0 && sent == [] && handled == []
    {
      this.playerId := playerId;
      this.serverAddress := serverAddress;
      running := false;
      socket := NoSocket;
      isOnline := false;
      lastPingTime := 0;
      firstEverMessage := false;
      launches := 0;
      sent := [];
      handled := [];
      startMark := 0;
    }

    /** `start` acts only when not running: it sets the first-message flag,
        opens the socket and schedules the heartbeat and the loop. When
        the socket cannot be created it throws after setting `running`, so
        later calls do nothing. */
    method Start(socketCreated: bool) returns (threw: bool)
      requires Valid()
      modifies this`running, this`firstEverMessage, this`socket, this`launches, this`startMark
      ensures Valid() && running
      ensures old(running) ==> !threw && firstEverMessage == old(firstEverMessage) && socket == old(socket)
                               && launches == old(launches) && startMark == old(startMark)
      ensures !old(running) ==>
        && firstEverMessage && startMark == |sent|
        && (threw <==> !socketCreated)
        && socket == (if socketCreated then Open else old(socket))
        && launches == old(launches) + (if socketCreated then 1 else 0)
    {
      threw := false;
      if !running {
        running := true;
        firstEverMessage := true;
        startMark := |sent|;
        assert sent[startMark..] == [];
        if !socketCreated {
          return true;
        }
        socket := Open;
        launches := launches + 1;
      }
    }

    /** `stop` clears `running` and closes the socket if it is open. */
    method Stop()
      modifies this`running, this`socket
      ensures !running
      ensures socket == if old(socket) == Open then Closed else old(socket)
    {
      running := false;
      if socket == Open {
        socket := Closed;
      }
    }

    /** One tick of the heartbeat. A gap since the last packet strictly
        above HEARTBEAT_TIMEOUT marks the client offline and reports lost
        connection, on every such tick. Then the heartbeat is sent to the
        server if known, else broadcast; only a send that succeeds clears
        the first-message flag. */
    method Heartbeat(now: int, sendSucceeds: bool)
      requires Valid() && launches > 0
      modifies this`isOnline, this`handled, this`sent, this`firstEverMessage
      ensures Valid()
      ensures isOnline == (old(isOnline) && !TimedOut(now, lastPingTime))
      ensures handled == old(handled) + (if TimedOut(now, lastPingTime) then [LostConnection] else [])
      ensures var ok := socket == Open && sendSucceeds;
        && sent == old(sent) + (if ok then [Datagram(DestinationFor(serverAddress), HeartbeatPacket(playerId, old(firstEverMessage)))] else [])
        && firstEverMessage == (old(firstEverMessage) && !ok)
    {
      if TimedOut(now, lastPingTime) {
        isOnline := false;
        handled := handled + [LostConnection];
      }
      var message := HeartbeatPacket(playerId, firstEverMessage);
      var ip := DestinationFor(serverAddress);
      if socket == Open && sendSucceeds {
        FirstHeartbeatsSince(sent, startMark, Datagram(ip, message));
        sent := sent + [Datagram(ip, message)];
        firstEverMessage := false;
      }
    }

    /** `sendEventToServer`: the event's six bytes to the server if known,
        else broadcast; a failing send is swallowed. */
    method SendEventToServer(message: WirelessMessage, sendSucceeds: bool)
      requires Valid() && message.EventMessageToServer?
      modifies this`sent
      ensures Valid()
      ensures sent == old(sent) + (if socket == Open && sendSucceeds
                                   then [Datagram(DestinationFor(serverAddress), GetBytes(message))] else [])
    {
      var ip := DestinationFor(serverAddress);
      var rawMessage := GetBytes(message);
      if socket == Open && sendSucceeds {
        FirstHeartbeatsSince(sent, startMark, Datagram(ip, rawMessage));
        sent := sent + [Datagram(ip, rawMessage)];
      }
    }

    /** One pass of the receive loop. A packet
        that decodes marks the client online, fixes the server address if
        none is known (never overwriting one), is handed on, and then
        refreshes `lastPingTime`. One that does not decode throws out of
        the inner loop and changes nothing here. */
    method ReceivePacket(packet: Arrival) returns (decoded: bool)
      requires running
      modifies this`isOnline, this`serverAddress, this`handled, this`lastPingTime
      ensures var d := Readable(packet);
        && (decoded <==> d.Success?)
        && (decoded ==>
              && isOnline
              && serverAddress == (if old(serverAddress).Some? then old(serverAddress) else Some(packet.source))
              && handled == old(handled) + [d.value]
              && lastPingTime == packet.time)
        && (!decoded ==>
              && isOnline == old(isOnline) && serverAddress == old(serverAddress)
              && handled == old(handled) && lastPingTime == old(lastPingTime))
    {
      var length := ReceivedLength(|packet.datagram|);
      var message := FromBytes(packet.datagram, length);
      if message.Failure? {
        return false;
      }
      isOnline := true;
      if serverAddress == None {
        serverAddress := Some(packet.source);
      }
      handled := handled + [message.value];
      lastPingTime := packet.time;
      decoded := true;
    }

    /** The fields the receive loop changes. */
    function State(): ListenerState
      reads this
    {
      ListenerState(handled, serverAddress, isOnline, lastPingTime)
    }

    /** The inner receive loop, restarted after every datagram that does
        not decode, over `arrivals`: every datagram that decodes is handed
        on in order, the first one fixes the server address if none is
        known, any of them marks the client online and the last one sets
        `lastPingTime`. */
    method Listen(arrivals: seq<Arrival>)
      requires running
      modifies this`isOnline, this`serverAddress, this`handled, this`lastPingTime
      ensures State() == AfterArrivals(old(State()), arrivals)
      ensures Listened(arrivals, old(State()), State())
    {
      ghost var s0 := State();
      for i := 0 to |arrivals|
        invariant State() == AfterArrivals(s0, arrivals[..i])
      {
        var _ := ReceivePacket(arrivals[i]);
        assert arrivals[..i + 1][..i] == arrivals[..i];
      }
      assert arrivals[..|arrivals|] == arrivals;
      AfterArrivalsListened(s0, arrivals);
    }
  }
}
