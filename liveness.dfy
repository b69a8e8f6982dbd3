/** What both generations' datagram liveness logic shares: the heartbeat
    packet, the strict timeout test, and the choice between the known
    server and broadcast. */
module Liveness {
  import opened JavaBytes
  import opened Options
  import opened MessageTypes
  import opened Config

  /** Where a datagram goes: the discovered server, or broadcast while no
      server is known. Both use SERVER_PORT. */
  datatype Destination = Server(address: nat) | Broadcast

  /** A datagram handed to the socket. */
  datatype Datagram = Datagram(destination: Destination, bytes: seq<JByte>)

  function DestinationFor(serverAddress: Option<nat>): (d: Destination)
    ensures d.Broadcast? <==> serverAddress.None?
    ensures serverAddress.Some? ==> d == Server(serverAddress.value)
  {
    match serverAddress
    case Some(address) => Server(address)
    case None => Broadcast
  }

  /** The timeout test, strict: a gap of exactly HEARTBEAT_TIMEOUT is not a
      timeout. */
  predicate TimedOut(now: int, lastPingTime: int)
  {
    now - lastPingTime > HEARTBEAT_TIMEOUT
  }

  /** The heartbeat: PING, the player id, and 1 for the first heartbeat
      after start, 0 after it. */
  function HeartbeatPacket(playerId: JByte, first: bool): (p: seq<JByte>)
    ensures |p| == 3 && p[0] == PING && p[1] == playerId
    ensures p[2] == 1 <==> first
    ensures p[2] == 0 <==> !first
  {
    [PING, playerId, if first then 1 else 0]
  }

  /** A heartbeat that announces a fresh start. No event packet looks like
      one, since event packets are six bytes long. */
  predicate IsFirstHeartbeat(d: Datagram)
  {
    |d.bytes| == 3 && d.bytes[0] == PING && d.bytes[2] == 1
  }

  /** How many datagrams of `log` announce a fresh start. */
  function FirstHeartbeats(log: seq<Datagram>): (n: nat)
    ensures n <= |log|
    ensures n == 0 <==> forall i :: 0 <= i < |log| ==> !IsFirstHeartbeat(log[i])
  {
    if log == [] then 0
    else FirstHeartbeats(log[..|log| - 1]) + (if IsFirstHeartbeat(log[|log| - 1]) then 1 else 0)
  }

  /** Sending one more datagram adds one to the count exactly when it is a
      first heartbeat. */
  lemma FirstHeartbeatsAppend(log: seq<Datagram>, d: Datagram)
    ensures FirstHeartbeats(log + [d]) == FirstHeartbeats(log) + (if IsFirstHeartbeat(d) then 1 else 0)
  {
    assert (log + [d])[..|log|] == log;
  }

  /** The count over what was sent since a mark grows the same way. */
  lemma FirstHeartbeatsSince(log: seq<Datagram>, mark: nat, d: Datagram)
    requires mark <= |log|
    ensures FirstHeartbeats((log + [d])[mark..]) == FirstHeartbeats(log[mark..]) + (if IsFirstHeartbeat(d) then 1 else 0)
  {
    assert (log + [d])[mark..] == log[mark..] + [d];
    FirstHeartbeatsAppend(log[mark..], d);
  }
}
