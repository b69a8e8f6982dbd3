/** What the current decoder promises: the field layout of each variant,
    the ping round trip, tolerance of unknown types and of trailing bytes,
    and failure on truncated packets. The FULL_STATS layout is stated
    against `EncodeStats`, a reference encoder written from that layout. */
module MessagingProperties {
  import opened JavaBytes
  import opened MessageTypes
  import opened WirelessMessages
  import opened ByteBuffers
  import opened Messaging

  /*********************************************************************
   * Fixed-size variants
   *********************************************************************/

  /** Type 1 is a ping whatever follows it: no payload is read. */
  lemma DecodePing(rest: seq<JByte>)
    ensures Decode([PING] + rest) == Success(SignalMessage(PING))
  {
  }

  /** `SignalMessage().getBytes()` decodes back to the same message. */
  lemma PingRoundTrip()
    ensures GetBytes(DefaultSignal) == [PING]
    ensures Decode(GetBytes(DefaultSignal)) == Success(DefaultSignal)
  {
  }

  /** GAME_START reads exactly four bytes: a non-zero first byte means team
      play, the next three are respawn time, game minutes and start delay,
      sign-extended. Fewer than four bytes is an underflow. */
  lemma DecodeGameStart(p: seq<JByte>)
    requires |p| >= 1 && p[0] == GAME_START
    ensures |p| >= 5 ==> Decode(p) == Success(GameStartMessageIn(GAME_START, p[1] != 0, p[2], p[3], p[4]))
    ensures |p| < 5 ==> Decode(p) == Failure(BufferUnderflow)
  {
  }

  /** GAME_TIMER is minutes then seconds. */
  lemma DecodeTime(p: seq<JByte>)
    requires |p| >= 1 && p[0] == GAME_TIMER
    ensures |p| >= 3 ==> Decode(p) == Success(TimeMessage(GAME_TIMER, p[1], p[2]))
    ensures |p| < 3 ==> Decode(p) == Failure(BufferUnderflow)
  {
  }

  /** Every other type byte, known or not, is an event with one payload
      byte; an unknown type is never rejected. */
  lemma DecodeOtherTypes(p: seq<JByte>)
    requires |p| >= 1
    requires p[0] !in {PING, FULL_STATS, GAME_TIMER, GAME_START}
    ensures |p| >= 2 ==> Decode(p) == Success(EventMessageIn(p[0], p[1]))
    ensures |p| < 2 ==> Decode(p) == Failure(BufferUnderflow)
  {
  }

  /** A type that the message table does not list still decodes. */
  lemma UnknownTypeAccepted()
    ensures Decode([77, 3]) == Success(EventMessageIn(77, 3))
  {
  }

  /** A time message is encoded by the base `getBytes` as its type byte
      alone, so decoding its own encoding underflows. */
  lemma TimeMessageHasNoRoundTrip(minutes: JByte, seconds: JByte)
    ensures Decode(GetBytes(TimeMessage(GAME_TIMER, minutes, seconds))) == Failure(BufferUnderflow)
  {
  }

  /** A negative player count is refused by the array allocation. */
  lemma NegativeCountFails(p: seq<JByte>)
    requires |p| >= 6 && p[0] == FULL_STATS && p[5] < 0
    ensures Decode(p) == Failure(NegativeArraySize)
  {
  }

  /** The decoder produces a GameStartMessageIn exactly for type 8 and a
      StatsMessageIn exactly for type 11: the casts the match engine
      applies to those types cannot fail. */
  ghost predicate WellTyped(m: WirelessMessage)
  {
    && (m.msgType == GAME_START <==> m.GameStartMessageIn?)
    && (m.msgType == FULL_STATS <==> m.StatsMessageIn?)
  }

  lemma DecodeWellTyped(p: seq<JByte>)
    requires Decode(p).Success?
    ensures WellTyped(Decode(p).value)
  {
    if p[0] == FULL_STATS {
      var count := p[5];
      match PlayersAt(p, 6, count)
      case Success((players, _)) =>
      case Failure(_) =>
    }
  }

  /*********************************************************************
   * Trailing bytes are ignored
   *********************************************************************/

  lemma PlayerAtExtended(p: seq<JByte>, extra: seq<JByte>, pos: nat)
    requires PlayerAt(p, pos).Success?
    ensures PlayerAt(p + extra, pos) == PlayerAt(p, pos)
  {
    var n := p[pos + 6];
    assert (p + extra)[pos + 7..pos + 7 + n] == p[pos + 7..pos + 7 + n];
  }

  lemma {:induction false} PlayersAtExtended(p: seq<JByte>, extra: seq<JByte>, pos: nat, count: nat)
    requires PlayersAt(p, pos, count).Success?
    ensures PlayersAt(p + extra, pos, count) == PlayersAt(p, pos, count)
    decreases count
  {
    if count > 0 {
      PlayerAtExtended(p, extra, pos);
      var next := PlayerAt(p, pos).value.1;
      PlayersAtExtended(p, extra, next, count - 1);
    }
  }

  /** A packet that decodes keeps decoding to the same message whatever
      follows it: only the bytes the variant needs are read. */
  lemma DecodeIgnoresTrailing(p: seq<JByte>, extra: seq<JByte>)
    requires Decode(p).Success?
    ensures Decode(p + extra) == Decode(p)
  {
    assert (p + extra)[0] == p[0];
    if p[0] == FULL_STATS {
      assert (p + extra)[..6] == p[..6];
      PlayersAtExtended(p, extra, 6, p[5]);
    }
  }

  /*********************************************************************
   * FULL_STATS against a reference encoder
   *********************************************************************/

  /** A player whose every field fits the wire's single bytes. */
  ghost predicate Encodable(pl: Player)
  {
    && -128 <= pl.id < 128 && -128 <= pl.health < 128 && -128 <= pl.score < 128
    && -128 <= pl.teamId < 128 && -128 <= pl.damage < 128 && -128 <= pl.bulletsLeft < 128
    && |pl.name| < 128
  }

  /** Every player of a roster is encodable. */
  ghost predicate AllEncodable(ps: seq<Player>)
  {
    ps == [] || (Encodable(ps[0]) && AllEncodable(ps[1..]))
  }

  /** The server's encoding of one player: each field cast to a byte. */
  function EncodePlayer(pl: Player): (bytes: seq<JByte>)
    ensures |bytes| == 7 + |pl.name|
  {
    [ToByte(pl.id), ToByte(pl.health), ToByte(pl.score), ToByte(pl.teamId),
     ToByte(pl.damage), ToByte(pl.bulletsLeft), ToByte(|pl.name|)] + pl.name
  }

  function EncodePlayers(ps: seq<Player>): seq<JByte>
  {
    if ps == [] then [] else EncodePlayer(ps[0]) + EncodePlayers(ps[1..])
  }

  /** The server's FULL_STATS packet as the decoder expects it. */
  function EncodeStats(running: bool, teamPlay: bool, timer: int, ps: seq<Player>): seq<JByte>
  {
    [FULL_STATS, if running then 1 else 0, if teamPlay then 1 else 0,
     ToByte(timer), ToByte(timer / 256), ToByte(|ps|)] + EncodePlayers(ps)
  }

  /** Where each part of a FULL_STATS packet sits. */
  lemma StatsLayout(running: bool, teamPlay: bool, timer: int, ps: seq<Player>)
    ensures var p := EncodeStats(running, teamPlay, timer, ps);
      && |p| == 6 + |EncodePlayers(ps)| && p[0] == FULL_STATS
      && p[1] == (if running then 1 else 0) && p[2] == (if teamPlay then 1 else 0)
      && p[3] == ToByte(timer) && p[4] == ToByte(timer / 256) && p[5] == ToByte(|ps|)
      && p[6..] == EncodePlayers(ps)
  {
  }

  /** Low byte then high byte reassemble any 16-bit timer. */
  lemma ShortRoundTrip(timer: int)
    requires -32768 <= timer < 32768
    ensures ShortLE(ToByte(timer), ToByte(timer / 256)) == timer
  {
    var lo, hi := ToByte(timer), ToByte(timer / 256);
    assert Unsigned(lo) == timer % 256;
    assert Unsigned(hi) == (timer / 256) % 256;
    assert timer == 256 * (timer / 256) + timer % 256;
  }

  /** One encoded player parses back to itself wherever it sits in a
      packet, and ends where its encoding ends. */
  lemma EncodedPlayerAt(p: seq<JByte>, pos: nat, pl: Player)
    requires Encodable(pl) && pos + |EncodePlayer(pl)| <= |p|
    requires p[pos..pos + |EncodePlayer(pl)|] == EncodePlayer(pl)
    ensures PlayerAt(p, pos) == Success((pl, pos + |EncodePlayer(pl)|))
  {
    var head := EncodePlayer(pl);
    ToByteOfByte(pl.id); ToByteOfByte(pl.health); ToByteOfByte(pl.score); ToByteOfByte(pl.teamId);
    ToByteOfByte(pl.damage); ToByteOfByte(pl.bulletsLeft); ToByteOfByte(|pl.name|);
    assert p[pos..pos + 7] == head[..7];
    assert p[pos + 7..pos + 7 + |pl.name|] == head[7..];
  }

  /** A roster run is its first entry followed by the rest of the run. */
  lemma PlayersAtCons(p: seq<JByte>, pos: nat, pl: Player, next: nat, rest: seq<Player>, end: nat, count: nat)
    requires count > 0 && PlayerAt(p, pos) == Success((pl, next))
    requires PlayersAt(p, next, count - 1) == Success((rest, end))
    ensures PlayersAt(p, pos, count) == Success(([pl] + rest, end))
  {
  }

  /** The window of an encoded run holds the encoding of its first player
      and then the encoding of the others. */
  lemma EncodedHeadAt(p: seq<JByte>, pos: nat, ps: seq<Player>)
    requires ps != []
    requires pos + |EncodePlayers(ps)| <= |p| && p[pos..pos + |EncodePlayers(ps)|] == EncodePlayers(ps)
    ensures var head, tail := EncodePlayer(ps[0]), EncodePlayers(ps[1..]);
      && |head| + |tail| == |EncodePlayers(ps)|
      && p[pos..pos + |head|] == head
      && p[pos + |head|..pos + |head| + |tail|] == tail
  {
    var head, tail := EncodePlayer(ps[0]), EncodePlayers(ps[1..]);
    assert EncodePlayers(ps) == head + tail;
    SplitWindow(p, pos, head, tail);
  }

  /** Each player of `ps` parses where the previous one's encoding ends. */
  ghost predicate LaidOut(p: seq<JByte>, pos: nat, ps: seq<Player>)
    decreases |ps|
  {
    ps == [] ||
    (var next := pos + |EncodePlayer(ps[0])|;
     PlayerAt(p, pos) == Success((ps[0], next)) && LaidOut(p, next, ps[1..]))
  }

  /** A laid-out run parses as a whole. */
  lemma {:induction false} LaidOutParses(p: seq<JByte>, pos: nat, ps: seq<Player>)
    requires LaidOut(p, pos, ps)
    ensures PlayersAt(p, pos, |ps|) == Success((ps, pos + |EncodePlayers(ps)|))
    decreases |ps|
  {
    if ps != [] {
      var mid := pos + |EncodePlayer(ps[0])|;
      LaidOutParses(p, mid, ps[1..]);
      assert |EncodePlayers(ps)| == |EncodePlayer(ps[0])| + |EncodePlayers(ps[1..])|;
      PlayersAtCons(p, pos, ps[0], mid, ps[1..], pos + |EncodePlayers(ps)|, |ps|);
      assert [ps[0]] + ps[1..] == ps;
    }
  }

  /** An encoded run is laid out. */
  lemma {:induction false} EncodedLaidOut(p: seq<JByte>, pos: nat, ps: seq<Player>)
    requires AllEncodable(ps)
    requires pos + |EncodePlayers(ps)| <= |p| && p[pos..pos + |EncodePlayers(ps)|] == EncodePlayers(ps)
    ensures LaidOut(p, pos, ps)
    decreases |ps|
  {
    if ps != [] {
      EncodedHeadAt(p, pos, ps);
      EncodedPlayerAt(p, pos, ps[0]);
      EncodedLaidOut(p, pos + |EncodePlayer(ps[0])|, ps[1..]);
    }
  }

  /** A packet laid out as FULL_STATS decodes to the flags, the timer and
      the roster it carries. */
  lemma StatsPacketDecodes(p: seq<JByte>, running: bool, teamPlay: bool, timer: int, ps: seq<Player>)
    requires -32768 <= timer < 32768 && |ps| < 128 && AllEncodable(ps)
    requires |p| == 6 + |EncodePlayers(ps)| && p[0] == FULL_STATS
    requires p[1] == (if running then 1 else 0) && p[2] == (if teamPlay then 1 else 0)
    requires p[3] == ToByte(timer) && p[4] == ToByte(timer / 256) && p[5] == ToByte(|ps|)
    requires p[6..] == EncodePlayers(ps)
    ensures Decode(p) == Success(StatsMessageIn(FULL_STATS, running, teamPlay, timer, ps))
  {
    ToByteOfByte(|ps|);
    assert p[6..6 + |EncodePlayers(ps)|] == EncodePlayers(ps);
    EncodedLaidOut(p, 6, ps);
    LaidOutParses(p, 6, ps);
    ShortRoundTrip(timer);
  }

  /** The FULL_STATS layout: running flag, teamPlay flag, 16-bit
      little-endian timer, count, then each player's id, health, score,
      teamId, damage, bulletsLeft, name length and name, in wire order. */
  lemma StatsRoundTrip(running: bool, teamPlay: bool, timer: int, ps: seq<Player>)
    requires -32768 <= timer < 32768 && |ps| < 128
    requires AllEncodable(ps)
    ensures Decode(EncodeStats(running, teamPlay, timer, ps))
         == Success(StatsMessageIn(FULL_STATS, running, teamPlay, timer, ps))
  {
    StatsLayout(running, teamPlay, timer, ps);
    StatsPacketDecodes(EncodeStats(running, teamPlay, timer, ps), running, teamPlay, timer, ps);
  }

  /** One encoded player cut anywhere before its end fails to parse. */
  lemma CutPlayerFails(p: seq<JByte>, pos: nat, pl: Player)
    requires Encodable(pl)
    requires pos <= |p| < pos + |EncodePlayer(pl)| && p[pos..] == EncodePlayer(pl)[..|p| - pos]
    ensures PlayerAt(p, pos) == Failure(BufferUnderflow)
  {
    if pos + 7 <= |p| {
      assert p[pos + 6] == p[pos..][6];
      ToByteOfByte(|pl.name|);
    }
  }

  /** A run of encoded players cut anywhere before its end fails to
      parse: the missing bytes are always asked for. */
  lemma {:induction false} TruncatedPlayersFail(p: seq<JByte>, pos: nat, ps: seq<Player>)
    requires AllEncodable(ps)
    requires pos <= |p| < pos + |EncodePlayers(ps)|
    requires p[pos..] == EncodePlayers(ps)[..|p| - pos]
    ensures PlayersAt(p, pos, |ps|) == Failure(BufferUnderflow)
    decreases |ps|
  {
    var head, tail := EncodePlayer(ps[0]), EncodePlayers(ps[1..]);
    var mid := pos + |head|;
    assert EncodePlayers(ps) == head + tail;
    if |p| < mid {
      CutWithin(p, pos, head, tail);
      CutPlayerFails(p, pos, ps[0]);
    } else {
      SplitCut(p, pos, head, tail);
      EncodedPlayerAt(p, pos, ps[0]);
      TruncatedPlayersFail(p, mid, ps[1..]);
    }
  }

  /** Cutting a FULL_STATS packet anywhere before its end makes it fail to
      decode. */
  lemma TruncatedStatsFails(running: bool, teamPlay: bool, timer: int, ps: seq<Player>, k: nat)
    requires -32768 <= timer < 32768 && |ps| < 128
    requires AllEncodable(ps)
    requires k < |EncodeStats(running, teamPlay, timer, ps)|
    ensures Decode(EncodeStats(running, teamPlay, timer, ps)[..k]) == Failure(BufferUnderflow)
  {
    var whole := EncodeStats(running, teamPlay, timer, ps);
    var p := whole[..k];
    StatsLayout(running, teamPlay, timer, ps);
    if k >= 6 {
      assert p[5] == whole[5] == |ps| by {
        ToByteOfByte(|ps|);
      }
      assert p[6..] == EncodePlayers(ps)[..k - 6];
      TruncatedPlayersFail(p, 6, ps);
    } else if k > 0 {
      assert p[0] == FULL_STATS;
    }
  }

}
