/** What the legacy decoder promises: an ack for type 1, a four-byte event
    for every other type but 11, and for type 11 a roster that is the wire
    roster sorted by score, highest first, ties kept in wire order. */
module UdpMessagesProperties {
  import opened JavaBytes
  import opened MessageTypes
  import opened ByteBuffers
  import opened Sorting
  import opened UdpMessages

  /*********************************************************************
   * Ack and events
   *********************************************************************/

  /** Type 1 is acknowledged without reading any payload. */
  lemma DecodeAck(rest: seq<JByte>)
    ensures Decode([PING] + rest) == Success(AckMessage(PING))
  {
  }

  /** Every other type but FULL_STATS, unknown ones included, is an event
      read from exactly four further bytes; fewer is an underflow. */
  lemma DecodeEvent(p: seq<JByte>)
    requires |p| >= 1 && p[0] != PING && p[0] != FULL_STATS
    ensures |p| >= 5 ==> Decode(p) == Success(EventMessage(p[0], p[1], p[2], p[3], p[4]))
    ensures |p| < 5 ==> Decode(p) == Failure(BufferUnderflow)
  {
  }

  /*********************************************************************
   * The score order
   *********************************************************************/

  /** The players of `s` whose score is `k`, in order. */
  function WithScore(s: seq<LegacyPlayer>, k: int): (r: seq<LegacyPlayer>)
    ensures forall i :: 0 <= i < |r| ==> r[i].score == k
  {
    if s == [] then []
    else (if s[0].score == k then [s[0]] else []) + WithScore(s[1..], k)
  }

  lemma ScoreDescendingIsPreorder()
    ensures Antisymmetric(ScoreDescending) && Transitive(ScoreDescending)
  {
  }

  lemma {:induction false} WithScoreConcat(a: seq<LegacyPlayer>, b: seq<LegacyPlayer>, k: int)
    ensures WithScore(a + b, k) == WithScore(a, k) + WithScore(b, k)
    decreases |a|
  {
    if a == [] {
      assert a + b == b;
    } else {
      assert (a + b)[1..] == a[1..] + b;
      WithScoreConcat(a[1..], b, k);
    }
  }

  lemma {:induction false} WithScoreNone(s: seq<LegacyPlayer>, k: int)
    requires forall i :: 0 <= i < |s| ==> s[i].score < k
    ensures WithScore(s, k) == []
    decreases |s|
  {
    if s != [] {
      WithScoreNone(s[1..], k);
    }
  }

  /** Scores never rise along a descending-sorted sequence. */
  lemma HeadScoreIsMax(s: seq<LegacyPlayer>, i: nat)
    requires Sorted(s, ScoreDescending) && 0 < i < |s|
    ensures s[i].score <= s[0].score
  {
    assert ScoreDescending(s[0], s[i]) <= 0;
  }

  lemma SortedTail(s: seq<LegacyPlayer>)
    requires Sorted(s, ScoreDescending) && s != []
    ensures Sorted(s[1..], ScoreDescending)
  {
    var rest := s[1..];
    forall i, j | 0 <= i < j < |rest| ensures ScoreDescending(rest[i], rest[j]) <= 0 {
      assert rest[i] == s[i + 1] && rest[j] == s[j + 1];
    }
  }

  lemma {:induction false} InsertStable(x: LegacyPlayer, s: seq<LegacyPlayer>, k: int)
    requires Sorted(s, ScoreDescending)
    ensures WithScore(Insert(x, s, ScoreDescending), k) == WithScore(s, k) + (if x.score == k then [x] else [])
    decreases |s|
  {
    if s == [] {
    } else if x.score > s[0].score {
      assert Insert(x, s, ScoreDescending) == [x] + s;
      if x.score == k {
        forall i | 0 <= i < |s| ensures s[i].score < k {
          if i > 0 {
            HeadScoreIsMax(s, i);
          }
        }
        WithScoreNone(s, k);
      }
      assert ([x] + s)[1..] == s;
    } else {
      var rest := s[1..];
      var inserted := Insert(x, rest, ScoreDescending);
      assert Insert(x, s, ScoreDescending) == [s[0]] + inserted;
      SortedTail(s);
      InsertStable(x, rest, k);
      assert ([s[0]] + inserted)[1..] == inserted;
    }
  }

  lemma SortByScoreSorted(s: seq<LegacyPlayer>)
    ensures Sorted(SortByScore(s), ScoreDescending)
  {
    ScoreDescendingIsPreorder();
    SortIsSorted(s, ScoreDescending);
  }

  /** Sorting by score keeps the players of each score in their wire
      order. */
  lemma {:induction false} SortIsStable(s: seq<LegacyPlayer>, k: int)
    ensures WithScore(SortByScore(s), k) == WithScore(s, k)
    decreases |s|
  {
    if s != [] {
      var init, last := s[..|s| - 1], s[|s| - 1];
      assert s == init + [last];
      var sortedInit := SortByScore(init);
      assert SortByScore(s) == Insert(last, sortedInit, ScoreDescending);
      SortIsStable(init, k);
      SortByScoreSorted(init);
      InsertStable(last, sortedInit, k);
      var single := if last.score == k then [last] else [];
      assert WithScore([last], k) == single by {
        assert [last][1..] == [];
      }
      WithScoreConcat(init, [last], k);
    }
  }

  /** Highest score first, compared as signed bytes widened to int. */
  ghost predicate ScoresDescending(s: seq<LegacyPlayer>)
  {
    forall i, j :: 0 <= i < j < |s| ==> s[i].score >= s[j].score
  }

  /** The roster handed back is the wire roster sorted by score, highest
      first: a permutation of it, with equal scores in wire order. */
  lemma SortByScoreSpec(s: seq<LegacyPlayer>)
    ensures ScoresDescending(SortByScore(s))
    ensures multiset(SortByScore(s)) == multiset(s)
    ensures forall k :: WithScore(SortByScore(s), k) == WithScore(s, k)
  {
    ScoreDescendingIsPreorder();
    SortIsSorted(s, ScoreDescending);
    var r := SortByScore(s);
    forall i, j | 0 <= i < j < |r| ensures r[i].score >= r[j].score {
      assert ScoreDescending(r[i], r[j]) <= 0;
    }
    forall k ensures WithScore(r, k) == WithScore(s, k) {
      SortIsStable(s, k);
    }
  }

  /** A roster already in descending order comes back as it was sent. */
  lemma SortedRosterUnchanged(s: seq<LegacyPlayer>)
    requires ScoresDescending(s)
    ensures SortByScore(s) == s
  {
    ScoreDescendingIsPreorder();
    SortOfSorted(s, ScoreDescending);
  }

  /*********************************************************************
   * FULL_STATS
   *********************************************************************/

  /** A decoded FULL_STATS message reports the count byte as `numPlayers`,
      holds that many players, and holds the wire roster sorted by score. */
  lemma DecodeStats(p: seq<JByte>)
    requires |p| >= 1 && p[0] == FULL_STATS && Decode(p).Success?
    ensures |p| >= 2 && p[1] >= 0 && PlayersAt(p, 2, p[1]).Success?
    ensures var m := Decode(p).value;
      && m.StatsMessage? && m.numPlayers == p[1] && |m.players| == p[1]
      && m.players == SortByScore(PlayersAt(p, 2, p[1]).value.0)
  {
  }

  /** A player whose fields fit the wire's single bytes. */
  ghost predicate Encodable(pl: LegacyPlayer)
  {
    -128 <= pl.id < 128 && -128 <= pl.health < 128 && -128 <= pl.score < 128 && |pl.name| < 128
  }

  /** Every player of a roster is encodable. */
  ghost predicate AllEncodable(ps: seq<LegacyPlayer>)
  {
    ps == [] || (Encodable(ps[0]) && AllEncodable(ps[1..]))
  }

  /** The legacy server's encoding of one player: each field cast to a
      byte. */
  function EncodePlayer(pl: LegacyPlayer): (bytes: seq<JByte>)
    ensures |bytes| == 4 + |pl.name|
  {
    [ToByte(pl.id), ToByte(pl.health), ToByte(pl.score), ToByte(|pl.name|)] + pl.name
  }

  function EncodePlayers(ps: seq<LegacyPlayer>): seq<JByte>
  {
    if ps == [] then [] else EncodePlayer(ps[0]) + EncodePlayers(ps[1..])
  }

  /** The legacy server's FULL_STATS packet as the decoder expects it. */
  function EncodeStats(ps: seq<LegacyPlayer>): seq<JByte>
  {
    [FULL_STATS, ToByte(|ps|)] + EncodePlayers(ps)
  }

  /** Where each part of a FULL_STATS packet sits. */
  lemma StatsLayout(ps: seq<LegacyPlayer>)
    ensures var p := EncodeStats(ps);
      && |p| == 2 + |EncodePlayers(ps)| && p[0] == FULL_STATS && p[1] == ToByte(|ps|)
      && p[2..] == EncodePlayers(ps)
  {
  }

  /** One encoded player parses back to itself wherever it sits in a
      packet, and ends where its encoding ends. */
  lemma EncodedPlayerAt(p: seq<JByte>, pos: nat, pl: LegacyPlayer)
    requires Encodable(pl) && pos + |EncodePlayer(pl)| <= |p|
    requires p[pos..pos + |EncodePlayer(pl)|] == EncodePlayer(pl)
    ensures PlayerAt(p, pos) == Success((pl, pos + |EncodePlayer(pl)|))
  {
    var head := EncodePlayer(pl);
    ToByteOfByte(pl.id); ToByteOfByte(pl.health); ToByteOfByte(pl.score); ToByteOfByte(|pl.name|);
    assert p[pos..pos + 4] == head[..4];
    assert p[pos + 4..pos + 4 + |pl.name|] == head[4..];
  }

  /** A roster run is its first entry followed by the rest of the run. */
  lemma PlayersAtCons(p: seq<JByte>, pos: nat, pl: LegacyPlayer, next: nat, rest: seq<LegacyPlayer>, end: nat, count: nat)
    requires count > 0 && PlayerAt(p, pos) == Success((pl, next))
    requires PlayersAt(p, next, count - 1) == Success((rest, end))
    ensures PlayersAt(p, pos, count) == Success(([pl] + rest, end))
  {
  }

  /** The window of an encoded run holds the encoding of its first player
      and then the encoding of the others. */
  lemma EncodedHeadAt(p: seq<JByte>, pos: nat, ps: seq<LegacyPlayer>)
    requires ps != []
    requires pos + |EncodePlayers(ps)| <= |p| && p[pos..pos + |EncodePlayers(ps)|] == EncodePlayers(ps)
    ensures var head, tail := EncodePlayer(ps[0]), EncodePlayers(ps[1..]);
      && |head| + |tail| == |EncodePlayers(ps)|
      && p[pos..pos + |head|] == head
      && p[pos + |head|..pos + |head| + |tail|] == tail
  {
    var head, tail := EncodePlayer(ps[0]), EncodePlayers(ps[1..]);
    assert EncodePlayers(ps) == head + tail;
    SplitWindow(p, pos, head, tail);
  }

  /** Each player of `ps` parses where the previous one's encoding ends. */
  ghost predicate LaidOut(p: seq<JByte>, pos: nat, ps: seq<LegacyPlayer>)
    decreases |ps|
  {
    ps == [] ||
    (var next := pos + |EncodePlayer(ps[0])|;
     PlayerAt(p, pos) == Success((ps[0], next)) && LaidOut(p, next, ps[1..]))
  }

  /** A laid-out run parses as a whole. */
  lemma {:induction false} LaidOutParses(p: seq<JByte>, pos: nat, ps: seq<LegacyPlayer>)
    requires LaidOut(p, pos, ps)
    ensures PlayersAt(p, pos, |ps|) == Success((ps, pos + |EncodePlayers(ps)|))
    decreases |ps|
  {
    if ps != [] {
      var mid := pos + |EncodePlayer(ps[0])|;
      LaidOutParses(p, mid, ps[1..]);
      assert |EncodePlayers(ps)| == |EncodePlayer(ps[0])| + |EncodePlayers(ps[1..])|;
      PlayersAtCons(p, pos, ps[0], mid, ps[1..], pos + |EncodePlayers(ps)|, |ps|);
      assert [ps[0]] + ps[1..] == ps;
    }
  }

  /** An encoded run is laid out. */
  lemma {:induction false} EncodedLaidOut(p: seq<JByte>, pos: nat, ps: seq<LegacyPlayer>)
    requires AllEncodable(ps)
    requires pos + |EncodePlayers(ps)| <= |p| && p[pos..pos + |EncodePlayers(ps)|] == EncodePlayers(ps)
    ensures LaidOut(p, pos, ps)
    decreases |ps|
  {
    if ps != [] {
      EncodedHeadAt(p, pos, ps);
      EncodedPlayerAt(p, pos, ps[0]);
      EncodedLaidOut(p, pos + |EncodePlayer(ps[0])|, ps[1..]);
    }
  }

  /** A packet laid out as FULL_STATS decodes to the count and the roster
      sorted by score. */
  lemma StatsPacketDecodes(p: seq<JByte>, ps: seq<LegacyPlayer>)
    requires |ps| < 128 && AllEncodable(ps)
    requires |p| == 2 + |EncodePlayers(ps)| && p[0] == FULL_STATS && p[1] == ToByte(|ps|)
    requires p[2..] == EncodePlayers(ps)
    ensures Decode(p) == Success(StatsMessage(FULL_STATS, |ps|, SortByScore(ps)))
  {
    ToByteOfByte(|ps|);
    assert p[2..2 + |EncodePlayers(ps)|] == EncodePlayers(ps);
    EncodedLaidOut(p, 2, ps);
    LaidOutParses(p, 2, ps);
  }

  /** Encoding a roster and decoding it gives the count and the roster
      sorted by score; a roster already in descending order round-trips
      exactly. */
  lemma StatsRoundTrip(ps: seq<LegacyPlayer>)
    requires |ps| < 128 && AllEncodable(ps)
    ensures Decode(EncodeStats(ps)) == Success(StatsMessage(FULL_STATS, |ps|, SortByScore(ps)))
    ensures ScoresDescending(ps) ==> Decode(EncodeStats(ps)) == Success(StatsMessage(FULL_STATS, |ps|, ps))
  {
    StatsLayout(ps);
    StatsPacketDecodes(EncodeStats(ps), ps);
    if ScoresDescending(ps) {
      SortedRosterUnchanged(ps);
    }
  }

  /** One encoded player cut anywhere before its end fails to parse. */
  lemma CutPlayerFails(p: seq<JByte>, pos: nat, pl: LegacyPlayer)
    requires Encodable(pl)
    requires pos <= |p| < pos + |EncodePlayer(pl)| && p[pos..] == EncodePlayer(pl)[..|p| - pos]
    ensures PlayerAt(p, pos) == Failure(BufferUnderflow)
  {
    if pos + 4 <= |p| {
      assert p[pos + 3] == p[pos..][3];
      ToByteOfByte(|pl.name|);
    }
  }

  /** A run of encoded players cut anywhere before its end fails to
      parse: the missing bytes are always asked for. */
  lemma {:induction false} TruncatedPlayersFail(p: seq<JByte>, pos: nat, ps: seq<LegacyPlayer>)
    requires AllEncodable(ps)
    requires pos <= |p| < pos + |EncodePlayers(ps)|
    requires p[pos..] == EncodePlayers(ps)[..|p| - pos]
    ensures PlayersAt(p, pos, |ps|) == Failure(BufferUnderflow)
    decreases |ps|
  {
    var head, tail := EncodePlayer(ps[0]), EncodePlayers(ps[1..]);
    var mid := pos + |head|;
    assert EncodePlayers(ps) == head + tail;
    if |p| < mid {
      CutWithin(p, pos, head, tail);
      CutPlayerFails(p, pos, ps[0]);
    } else {
      SplitCut(p, pos, head, tail);
      EncodedPlayerAt(p, pos, ps[0]);
      TruncatedPlayersFail(p, mid, ps[1..]);
    }
  }

  /** A FULL_STATS packet cut anywhere before its end fails to decode. */
  lemma TruncatedStatsFails(ps: seq<LegacyPlayer>, k: nat)
    requires |ps| < 128 && AllEncodable(ps)
    requires k < |EncodeStats(ps)|
    ensures Decode(EncodeStats(ps)[..k]) == Failure(BufferUnderflow)
  {
    var whole := EncodeStats(ps);
    var p := whole[..k];
    StatsLayout(ps);
    if k >= 2 {
      assert p[1] == whole[1] == |ps| by {
        ToByteOfByte(|ps|);
      }
      assert p[2..] == EncodePlayers(ps)[..k - 2];
      TruncatedPlayersFail(p, 2, ps);
    } else if k > 0 {
      assert p[0] == FULL_STATS;
    }
  }
}
