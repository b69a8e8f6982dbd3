/** The roster the current match engine keeps (`allPlayersSnapshot`): how a
    FULL_STATS snapshot is merged into it, how it is sorted, and how a
    player is looked up by id. The `Player` members the engine calls but
    whose bodies are not part of this model are passed in as `PlayerOps`;
    every property below that depends on them says so in its `requires`. */
module Rosters {
  import opened Options
  import opened Sorting
  import opened WirelessMessages

  /** `respawn`, `reload`, `decreaseBullets`, `decreaseHealth`, `isAlive`,
      `copyPlayerValuesFrom`, `compareTo` and `equals`, as functions on
      player values: `copyPlayerValuesFrom(target, source)` is the target
      after the call, `equals(a, b)` is `a.equals(b)`. */
  datatype PlayerOps = PlayerOps(
    respawn: Player -> Player,
    reload: Player -> Player,
    decreaseBullets: Player -> Player,
    decreaseHealth: (Player, int) -> Player,
    isAlive: Player -> bool,
    copyPlayerValuesFrom: (Player, Player) -> Player,
    compareTo: (Player, Player) -> int,
    equals: (Player, Player) -> bool)

  /** `getPlayerById`: the first entry with that id, or null. */
  function FirstWithId(roster: seq<Player>, id: int): (r: Option<Player>)
    ensures r.Some? <==> exists i :: 0 <= i < |roster| && roster[i].id == id
    ensures r.Some? ==> r.value.id == id && r.value in roster
  {
    if roster == [] then None
    else if roster[0].id == id then Some(roster[0])
    else FirstWithId(roster[1..], id)
  }

  /** The lookup returns the earliest entry with the id. */
  lemma {:induction false} FirstWithIdIsFirst(roster: seq<Player>, id: int, i: nat)
    requires i < |roster| && roster[i].id == id
    requires forall j :: 0 <= j < i ==> roster[j].id != id
    ensures FirstWithId(roster, id) == Some(roster[i])
    decreases i
  {
    if i > 0 {
      FirstWithIdIsFirst(roster[1..], id, i - 1);
    }
  }

  /** `allPlayersSnapshot.contains(u)`: some entry `e` with `u.equals(e)`. */
  predicate Contains(roster: seq<Player>, u: Player, equals: (Player, Player) -> bool)
  {
    exists i :: 0 <= i < |roster| && equals(u, roster[i])
  }

  /** Every entry whose id is `u`'s has copied `u`'s values; the others are
      as they were. */
  function UpdateById(roster: seq<Player>, u: Player, copy: (Player, Player) -> Player): (r: seq<Player>)
    ensures |r| == |roster|
    ensures forall i :: 0 <= i < |roster| && roster[i].id != u.id ==> r[i] == roster[i]
    ensures forall i :: 0 <= i < |roster| && roster[i].id == u.id ==> r[i] == copy(roster[i], u)
  {
    seq(|roster|, i requires 0 <= i < |roster| => if roster[i].id == u.id then copy(roster[i], u) else roster[i])
  }

  /** One update of a snapshot: appended if the roster does not contain it,
      otherwise copied into every entry with its id. */
  function MergeOne(roster: seq<Player>, u: Player, ops: PlayerOps): seq<Player>
  {
    if Contains(roster, u, ops.equals) then UpdateById(roster, u, ops.copyPlayerValuesFrom) else roster + [u]
  }

  /** The snapshot's players merged in wire order. */
  function MergeAll(roster: seq<Player>, updates: seq<Player>, ops: PlayerOps): seq<Player>
  {
    if updates == [] then roster
    else MergeOne(MergeAll(roster, updates[..|updates| - 1], ops), updates[|updates| - 1], ops)
  }

  /** `Collections.sort(allPlayersSnapshot)`: a stable sort by `compareTo`. */
  function SortRoster(roster: seq<Player>, ops: PlayerOps): seq<Player>
  {
    InsertionSort(roster, ops.compareTo)
  }

  /*********************************************************************
   * Merging by id
   *********************************************************************/

  /** `equals` compares ids only. */
  ghost predicate EqualsById(ops: PlayerOps)
  {
    forall a, b :: ops.equals(a, b) <==> a.id == b.id
  }

  /** `copyPlayerValuesFrom` leaves the target's id alone. */
  ghost predicate CopyKeepsId(ops: PlayerOps)
  {
    forall a, b :: ops.copyPlayerValuesFrom(a, b).id == a.id
  }

  function Ids(roster: seq<Player>): set<int>
  {
    set p | p in roster :: p.id
  }

  lemma IdsAppend(s: seq<Player>, x: Player)
    ensures Ids(s + [x]) == Ids(s) + {x.id}
  {
    forall y | y in Ids(s + [x]) ensures y in Ids(s) + {x.id} {
      var p :| p in s + [x] && p.id == y;
      var i :| 0 <= i < |s| + 1 && (s + [x])[i] == p;
      if i < |s| {
        assert s[i] in s;
      }
    }
    forall y | y in Ids(s) ensures y in Ids(s + [x]) {
      var p :| p in s && p.id == y;
      assert p in s + [x];
    }
    assert x in s + [x];
  }

  /** No two entries share an id. */
  ghost predicate UniqueIds(roster: seq<Player>)
  {
    forall i, j :: 0 <= i < j < |roster| ==> roster[i].id != roster[j].id
  }

  /** With id-based `equals`, one update either updates the entries with
      its id, when there are any, or is appended. */
  lemma MergeOneById(roster: seq<Player>, u: Player, ops: PlayerOps)
    requires EqualsById(ops)
    ensures (exists i :: 0 <= i < |roster| && roster[i].id == u.id) ==>
              MergeOne(roster, u, ops) == UpdateById(roster, u, ops.copyPlayerValuesFrom)
    ensures (forall i :: 0 <= i < |roster| ==> roster[i].id != u.id) ==>
              MergeOne(roster, u, ops) == roster + [u]
  {
  }

  /** With id-based `equals` and an id-keeping copy, one update adds its id
      to the roster's ids and keeps them unique. */
  lemma MergeOneKeepsIdsUnique(roster: seq<Player>, u: Player, ops: PlayerOps)
    requires EqualsById(ops) && CopyKeepsId(ops)
    ensures Ids(MergeOne(roster, u, ops)) == Ids(roster) + {u.id}
    ensures UniqueIds(roster) ==> UniqueIds(MergeOne(roster, u, ops))
  {
    var r := MergeOne(roster, u, ops);
    if exists i :: 0 <= i < |roster| && roster[i].id == u.id {
      var k :| 0 <= k < |roster| && roster[k].id == u.id;
      assert forall i :: 0 <= i < |roster| ==> r[i].id == roster[i].id;
      forall x | x in Ids(r) ensures x in Ids(roster) {
        var p :| p in r && p.id == x;
        var i :| 0 <= i < |r| && r[i] == p;
      }
      forall x | x in Ids(roster) ensures x in Ids(r) {
        var p :| p in roster && p.id == x;
        var i :| 0 <= i < |roster| && roster[i] == p;
        assert r[i] in r;
      }
      assert roster[k] in roster;
    } else {
      assert r == roster + [u];
      IdsAppend(roster, u);
    }
  }

  /** With id-based `equals` and an id-keeping copy, merging a snapshot
      gives exactly the ids of the roster and of the snapshot, each once if
      the roster had each once. */
  lemma {:induction false} MergeAllKeepsIdsUnique(roster: seq<Player>, updates: seq<Player>, ops: PlayerOps)
    requires EqualsById(ops) && CopyKeepsId(ops)
    ensures Ids(MergeAll(roster, updates, ops)) == Ids(roster) + Ids(updates)
    ensures UniqueIds(roster) ==> UniqueIds(MergeAll(roster, updates, ops))
    decreases |updates|
  {
    if updates != [] {
      var init, last := updates[..|updates| - 1], updates[|updates| - 1];
      MergeAllKeepsIdsUnique(roster, init, ops);
      MergeOneKeepsIdsUnique(MergeAll(roster, init, ops), last, ops);
      assert updates == init + [last];
      IdsAppend(init, last);
    }
  }

  /** Membership goes by `equals`, the update by id. If `equals` compares
      every field, an update for a player already present but with a
      changed score is not contained, and is appended as a second entry
      with the same id. */
  lemma StructuralEqualsDuplicatesIds(p: Player, ops: PlayerOps)
    requires forall a, b :: ops.equals(a, b) <==> a == b
    ensures var u := p.(score := p.score + 1);
      MergeOne([p], u, ops) == [p, u] && !UniqueIds(MergeOne([p], u, ops))
  {
    var u := p.(score := p.score + 1);
    assert !ops.equals(u, [p][0]);
    assert [p, u][0].id == [p, u][1].id;
  }
}
