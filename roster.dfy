/** The squad rules of the draft router (src/server/api/routers/fpl.ts): how
    many players a position may hold, which status a new pick receives, and
    what the counts over a team's stored picks look like when picks are only
    ever added. */
module Roster {
  import opened Domain

  /** The slots a position has in a 15-player squad. */
  function MaxPlayersForPosition(p: Position): (cap: nat)
    ensures 2 <= cap <= 5
    ensures p == Goalkeeper || p == Forward ==> cap < 4
  {
    match p
    case Goalkeeper => 2
    case Defender => 5
    case Midfielder => 5
    case Forward => 3
  }

  /** The status a new pick gets when `noOfPlayers` picks of its position are
      already in the team ("4-4-2"): the last slot of each position is the
      bench slot, every other slot starts. */
  function PlayerStatusFor(noOfPlayers: nat, p: Position): (st: PlayerStatus)
    ensures st == Bench <==> noOfPlayers + 1 == MaxPlayersForPosition(p)
  {
    match p
    case Goalkeeper => if noOfPlayers == 1 then Bench else Starter
    case Defender => if noOfPlayers == 4 then Bench else Starter
    case Midfielder => if noOfPlayers == 4 then Bench else Starter
    case Forward => if noOfPlayers == 2 then Bench else Starter
  }

  /** What a count over the stored picks of one team looks at. The position of
      a pick is that of its catalogue player, so a pick whose player is not in
      the catalogue has no position. */
  datatype Criterion =
    | AnyEntry
    | HasStatus(status: PlayerStatus)
    | AtPosition(position: Position)
    | AtPositionWithStatus(position: Position, status: PlayerStatus)

  predicate Meets(e: FplPlayer, catalogue: map<nat, Player>, teamId: nat, c: Criterion)
  {
    e.fplTeamId == teamId &&
    match c
    case AnyEntry => true
    case HasStatus(st) => e.status == st
    case AtPosition(p) =>
      e.playerId in catalogue && catalogue[e.playerId].position == p
    case AtPositionWithStatus(p, st) =>
      e.playerId in catalogue && catalogue[e.playerId].position == p && e.status == st
  }

  /** The number of stored picks of team `teamId` that meet `c`. */
  function Count(entries: seq<FplPlayer>, catalogue: map<nat, Player>, teamId: nat, c: Criterion): (n: nat)
    ensures n <= |entries|
  {
    if entries == [] then 0
    else
      Count(entries[..|entries| - 1], catalogue, teamId, c)
      + (if Meets(entries[|entries| - 1], catalogue, teamId, c) then 1 else 0)
  }

  /** The picks of a team joined with their catalogue players: the
      `fplPlayers` list a page receives. The query sets no order; the model
      takes the picks in insertion order. */
  function TeamSquad(entries: seq<FplPlayer>, catalogue: map<nat, Player>, teamId: nat): (s: seq<SquadEntry>)
    ensures |s| <= |entries|
  {
    if entries == [] then []
    else
      var e := entries[|entries| - 1];
      TeamSquad(entries[..|entries| - 1], catalogue, teamId)
      + (if e.fplTeamId == teamId && e.playerId in catalogue
         then [SquadEntry(e.id, e.status, catalogue[e.playerId])] else [])
  }

  lemma TeamSquadSnoc(entries: seq<FplPlayer>, e: FplPlayer, catalogue: map<nat, Player>, teamId: nat)
    ensures TeamSquad(entries + [e], catalogue, teamId)
         == TeamSquad(entries, catalogue, teamId)
            + (if e.fplTeamId == teamId && e.playerId in catalogue
               then [SquadEntry(e.id, e.status, catalogue[e.playerId])] else [])
  {
    assert (entries + [e])[..|entries|] == entries;
  }

  /** The squad holds one entry per catalogued pick of the team: as many as
      its four position counts together. */
  lemma {:induction false} TeamSquadSize(entries: seq<FplPlayer>, catalogue: map<nat, Player>, teamId: nat)
    ensures |TeamSquad(entries, catalogue, teamId)|
         == Count(entries, catalogue, teamId, AtPosition(Goalkeeper))
          + Count(entries, catalogue, teamId, AtPosition(Defender))
          + Count(entries, catalogue, teamId, AtPosition(Midfielder))
          + Count(entries, catalogue, teamId, AtPosition(Forward))
  {
    if entries != [] {
      TeamSquadSize(entries[..|entries| - 1], catalogue, teamId);
    }
  }

  /** Every pick refers to a catalogue player. */
  ghost predicate Catalogued(entries: seq<FplPlayer>, catalogue: map<nat, Player>)
  {
    forall e :: e in entries ==> e.playerId in catalogue
  }

  /** The status `addPlayer` gives a new pick of position `p` in team `teamId`. */
  function StatusOnAdd(entries: seq<FplPlayer>, catalogue: map<nat, Player>, teamId: nat, p: Position): PlayerStatus
  {
    PlayerStatusFor(Count(entries, catalogue, teamId, AtPosition(p)), p)
  }

  /** Every pick of team `teamId` carries the status `addPlayer` gave it when it
      was appended: nothing of that team was removed in between. */
  ghost predicate AddOnlyShaped(entries: seq<FplPlayer>, catalogue: map<nat, Player>, teamId: nat)
  {
    forall i :: 0 <= i < |entries| && entries[i].fplTeamId == teamId && entries[i].playerId in catalogue ==>
      entries[i].status == StatusOnAdd(entries[..i], catalogue, teamId, catalogue[entries[i].playerId].position)
  }

  /** The number of starters among the first n picks of position p added to an
      empty team. */
  function StartersAmongFirst(n: nat, p: Position): (r: nat)
    ensures r == if n >= MaxPlayersForPosition(p) then n - 1 else n
  {
    if n == 0 then 0
    else StartersAmongFirst(n - 1, p) + (if PlayerStatusFor(n - 1, p) == Starter then 1 else 0)
  }

  lemma CountSnoc(entries: seq<FplPlayer>, e: FplPlayer, catalogue: map<nat, Player>, teamId: nat, c: Criterion)
    ensures Count(entries + [e], catalogue, teamId, c)
         == Count(entries, catalogue, teamId, c) + (if Meets(e, catalogue, teamId, c) then 1 else 0)
  {
    assert (entries + [e])[..|entries|] == entries;
  }

  lemma {:induction false} CountConcat(a: seq<FplPlayer>, b: seq<FplPlayer>, catalogue: map<nat, Player>, teamId: nat, c: Criterion)
    ensures Count(a + b, catalogue, teamId, c) == Count(a, catalogue, teamId, c) + Count(b, catalogue, teamId, c)
    decreases |b|
  {
    if b == [] {
      assert a + b == a;
    } else {
      var init := b[..|b| - 1];
      var x := b[|b| - 1];
      assert b == init + [x];
      assert a + b == (a + init) + [x];
      CountConcat(a, init, catalogue, teamId, c);
      CountSnoc(a + init, x, catalogue, teamId, c);
      CountSnoc(init, x, catalogue, teamId, c);
    }
  }

  /** Deleting one pick lowers a count by one exactly when that pick met it. */
  lemma CountRemoveAt(entries: seq<FplPlayer>, i: nat, catalogue: map<nat, Player>, teamId: nat, c: Criterion)
    requires i < |entries|
    ensures Count(RemoveAt(entries, i), catalogue, teamId, c) + (if Meets(entries[i], catalogue, teamId, c) then 1 else 0)
         == Count(entries, catalogue, teamId, c)
  {
    assert entries == entries[..i] + [entries[i]] + entries[i + 1..];
    CountConcat(entries[..i] + [entries[i]], entries[i + 1..], catalogue, teamId, c);
    CountSnoc(entries[..i], entries[i], catalogue, teamId, c);
    CountConcat(entries[..i], entries[i + 1..], catalogue, teamId, c);
  }

  lemma AddOnlyShapedPrefix(entries: seq<FplPlayer>, n: nat, catalogue: map<nat, Player>, teamId: nat)
    requires n <= |entries|
    requires AddOnlyShaped(entries, catalogue, teamId)
    ensures AddOnlyShaped(entries[..n], catalogue, teamId)
  {
    forall i | 0 <= i < n
      ensures entries[..n][..i] == entries[..i]
    {
    }
  }

  /** Appending a pick with the status `addPlayer` computes keeps a team
      add-only shaped; so does appending a pick of another team. */
  lemma AppendKeepsAddOnlyShape(entries: seq<FplPlayer>, e: FplPlayer, catalogue: map<nat, Player>, teamId: nat)
    requires AddOnlyShaped(entries, catalogue, teamId)
    requires e.fplTeamId == teamId && e.playerId in catalogue ==>
               e.status == StatusOnAdd(entries, catalogue, teamId, catalogue[e.playerId].position)
    ensures AddOnlyShaped(entries + [e], catalogue, teamId)
  {
    var s := entries + [e];
    forall i | 0 <= i < |s| && s[i].fplTeamId == teamId && s[i].playerId in catalogue
      ensures s[i].status == StatusOnAdd(s[..i], catalogue, teamId, catalogue[s[i].playerId].position)
    {
      if i < |entries| {
        assert s[..i] == entries[..i];
      } else {
        assert s[..i] == entries;
      }
    }
  }

  /** In an add-only team the starters of a position are exactly the starters
      among the first picks of that position. */
  lemma {:induction false} StartersFollowAddOrder(entries: seq<FplPlayer>, catalogue: map<nat, Player>, teamId: nat, p: Position)
    requires AddOnlyShaped(entries, catalogue, teamId)
    ensures Count(entries, catalogue, teamId, AtPositionWithStatus(p, Starter))
         == StartersAmongFirst(Count(entries, catalogue, teamId, AtPosition(p)), p)
  {
    if entries != [] {
      var n := |entries| - 1;
      var init := entries[..n];
      var x := entries[n];
      AddOnlyShapedPrefix(entries, n, catalogue, teamId);
      StartersFollowAddOrder(init, catalogue, teamId, p);
      if Meets(x, catalogue, teamId, AtPosition(p)) {
        assert x.status == PlayerStatusFor(Count(init, catalogue, teamId, AtPosition(p)), p);
      }
    }
  }

  lemma CataloguedPrefix(entries: seq<FplPlayer>, n: nat, catalogue: map<nat, Player>)
    requires n <= |entries| && Catalogued(entries, catalogue)
    ensures Catalogued(entries[..n], catalogue)
  {
    forall e | e in entries[..n] ensures e.playerId in catalogue {
      assert e in entries;
    }
  }

  /** Over a catalogued team, the picks split by position. */
  lemma {:induction false} CountSplitsByPosition(entries: seq<FplPlayer>, catalogue: map<nat, Player>, teamId: nat)
    requires Catalogued(entries, catalogue)
    ensures Count(entries, catalogue, teamId, AnyEntry)
         == Count(entries, catalogue, teamId, AtPosition(Goalkeeper))
          + Count(entries, catalogue, teamId, AtPosition(Defender))
          + Count(entries, catalogue, teamId, AtPosition(Midfielder))
          + Count(entries, catalogue, teamId, AtPosition(Forward))
  {
    if entries != [] {
      var n := |entries| - 1;
      CataloguedPrefix(entries, n, catalogue);
      CountSplitsByPosition(entries[..n], catalogue, teamId);
      assert entries[n] in entries;
    }
  }

  /** The picks split into starters and bench. */
  lemma {:induction false} CountSplitsByStatus(entries: seq<FplPlayer>, catalogue: map<nat, Player>, teamId: nat)
    ensures Count(entries, catalogue, teamId, AnyEntry)
         == Count(entries, catalogue, teamId, HasStatus(Starter))
          + Count(entries, catalogue, teamId, HasStatus(Bench))
  {
    if entries != [] {
      CountSplitsByStatus(entries[..|entries| - 1], catalogue, teamId);
    }
  }

  /** Over a catalogued team, the starters split by position. */
  lemma {:induction false} StartersSplitByPosition(entries: seq<FplPlayer>, catalogue: map<nat, Player>, teamId: nat)
    requires Catalogued(entries, catalogue)
    ensures Count(entries, catalogue, teamId, HasStatus(Starter))
         == Count(entries, catalogue, teamId, AtPositionWithStatus(Goalkeeper, Starter))
          + Count(entries, catalogue, teamId, AtPositionWithStatus(Defender, Starter))
          + Count(entries, catalogue, teamId, AtPositionWithStatus(Midfielder, Starter))
          + Count(entries, catalogue, teamId, AtPositionWithStatus(Forward, Starter))
  {
    if entries != [] {
      var n := |entries| - 1;
      CataloguedPrefix(entries, n, catalogue);
      StartersSplitByPosition(entries[..n], catalogue, teamId);
      assert entries[n] in entries;
    }
  }

  /** Picks whose positions are all within their caps make at most 15. */
  lemma SquadSizeBounded(entries: seq<FplPlayer>, catalogue: map<nat, Player>, teamId: nat)
    requires Catalogued(entries, catalogue)
    requires forall p :: Count(entries, catalogue, teamId, AtPosition(p)) <= MaxPlayersForPosition(p)
    ensures Count(entries, catalogue, teamId, AnyEntry) <= 15
  {
    CountSplitsByPosition(entries, catalogue, teamId);
    assert Count(entries, catalogue, teamId, AtPosition(Goalkeeper)) <= 2;
    assert Count(entries, catalogue, teamId, AtPosition(Defender)) <= 5;
    assert Count(entries, catalogue, teamId, AtPosition(Midfielder)) <= 5;
    assert Count(entries, catalogue, teamId, AtPosition(Forward)) <= 3;
  }

  /** Every position filled to its cap. */
  ghost predicate Full(entries: seq<FplPlayer>, catalogue: map<nat, Player>, teamId: nat)
  {
    forall p :: Count(entries, catalogue, teamId, AtPosition(p)) == MaxPlayersForPosition(p)
  }

  /** Filling a team to every cap by additions alone gives the 4-4-2 shape:
      15 picks, 11 starters (1 GK, 4 DEF, 4 MID, 2 FWD) and 4 on the bench. */
  lemma FullAddOnlySquadIs442(entries: seq<FplPlayer>, catalogue: map<nat, Player>, teamId: nat)
    requires Catalogued(entries, catalogue)
    requires AddOnlyShaped(entries, catalogue, teamId)
    requires Full(entries, catalogue, teamId)
    ensures Count(entries, catalogue, teamId, AnyEntry) == 15
    ensures Count(entries, catalogue, teamId, HasStatus(Starter)) == 11
    ensures Count(entries, catalogue, teamId, HasStatus(Bench)) == 4
  {
    CountSplitsByPosition(entries, catalogue, teamId);
    CountSplitsByStatus(entries, catalogue, teamId);
    StartersSplitByPosition(entries, catalogue, teamId);
    StartersFollowAddOrder(entries, catalogue, teamId, Goalkeeper);
    StartersFollowAddOrder(entries, catalogue, teamId, Defender);
    StartersFollowAddOrder(entries, catalogue, teamId, Midfielder);
    StartersFollowAddOrder(entries, catalogue, teamId, Forward);
    assert Count(entries, catalogue, teamId, AtPosition(Goalkeeper)) == 2;
    assert Count(entries, catalogue, teamId, AtPosition(Defender)) == 5;
    assert Count(entries, catalogue, teamId, AtPosition(Midfielder)) == 5;
    assert Count(entries, catalogue, teamId, AtPosition(Forward)) == 3;
  }

  /** The 4-4-2 shape is not an invariant: in a full add-only team, deleting
      the starting goalkeeper and adding a goalkeeper again gives 15 picks of
      which only 10 start, because the new goalkeeper is the second one and
      takes the bench status. */
  lemma RemoveAndReaddLosesStarter(entries: seq<FplPlayer>, catalogue: map<nat, Player>, teamId: nat, i: nat, e: FplPlayer)
    requires Catalogued(entries, catalogue)
    requires AddOnlyShaped(entries, catalogue, teamId)
    requires Full(entries, catalogue, teamId)
    requires i < |entries| && entries[i].fplTeamId == teamId && entries[i].status == Starter
    requires catalogue[entries[i].playerId].position == Goalkeeper
    requires e.fplTeamId == teamId && e.playerId in catalogue && catalogue[e.playerId].position == Goalkeeper
    requires e.status == StatusOnAdd(RemoveAt(entries, i), catalogue, teamId, Goalkeeper)
    ensures Count(RemoveAt(entries, i) + [e], catalogue, teamId, AnyEntry) == 15
    ensures Count(RemoveAt(entries, i) + [e], catalogue, teamId, HasStatus(Starter)) == 10
  {
    assert entries[i] in entries;
    var rest := RemoveAt(entries, i);
    FullAddOnlySquadIs442(entries, catalogue, teamId);
    CountRemoveAt(entries, i, catalogue, teamId, AnyEntry);
    CountRemoveAt(entries, i, catalogue, teamId, HasStatus(Starter));
    CountRemoveAt(entries, i, catalogue, teamId, AtPosition(Goalkeeper));
    assert Count(entries, catalogue, teamId, AtPosition(Goalkeeper)) == 2;
    assert e.status == Bench;
    CountSnoc(rest, e, catalogue, teamId, AnyEntry);
    CountSnoc(rest, e, catalogue, teamId, HasStatus(Starter));
  }
}
