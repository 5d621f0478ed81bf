/** The draft router (src/server/api/routers/fpl.ts): creating a team, adding
    a catalogue player to it and removing a pick from it. Each procedure runs
    its checks in order, answers the first failing one with an error and leaves
    the store as it was, or changes the store by exactly one row. */
module FplRouter {
  import opened Domain
  import opened Roster
  import opened Store

  /** The longest team name the input schema admits. */
  const MaxTeamNameLength := 300

  /** `createDraft`: a DRAFT team is always created; an ACTIVE one only when the
      user has no ACTIVE team yet. */
  method CreateDraft(db: Database, userId: nat, name: string, status: TeamStatus) returns (outcome: Outcome)
    requires db.Valid()
    modifies db
    ensures db.Valid()
    ensures db.users == old(db.users) && db.catalogue == old(db.catalogue)
    ensures db.entries == old(db.entries) && db.matches == old(db.matches)
    ensures |name| > MaxTeamNameLength ==> outcome == Failed(BadRequest)
    ensures (|name| <= MaxTeamNameLength && status == Active && HasActiveTeam(old(db.teams), userId))
              ==> outcome == Failed(Conflict)
    ensures outcome.Done? <==>
              |name| <= MaxTeamNameLength && (status == Active ==> !HasActiveTeam(old(db.teams), userId))
    ensures outcome.Done? ==>
              db.teams == old(db.teams) + [FplTeam(old(db.nextId), userId, name, status)]
              && db.nextId == old(db.nextId) + 1
    ensures outcome.Failed? ==> db.teams == old(db.teams) && db.nextId == old(db.nextId)
  {
    if |name| > MaxTeamNameLength {
      return Failed(BadRequest);
    }
    if status == Active && HasActiveTeam(db.teams, userId) {
      return Failed(Conflict);
    }
    var team := FplTeam(db.nextId, userId, name, status);
    if status == Active {
      forall k | 0 <= k < |db.teams| && db.teams[k].status == Active
        ensures db.teams[k].userId != userId
      {
        assert db.teams[k] in db.teams;
      }
    }
    db.teams := db.teams + [team];
    db.nextId := db.nextId + 1;
    outcome := Done;
  }

  /** `addPlayer`: the team must belong to the caller (else NOT_FOUND), the
      player must exist (else NOT_FOUND), must not be in the team yet (else
      CONFLICT) and its position must have a free slot (else CONFLICT). The new
      pick's status follows the 4-4-2 rule for the count before insertion. */
  method AddPlayer(db: Database, userId: nat, fplTeamId: nat, playerId: nat) returns (outcome: Outcome)
    requires db.Valid()
    modifies db
    ensures db.Valid()
    ensures db.users == old(db.users) && db.catalogue == old(db.catalogue)
    ensures db.teams == old(db.teams) && db.matches == old(db.matches)
    ensures !OwnsTeam(db.teams, fplTeamId, userId) ==> outcome == Failed(NotFound)
    ensures OwnsTeam(db.teams, fplTeamId, userId) && playerId !in db.catalogue ==> outcome == Failed(NotFound)
    ensures (OwnsTeam(db.teams, fplTeamId, userId) && playerId in db.catalogue
             && HasPick(old(db.entries), fplTeamId, playerId)) ==> outcome == Failed(Conflict)
    ensures (OwnsTeam(db.teams, fplTeamId, userId) && playerId in db.catalogue
             && !HasPick(old(db.entries), fplTeamId, playerId)
             && Count(old(db.entries), db.catalogue, fplTeamId, AtPosition(db.catalogue[playerId].position))
                >= MaxPlayersForPosition(db.catalogue[playerId].position))
              ==> outcome == Failed(Conflict)
    ensures outcome.Done? <==>
              OwnsTeam(db.teams, fplTeamId, userId) && playerId in db.catalogue
              && !HasPick(old(db.entries), fplTeamId, playerId)
              && Count(old(db.entries), db.catalogue, fplTeamId, AtPosition(db.catalogue[playerId].position))
                 < MaxPlayersForPosition(db.catalogue[playerId].position)
    ensures outcome.Done? ==>
              db.entries == old(db.entries) + [FplPlayer(old(db.nextId), fplTeamId, playerId, userId,
                StatusOnAdd(old(db.entries), db.catalogue, fplTeamId, db.catalogue[playerId].position))]
              && db.nextId == old(db.nextId) + 1
    ensures outcome.Failed? ==> db.entries == old(db.entries) && db.nextId == old(db.nextId)
    ensures outcome.Done? ==> forall t :: old(AddOnlyShaped(db.entries, db.catalogue, t))
                                ==> AddOnlyShaped(db.entries, db.catalogue, t)
  {
    if !OwnsTeam(db.teams, fplTeamId, userId) {
      return Failed(NotFound);
    }
    if playerId !in db.catalogue {
      return Failed(NotFound);
    }
    if HasPick(db.entries, fplTeamId, playerId) {
      return Failed(Conflict);
    }
    var position := db.catalogue[playerId].position;
    var playersWithThisPosition := Count(db.entries, db.catalogue, fplTeamId, AtPosition(position));
    if playersWithThisPosition >= MaxPlayersForPosition(position) {
      return Failed(Conflict);
    }
    var pick := FplPlayer(db.nextId, fplTeamId, playerId, userId, PlayerStatusFor(playersWithThisPosition, position));
    ghost var before := db.entries;
    db.entries := db.entries + [pick];
    db.nextId := db.nextId + 1;
    outcome := Done;

    // The new pick keeps every invariant of the store.
    assert Catalogued(db.entries, db.catalogue) by {
      forall e | e in db.entries ensures e.playerId in db.catalogue {
        if e != pick { assert e in before; }
      }
    }
    forall i, j | 0 <= i < j < |db.entries| && db.entries[i].fplTeamId == db.entries[j].fplTeamId
      ensures db.entries[i].playerId != db.entries[j].playerId
    {
      if j == |before| {
        assert before[i] in before;
      }
    }
    forall i, j | 0 <= i < |db.entries| && 0 <= j < |db.entries| && db.entries[i].id == db.entries[j].id
      ensures i == j
    {
      if i < |before| { assert before[i] in before; }
      if j < |before| { assert before[j] in before; }
    }
    forall t: nat, p: Position
      ensures Count(db.entries, db.catalogue, t, AtPosition(p)) <= MaxPlayersForPosition(p)
    {
      CountSnoc(before, pick, db.catalogue, t, AtPosition(p));
    }
    forall t | AddOnlyShaped(before, db.catalogue, t)
      ensures AddOnlyShaped(db.entries, db.catalogue, t)
    {
      AppendKeepsAddOnlyShape(before, pick, db.catalogue, t);
    }
  }

  /** `removePlayer`: deletes the caller's pick with this id from this team,
      or answers NOT_FOUND; every other pick stays, in order. */
  method RemovePlayer(db: Database, userId: nat, fplPlayerId: nat, fplTeamId: nat) returns (outcome: Outcome)
    requires db.Valid()
    modifies db
    ensures db.Valid()
    ensures db.users == old(db.users) && db.catalogue == old(db.catalogue)
    ensures db.teams == old(db.teams) && db.matches == old(db.matches) && db.nextId == old(db.nextId)
    ensures outcome.Done? <==> exists e :: e in old(db.entries) && PickMatches(e, fplPlayerId, userId, fplTeamId)
    ensures outcome.Failed? ==> outcome.code == NotFound && db.entries == old(db.entries)
    ensures outcome.Done? ==>
              exists i :: 0 <= i < |old(db.entries)| && PickMatches(old(db.entries)[i], fplPlayerId, userId, fplTeamId)
                && db.entries == RemoveAt(old(db.entries), i)
    ensures forall e :: e in old(db.entries) && e.id != fplPlayerId ==> e in db.entries
  {
    var found := FindPick(db.entries, fplPlayerId, userId, fplTeamId);
    if found.None? {
      return Failed(NotFound);
    }
    var i := found.value;
    ghost var before := db.entries;
    RemoveAtKeepsPicks(before, i, fplPlayerId);
    RemoveAtKeepsInvariants(before, i, db.catalogue);
    db.entries := RemoveAt(db.entries, i);
    outcome := Done;
  }

  /** Deleting one pick keeps every other pick, and adds none. */
  lemma RemoveAtKeepsPicks(before: seq<FplPlayer>, i: nat, id: nat)
    requires i < |before| && before[i].id == id
    ensures forall e :: e in before && e.id != id ==> e in RemoveAt(before, i)
    ensures forall e :: e in RemoveAt(before, i) ==> e in before
  {
    var after := RemoveAt(before, i);
    assert forall k :: 0 <= k < i ==> after[k] == before[k];
    assert forall k :: i <= k < |after| ==> after[k] == before[k + 1];
    forall e | e in before && e.id != id ensures e in after {
      var k :| 0 <= k < |before| && before[k] == e;
      if k < i { assert after[k] == e; } else { assert after[k - 1] == e; }
    }
    forall e | e in after ensures e in before {
      var k :| 0 <= k < |after| && after[k] == e;
      if k < i { assert before[k] == e; } else { assert before[k + 1] == e; }
    }
  }

  /** Deleting one pick keeps the store's invariants over the picks. */
  lemma RemoveAtKeepsInvariants(before: seq<FplPlayer>, i: nat, catalogue: map<nat, Player>)
    requires i < |before|
    requires Catalogued(before, catalogue) && NoDuplicatePicks(before)
    requires WithinCaps(before, catalogue) && UniqueEntryIds(before)
    ensures var after := RemoveAt(before, i);
            Catalogued(after, catalogue) && NoDuplicatePicks(after)
            && WithinCaps(after, catalogue) && UniqueEntryIds(after)
  {
    var after := RemoveAt(before, i);
    assert forall k :: 0 <= k < i ==> after[k] == before[k];
    assert forall k :: i <= k < |after| ==> after[k] == before[k + 1];
    forall e | e in after ensures e.playerId in catalogue {
      var k :| 0 <= k < |after| && after[k] == e;
      if k < i { assert before[k] in before; } else { assert before[k + 1] in before; }
    }
    forall a, b | 0 <= a < b < |after| && after[a].fplTeamId == after[b].fplTeamId
      ensures after[a].playerId != after[b].playerId
    {
      var a' := if a < i then a else a + 1;
      var b' := if b < i then b else b + 1;
      assert after[a] == before[a'] && after[b] == before[b'];
    }
    forall a, b | 0 <= a < |after| && 0 <= b < |after| && after[a].id == after[b].id
      ensures a == b
    {
      var a' := if a < i then a else a + 1;
      var b' := if b < i then b else b + 1;
      assert after[a] == before[a'] && after[b] == before[b'];
    }
    forall t: nat, p: Position
      ensures Count(after, catalogue, t, AtPosition(p)) <= MaxPlayersForPosition(p)
    {
      CountRemoveAt(before, i, catalogue, t, AtPosition(p));
    }
  }
}
