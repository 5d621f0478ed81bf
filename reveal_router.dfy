/** The reveal router (src/server/api/routers/reveal.ts): a user challenges
    another user by email. The checks run in a fixed order and the first that
    fails decides the error; only when all pass is one match row inserted,
    pairing the caller's ACTIVE team (home) with the challenger's (away). */
module RevealRouter {
  import opened Domain
  import opened Roster
  import opened Store

  /** The number of picks a team needs to enter a reveal. */
  const SquadSize := 15
  /** The number of starters a team needs to enter a reveal. */
  const StartersNeeded := 11

  /** A team may enter a reveal when it holds exactly 15 picks and at least
      11 of them start. */
  predicate SquadComplete(entries: seq<FplPlayer>, catalogue: map<nat, Player>, teamId: nat)
  {
    Count(entries, catalogue, teamId, AnyEntry) == SquadSize
    && Count(entries, catalogue, teamId, HasStatus(Starter)) >= StartersNeeded
  }

  datatype Pairing = Pairing(homeTeamId: nat, awayTeamId: nat)

  /** Whether the user with this email has an ACTIVE team. */
  ghost predicate HasActiveTeamByEmail(users: seq<User>, teams: seq<FplTeam>, email: string)
  {
    exists t :: t in teams && t.status == Active && OwnedByEmail(users, t, email)
  }

  /** Every ACTIVE team of the user with this email may enter a reveal. */
  ghost predicate ActiveTeamsComplete(users: seq<User>, teams: seq<FplTeam>, entries: seq<FplPlayer>,
                                      catalogue: map<nat, Player>, email: string)
  {
    forall t :: t in teams && t.status == Active && OwnedByEmail(users, t, email) ==>
      SquadComplete(entries, catalogue, t.id)
  }

  /** The checks of `createReveal`, in source order: not oneself, the caller's
      ACTIVE team, its 15 picks and 11 starters, the challenger, the
      challenger's ACTIVE team, its 15 picks and 11 starters. */
  function Admit(users: seq<User>, teams: seq<FplTeam>, entries: seq<FplPlayer>, catalogue: map<nat, Player>,
                 callerEmail: string, challengerEmail: string): (r: Result<Pairing>)
    ensures callerEmail == challengerEmail ==> r == Err(InternalServerError)
    ensures (callerEmail != challengerEmail && !HasActiveTeamByEmail(users, teams, callerEmail))
              ==> r == Err(NotFound)
    ensures r.Ok? ==>
              callerEmail != challengerEmail
              && (exists u :: u in users && u.email == challengerEmail)
              && (exists t :: t in teams && t.status == Active && OwnedByEmail(users, t, callerEmail)
                   && t.id == r.value.homeTeamId && SquadComplete(entries, catalogue, t.id))
              && (exists t :: t in teams && t.status == Active && OwnedByEmail(users, t, challengerEmail)
                   && t.id == r.value.awayTeamId && SquadComplete(entries, catalogue, t.id))
    ensures (callerEmail != challengerEmail
             && HasActiveTeamByEmail(users, teams, callerEmail)
             && ActiveTeamsComplete(users, teams, entries, catalogue, callerEmail)
             && (exists u :: u in users && u.email == challengerEmail)
             && HasActiveTeamByEmail(users, teams, challengerEmail)
             && ActiveTeamsComplete(users, teams, entries, catalogue, challengerEmail))
              ==> r.Ok?
    ensures r == Err(NotFound) ==>
              !HasActiveTeamByEmail(users, teams, callerEmail)
              || (forall u :: u in users ==> u.email != challengerEmail)
              || !HasActiveTeamByEmail(users, teams, challengerEmail)
    ensures r == Err(InternalServerError) ==>
              callerEmail == challengerEmail
              || !ActiveTeamsComplete(users, teams, entries, catalogue, callerEmail)
              || !ActiveTeamsComplete(users, teams, entries, catalogue, challengerEmail)
    ensures r.Err? ==> r.code == NotFound || r.code == InternalServerError
    // Each check in turn, on what the lookups find: the caller's first ACTIVE
    // team is judged before the challenger is looked up at all.
    ensures var home := FindActiveTeamByEmail(users, teams, callerEmail);
            (callerEmail != challengerEmail && home.Some? && !SquadComplete(entries, catalogue, home.value.id))
            ==> r == Err(InternalServerError)
    ensures var home := FindActiveTeamByEmail(users, teams, callerEmail);
            (callerEmail != challengerEmail && home.Some? && SquadComplete(entries, catalogue, home.value.id)
             && FindUserByEmail(users, challengerEmail).None?)
            ==> r == Err(NotFound)
    ensures var home := FindActiveTeamByEmail(users, teams, callerEmail);
            (callerEmail != challengerEmail && home.Some? && SquadComplete(entries, catalogue, home.value.id)
             && FindUserByEmail(users, challengerEmail).Some? && FindActiveTeamByEmail(users, teams, challengerEmail).None?)
            ==> r == Err(NotFound)
    ensures var home := FindActiveTeamByEmail(users, teams, callerEmail);
            var away := FindActiveTeamByEmail(users, teams, challengerEmail);
            (callerEmail != challengerEmail && home.Some? && SquadComplete(entries, catalogue, home.value.id)
             && FindUserByEmail(users, challengerEmail).Some? && away.Some?)
            ==> r == (if SquadComplete(entries, catalogue, away.value.id)
                      then Ok(Pairing(home.value.id, away.value.id)) else Err(InternalServerError))
  {
    if callerEmail == challengerEmail then Err(InternalServerError)
    else match FindActiveTeamByEmail(users, teams, callerEmail)
      case None => Err(NotFound)
      case Some(home) =>
        if Count(entries, catalogue, home.id, AnyEntry) != SquadSize then Err(InternalServerError)
        else if Count(entries, catalogue, home.id, HasStatus(Starter)) < StartersNeeded then Err(InternalServerError)
        else match FindUserByEmail(users, challengerEmail)
          case None => Err(NotFound)
          case Some(_) =>
            match FindActiveTeamByEmail(users, teams, challengerEmail)
            case None => Err(NotFound)
            case Some(away) =>
              if Count(entries, catalogue, away.id, AnyEntry) != SquadSize then Err(InternalServerError)
              else if Count(entries, catalogue, away.id, HasStatus(Starter)) < StartersNeeded then Err(InternalServerError)
              else Ok(Pairing(home.id, away.id))
  }

  /** A caller whose ACTIVE team is short of 15 picks is refused with
      INTERNAL_SERVER_ERROR even when the challenger does not exist: the
      caller's squad is checked first. */
  lemma IncompleteCallerJudgedFirst()
    ensures Admit([User(1, "a")], [FplTeam(5, 1, "t", Active)], [], map[], "a", "b") == Err(InternalServerError)
  {
    assert FindActiveTeamByEmail([User(1, "a")], [FplTeam(5, 1, "t", Active)], "a") == Some(FplTeam(5, 1, "t", Active)) by {
      assert User(1, "a") in [User(1, "a")];
    }
  }

  /** `createReveal`: runs the checks and, when they pass, inserts one match
      and returns its id; on any failure nothing is inserted. */
  method CreateReveal(db: Database, callerEmail: string, challengerEmail: string) returns (r: Result<nat>)
    requires db.Valid()
    modifies db
    ensures db.Valid()
    ensures db.users == old(db.users) && db.catalogue == old(db.catalogue)
    ensures db.teams == old(db.teams) && db.entries == old(db.entries)
    ensures r.Ok? <==> Admit(db.users, db.teams, db.entries, db.catalogue, callerEmail, challengerEmail).Ok?
    ensures r.Err? ==>
              r.code == Admit(db.users, db.teams, db.entries, db.catalogue, callerEmail, challengerEmail).code
              && db.matches == old(db.matches) && db.nextId == old(db.nextId)
    ensures r.Ok? ==>
              var pairing := Admit(db.users, db.teams, db.entries, db.catalogue, callerEmail, challengerEmail).value;
              r.value == old(db.nextId) && db.nextId == old(db.nextId) + 1
              && db.matches == old(db.matches) + [RevealMatch(r.value, pairing.homeTeamId, pairing.awayTeamId)]
  {
    var verdict := Admit(db.users, db.teams, db.entries, db.catalogue, callerEmail, challengerEmail);
    match verdict
    case Err(code) =>
      r := Err(code);
    case Ok(pairing) =>
      var id := db.nextId;
      db.matches := db.matches + [RevealMatch(id, pairing.homeTeamId, pairing.awayTeamId)];
      db.nextId := db.nextId + 1;
      r := Ok(id);
  }

  /** A team filled to every cap by additions alone may enter a reveal. */
  lemma FullAddOnlySquadIsComplete(entries: seq<FplPlayer>, catalogue: map<nat, Player>, teamId: nat)
    requires Catalogued(entries, catalogue)
    requires AddOnlyShaped(entries, catalogue, teamId)
    requires Full(entries, catalogue, teamId)
    ensures SquadComplete(entries, catalogue, teamId)
  {
    FullAddOnlySquadIs442(entries, catalogue, teamId);
  }

  /** A full add-only team whose starting goalkeeper was removed and replaced
      by adding another goalkeeper still holds 15 picks but can no longer enter
      a reveal: only 10 of them start. */
  lemma GoalkeeperSwapBlocksReveal(entries: seq<FplPlayer>, catalogue: map<nat, Player>, teamId: nat, i: nat, e: FplPlayer)
    requires Catalogued(entries, catalogue)
    requires AddOnlyShaped(entries, catalogue, teamId)
    requires Full(entries, catalogue, teamId)
    requires i < |entries| && entries[i].fplTeamId == teamId && entries[i].status == Starter
    requires catalogue[entries[i].playerId].position == Goalkeeper
    requires e.fplTeamId == teamId && e.playerId in catalogue && catalogue[e.playerId].position == Goalkeeper
    requires e.status == StatusOnAdd(RemoveAt(entries, i), catalogue, teamId, Goalkeeper)
    ensures Count(RemoveAt(entries, i) + [e], catalogue, teamId, AnyEntry) == SquadSize
    ensures !SquadComplete(RemoveAt(entries, i) + [e], catalogue, teamId)
  {
    assert entries[i] in entries;
    RemoveAndReaddLosesStarter(entries, catalogue, teamId, i, e);
  }
}
