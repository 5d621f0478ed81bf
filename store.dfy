/** The database the routers read and write: users, the player catalogue,
    teams, picks and reveal matches, with the invariants every successful
    procedure keeps. A `findFirst` query returns the first matching row in
    insertion order. */
module Store {
  import opened Domain
  import opened Roster

  /** At most one ACTIVE team per user. */
  ghost predicate OneActivePerUser(teams: seq<FplTeam>)
  {
    forall i, j ::
      (0 <= i < |teams| && 0 <= j < |teams| && teams[i].status == Active && teams[j].status == Active
       && teams[i].userId == teams[j].userId) ==> i == j
  }

  /** No team holds the same catalogue player twice. */
  ghost predicate NoDuplicatePicks(entries: seq<FplPlayer>)
  {
    forall i, j :: 0 <= i < j < |entries| && entries[i].fplTeamId == entries[j].fplTeamId ==>
      entries[i].playerId != entries[j].playerId
  }

  /** No team holds more players of a position than the position has slots. */
  ghost predicate WithinCaps(entries: seq<FplPlayer>, catalogue: map<nat, Player>)
  {
    forall teamId: nat, p: Position :: Count(entries, catalogue, teamId, AtPosition(p)) <= MaxPlayersForPosition(p)
  }

  /** Pick ids are primary keys. */
  ghost predicate UniqueEntryIds(entries: seq<FplPlayer>)
  {
    forall i, j :: 0 <= i < |entries| && 0 <= j < |entries| && entries[i].id == entries[j].id ==> i == j
  }

  /** Whether the user owns a team with this id (`findFirst` on id and owner). */
  predicate OwnsTeam(teams: seq<FplTeam>, teamId: nat, userId: nat)
  {
    exists t :: t in teams && t.id == teamId && t.userId == userId
  }

  /** Whether the user already has an ACTIVE team. */
  predicate HasActiveTeam(teams: seq<FplTeam>, userId: nat)
  {
    exists t :: t in teams && t.userId == userId && t.status == Active
  }

  /** Whether the team already holds this catalogue player. */
  predicate HasPick(entries: seq<FplPlayer>, teamId: nat, playerId: nat)
  {
    exists e :: e in entries && e.fplTeamId == teamId && e.playerId == playerId
  }

  predicate PickMatches(e: FplPlayer, id: nat, userId: nat, teamId: nat)
  {
    e.id == id && e.userId == userId && e.fplTeamId == teamId
  }

  /** The index of the first pick with this id, owner and team. */
  function FindPick(entries: seq<FplPlayer>, id: nat, userId: nat, teamId: nat): (r: Option<nat>)
    ensures r.Some? ==> r.value < |entries| && PickMatches(entries[r.value], id, userId, teamId)
    ensures r.Some? ==> forall j :: 0 <= j < r.value ==> !PickMatches(entries[j], id, userId, teamId)
    ensures r.None? ==> forall e :: e in entries ==> !PickMatches(e, id, userId, teamId)
  {
    if entries == [] then None
    else if PickMatches(entries[0], id, userId, teamId) then Some(0)
    else match FindPick(entries[1..], id, userId, teamId)
      case None => None
      case Some(k) => Some(k + 1)
  }

  /** Whether the team belongs to a user registered with this email. */
  predicate OwnedByEmail(users: seq<User>, t: FplTeam, email: string)
  {
    exists u :: u in users && u.id == t.userId && u.email == email
  }

  /** The first ACTIVE team of a user with this email. */
  function FindActiveTeamByEmail(users: seq<User>, teams: seq<FplTeam>, email: string): (r: Option<FplTeam>)
    ensures r.Some? ==> r.value in teams && r.value.status == Active && OwnedByEmail(users, r.value, email)
    ensures r.Some? ==> exists i :: 0 <= i < |teams| && teams[i] == r.value
                          && forall j :: 0 <= j < i ==> !(teams[j].status == Active && OwnedByEmail(users, teams[j], email))
    ensures r.None? ==> forall t :: t in teams && t.status == Active ==> !OwnedByEmail(users, t, email)
  {
    if teams == [] then None
    else if teams[0].status == Active && OwnedByEmail(users, teams[0], email) then Some(teams[0])
    else
      var rest := FindActiveTeamByEmail(users, teams[1..], email);
      if rest.Some? then
        ghost var i :| 0 <= i < |teams[1..]| && teams[1..][i] == rest.value
                        && forall j :: 0 <= j < i ==> !(teams[1..][j].status == Active && OwnedByEmail(users, teams[1..][j], email));
        assert teams[i + 1] == rest.value;
        rest
      else rest
  }

  /** The first user registered with this email. */
  function FindUserByEmail(users: seq<User>, email: string): (r: Option<User>)
    ensures r.Some? ==> r.value in users && r.value.email == email
    ensures r.Some? ==> exists i :: 0 <= i < |users| && users[i] == r.value
                          && forall j :: 0 <= j < i ==> users[j].email != email
    ensures r.None? ==> forall u :: u in users ==> u.email != email
  {
    if users == [] then None
    else if users[0].email == email then Some(users[0])
    else
      var rest := FindUserByEmail(users[1..], email);
      if rest.Some? then
        ghost var i :| 0 <= i < |users[1..]| && users[1..][i] == rest.value
                        && forall j :: 0 <= j < i ==> users[1..][j].email != email;
        assert users[i + 1] == rest.value;
        rest
      else rest
  }

  class Database {
    var users: seq<User>
    var catalogue: map<nat, Player>
    var teams: seq<FplTeam>
    var entries: seq<FplPlayer>
    var matches: seq<RevealMatch>
    /** The next fresh row id. */
    var nextId: nat

    ghost predicate Valid()
      reads this
    {
      && OneActivePerUser(teams)
      && Catalogued(entries, catalogue)
      && NoDuplicatePicks(entries)
      && WithinCaps(entries, catalogue)
      && UniqueEntryIds(entries)
      && (forall e :: e in entries ==> e.id < nextId)
      && (forall t :: t in teams ==> t.id < nextId)
      && (forall m :: m in matches ==> m.id < nextId)
    }

    /** A store with registered users and a catalogue, and no teams yet. */
    constructor (users: seq<User>, catalogue: map<nat, Player>)
      ensures Valid()
      ensures this.users == users && this.catalogue == catalogue
      ensures teams == [] && entries == [] && matches == []
    {
      this.users := users;
      this.catalogue := catalogue;
      teams := [];
      entries := [];
      matches := [];
      nextId := 0;
    }
  }
}
