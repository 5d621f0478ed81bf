/** The pitch of the team picker (src/components/drafts/fpl-field.tsx): one row
    per position, goalkeepers at the top, each holding a placeholder card per
    free slot and then a card per pick of that position. */
module FplField {
  import opened Domain
  import opened Roster
  import opened Categorize

  /** The number of card places the pitch draws for a position. */
  function RowCapacity(p: Position): (n: nat)
    ensures n == MaxPlayersForPosition(p)
  {
    match p
    case Goalkeeper => 2
    case Defender => 5
    case Midfielder => 5
    case Forward => 3
  }

  /** `capacity - filled > 0 && Array.from({ length: capacity - filled })`:
      the number of placeholder cards. */
  function EmptySlots(capacity: nat, filled: nat): (n: nat)
    ensures filled <= capacity ==> n + filled == capacity
    ensures filled >= capacity ==> n == 0
  {
    if capacity - filled > 0 then capacity - filled else 0
  }

  /** What a filled card shows: the club's outfield jersey, whatever the
      position, and the player's name. */
  datatype FieldCard = FieldCard(jersey: string, name: string)

  function FieldCardOf(x: SquadEntry): FieldCard
  {
    FieldCard(x.player.club.jerseyUrl, x.player.name)
  }

  /** One pitch row: its position, how many placeholders it draws and the
      picks it draws cards for. */
  datatype Row = Row(position: Position, emptySlots: nat, picks: seq<SquadEntry>)

  function RowOf(squad: seq<SquadEntry>, p: Position): (row: Row)
    ensures row.position == p
    ensures forall k :: 0 <= k < |row.picks| ==> row.picks[k] in squad && row.picks[k].player.position == p
  {
    var bucket := OfPosition(squad, EntryPosition, p);
    Row(p, EmptySlots(RowCapacity(p), |bucket|), bucket)
  }

  /** The four rows, from the goal outwards. */
  function Field(squad: seq<SquadEntry>): (rows: seq<Row>)
    ensures |rows| == 4
    ensures rows[0].position == Goalkeeper && rows[1].position == Defender
         && rows[2].position == Midfielder && rows[3].position == Forward
    ensures forall i :: 0 <= i < 4 ==> rows[i] == RowOf(squad, rows[i].position)
  {
    [RowOf(squad, Goalkeeper), RowOf(squad, Defender), RowOf(squad, Midfielder), RowOf(squad, Forward)]
  }

  /** Every pick gets exactly one card on the pitch, in the row of its
      position. */
  lemma FieldShowsEveryPickOnce(squad: seq<SquadEntry>)
    ensures multiset(Field(squad)[0].picks) + multiset(Field(squad)[1].picks)
          + multiset(Field(squad)[2].picks) + multiset(Field(squad)[3].picks) == multiset(squad)
  {
    BucketsPartition(squad, EntryPosition);
  }

  /** The picks of one position in a team's squad are as many as the store
      counts for it. */
  lemma {:induction false} SquadPositionCount(entries: seq<FplPlayer>, catalogue: map<nat, Player>, teamId: nat, p: Position)
    ensures |OfPosition(TeamSquad(entries, catalogue, teamId), EntryPosition, p)| == Count(entries, catalogue, teamId, AtPosition(p))
  {
    if entries != [] {
      SquadPositionCount(entries[..|entries| - 1], catalogue, teamId, p);
      SquadPositionStep(entries, catalogue, teamId, p);
    }
  }

  lemma SquadPositionStep(entries: seq<FplPlayer>, catalogue: map<nat, Player>, teamId: nat, p: Position)
    requires entries != []
    ensures |OfPosition(TeamSquad(entries, catalogue, teamId), EntryPosition, p)|
         == |OfPosition(TeamSquad(entries[..|entries| - 1], catalogue, teamId), EntryPosition, p)|
          + (if Meets(entries[|entries| - 1], catalogue, teamId, AtPosition(p)) then 1 else 0)
  {
    var e := entries[|entries| - 1];
    var prev := TeamSquad(entries[..|entries| - 1], catalogue, teamId);
    if e.fplTeamId == teamId && e.playerId in catalogue {
      var x := SquadEntry(e.id, e.status, catalogue[e.playerId]);
      assert TeamSquad(entries, catalogue, teamId) == prev + [x];
      OfPositionSnoc(prev, x, EntryPosition, p);
      assert EntryPosition(x) == catalogue[e.playerId].position;
    } else {
      assert TeamSquad(entries, catalogue, teamId) == prev;
    }
  }

  /** For a team of a store whose per-position caps hold, every row draws
      exactly its capacity: placeholders plus cards. */
  lemma StoredTeamRowsExact(entries: seq<FplPlayer>, catalogue: map<nat, Player>, teamId: nat, p: Position)
    requires Count(entries, catalogue, teamId, AtPosition(p)) <= MaxPlayersForPosition(p)
    ensures var row := RowOf(TeamSquad(entries, catalogue, teamId), p);
            row.emptySlots + |row.picks| == RowCapacity(p)
            && |row.picks| == Count(entries, catalogue, teamId, AtPosition(p))
  {
    SquadPositionCount(entries, catalogue, teamId, p);
  }
}
