/** The entities of the fantasy-football draft store and the error codes the
    procedures raise. Prices are kept in tenths of a million (the source stores
    decimals such as 5.5), so every price is a natural number. */
module Domain {

  datatype Option<T> = None | Some(value: T)

  /** The four playing positions of a squad. */
  datatype Position = Goalkeeper | Defender | Midfielder | Forward

  /** A team (draft) is either a plain draft or the user's active team. */
  datatype TeamStatus = Draft | Active

  /** Whether a picked player starts or sits on the bench. */
  datatype PlayerStatus = Starter | Bench

  /** The RPC error codes the routers raise. BadRequest is what input
      validation answers before a procedure body runs. */
  datatype ErrorCode = BadRequest | NotFound | Conflict | InternalServerError

  /** The outcome of a procedure that returns nothing on success. */
  datatype Outcome = Done | Failed(code: ErrorCode)

  /** The outcome of a procedure that returns a value on success. */
  datatype Result<T> = Ok(value: T) | Err(code: ErrorCode)

  datatype Club = Club(id: nat, jerseyUrl: string, goalkeeperJerseyUrl: Option<string>)

  /** A catalogue player; `price` is in tenths. */
  datatype Player = Player(id: nat, name: string, displayName: Option<string>,
                           position: Position, price: nat, club: Club)

  datatype User = User(id: nat, email: string)

  /** A user's team (draft). */
  datatype FplTeam = FplTeam(id: nat, userId: nat, name: string, status: TeamStatus)

  /** A stored pick: one catalogue player placed in one team. */
  datatype FplPlayer = FplPlayer(id: nat, fplTeamId: nat, playerId: nat, userId: nat,
                                 status: PlayerStatus)

  /** A pick joined with its catalogue player, as the pages receive it. */
  datatype SquadEntry = SquadEntry(id: nat, status: PlayerStatus, player: Player)

  datatype RevealMatch = RevealMatch(id: nat, homeTeamId: nat, awayTeamId: nat)

  /** The position of a squad entry's player. */
  function EntryPosition(e: SquadEntry): Position { e.player.position }

  /** The position of a catalogue player. */
  function PlayerPosition(x: Player): Position { x.position }

  /** The enum member's name as the database and the pages spell it. */
  function PositionName(p: Position): (s: string)
    ensures |s| > 0
  {
    match p
    case Goalkeeper => "GOALKEEPER"
    case Defender => "DEFENDER"
    case Midfielder => "MIDFIELDER"
    case Forward => "FORWARD"
  }

  /** Reads a position back from its name; any other string names none. */
  function PositionFromName(s: string): (r: Option<Position>)
    ensures r.Some? ==> PositionName(r.value) == s
    ensures forall p :: PositionName(p) == s ==> r == Some(p)
  {
    if s == "GOALKEEPER" then Some(Goalkeeper)
    else if s == "DEFENDER" then Some(Defender)
    else if s == "MIDFIELDER" then Some(Midfielder)
    else if s == "FORWARD" then Some(Forward)
    else None
  }

  /** The sequence with the element at index i taken out. */
  function RemoveAt<T>(s: seq<T>, i: nat): (r: seq<T>)
    requires i < |s|
    ensures |r| == |s| - 1
    ensures multiset(r) == multiset(s) - multiset{s[i]}
  {
    assert s == s[..i] + [s[i]] + s[i + 1..];
    s[..i] + s[i + 1..]
  }
}
