/** What the reveal screen shows of one team
    (src/components/reveal/reveal-client.tsx, the home and the away
    component alike): the starting list and the bench list, each ordered
    goalkeepers, defenders, midfielders, forwards; the one player on show while
    the reveal counter runs; and, for every shown player, the jersey, the name
    and the position label. The timers that advance the counter are not part
    of this model; the counter is an input. */
module RevealView {
  import opened Domain
  import opened Roster
  import opened Categorize

  /** `getSeperatedPlayers`: the picks with status st, in order. */
  function WithStatus(squad: seq<SquadEntry>, st: PlayerStatus): (r: seq<SquadEntry>)
    ensures |r| <= |squad|
    ensures forall k :: 0 <= k < |r| ==> r[k] in squad && r[k].status == st
    ensures forall k :: 0 <= k < |squad| && squad[k].status == st ==> squad[k] in r
  {
    if squad == [] then []
    else
      WithStatus(squad[..|squad| - 1], st)
      + (if squad[|squad| - 1].status == st then [squad[|squad| - 1]] else [])
  }

  lemma WithStatusSnoc(squad: seq<SquadEntry>, x: SquadEntry, st: PlayerStatus)
    ensures WithStatus(squad + [x], st) == WithStatus(squad, st) + (if x.status == st then [x] else [])
  {
    assert (squad + [x])[..|squad|] == squad;
  }

  /** Where each element of a status filter sits in the input: a strictly
      increasing list of input indices, so the filter keeps the input order. */
  function WithStatusIndices(squad: seq<SquadEntry>, st: PlayerStatus): (idx: seq<nat>)
    ensures |idx| == |WithStatus(squad, st)|
    ensures forall k :: 0 <= k < |idx| ==> idx[k] < |squad| && squad[idx[k]] == WithStatus(squad, st)[k]
    ensures forall k, l :: 0 <= k < l < |idx| ==> idx[k] < idx[l]
  {
    if squad == [] then []
    else
      WithStatusIndices(squad[..|squad| - 1], st)
      + (if squad[|squad| - 1].status == st then [|squad| - 1] else [])
  }

  /** The picks of one status grouped by position: goalkeepers first, then
      defenders, midfielders and forwards, each group in input order. */
  function Lineup(squad: seq<SquadEntry>, st: PlayerStatus): seq<SquadEntry>
  {
    WithStatus(OfPosition(squad, EntryPosition, Goalkeeper), st)
    + WithStatus(OfPosition(squad, EntryPosition, Defender), st)
    + WithStatus(OfPosition(squad, EntryPosition, Midfielder), st)
    + WithStatus(OfPosition(squad, EntryPosition, Forward), st)
  }

  /** `startingElevenPlayers`. */
  function StartingEleven(squad: seq<SquadEntry>): (r: seq<SquadEntry>)
    ensures |r| == |WithStatus(squad, Starter)|
    ensures forall k :: 0 <= k < |r| ==> r[k] in squad && r[k].status == Starter
  {
    LineupSize(squad, Starter);
    LineupOrdered(squad, Starter);
    Lineup(squad, Starter)
  }

  /** `benchPlayers`. */
  function BenchPlayers(squad: seq<SquadEntry>): (r: seq<SquadEntry>)
    ensures |r| == |WithStatus(squad, Bench)|
    ensures forall k :: 0 <= k < |r| ==> r[k] in squad && r[k].status == Bench
  {
    LineupSize(squad, Bench);
    LineupOrdered(squad, Bench);
    Lineup(squad, Bench)
  }

  /** The order of positions on the pitch, from the goal outwards. */
  function PositionRank(p: Position): nat
  {
    match p
    case Goalkeeper => 0
    case Defender => 1
    case Midfielder => 2
    case Forward => 3
  }

  lemma GroupMembers(squad: seq<SquadEntry>, st: PlayerStatus, p: Position)
    ensures forall x :: x in WithStatus(OfPosition(squad, EntryPosition, p), st) ==>
              x in squad && x.status == st && x.player.position == p
  {
    var bucket := OfPosition(squad, EntryPosition, p);
    forall x | x in WithStatus(bucket, st)
      ensures x in squad && x.status == st && x.player.position == p
    {
      var k :| 0 <= k < |bucket| && bucket[k] == x;
    }
  }

  /** A lineup holds only picks of its status, and its positions never go
      back towards the goal. */
  lemma LineupOrdered(squad: seq<SquadEntry>, st: PlayerStatus)
    ensures forall x :: x in Lineup(squad, st) ==> x in squad && x.status == st
    ensures forall i, j :: 0 <= i < j < |Lineup(squad, st)| ==>
              PositionRank(Lineup(squad, st)[i].player.position) <= PositionRank(Lineup(squad, st)[j].player.position)
  {
    var g := WithStatus(OfPosition(squad, EntryPosition, Goalkeeper), st);
    var d := WithStatus(OfPosition(squad, EntryPosition, Defender), st);
    var m := WithStatus(OfPosition(squad, EntryPosition, Midfielder), st);
    var f := WithStatus(OfPosition(squad, EntryPosition, Forward), st);
    GroupMembers(squad, st, Goalkeeper);
    GroupMembers(squad, st, Defender);
    GroupMembers(squad, st, Midfielder);
    GroupMembers(squad, st, Forward);
    assert Lineup(squad, st) == g + d + m + f;
    GroupsInRankOrder(squad, st, g, d, m, f);
  }

  /** Four groups of picks of one status, one per position in rank order,
      concatenate to a list of that status whose ranks never go down. */
  lemma GroupsInRankOrder(squad: seq<SquadEntry>, st: PlayerStatus,
                          g: seq<SquadEntry>, d: seq<SquadEntry>, m: seq<SquadEntry>, f: seq<SquadEntry>)
    requires forall x :: x in g ==> x in squad && x.status == st && x.player.position == Goalkeeper
    requires forall x :: x in d ==> x in squad && x.status == st && x.player.position == Defender
    requires forall x :: x in m ==> x in squad && x.status == st && x.player.position == Midfielder
    requires forall x :: x in f ==> x in squad && x.status == st && x.player.position == Forward
    ensures forall x :: x in g + d + m + f ==> x in squad && x.status == st
    ensures forall i, j :: 0 <= i < j < |g + d + m + f| ==>
              PositionRank((g + d + m + f)[i].player.position) <= PositionRank((g + d + m + f)[j].player.position)
  {
    var l := g + d + m + f;
    forall k | 0 <= k < |l|
      ensures l[k] in squad && l[k].status == st
      ensures PositionRank(l[k].player.position)
           == if k < |g| then 0 else if k < |g| + |d| then 1 else if k < |g| + |d| + |m| then 2 else 3
    {
      if k < |g| {
        assert l[k] == g[k] && g[k] in g;
      } else if k < |g| + |d| {
        assert l[k] == d[k - |g|] && d[k - |g|] in d;
      } else if k < |g| + |d| + |m| {
        assert l[k] == m[k - |g| - |d|] && m[k - |g| - |d|] in m;
      } else {
        assert l[k] == f[k - |g| - |d| - |m|] && f[k - |g| - |d| - |m|] in f;
      }
    }
  }

  lemma {:induction false} StatusSplit(squad: seq<SquadEntry>)
    ensures multiset(WithStatus(squad, Starter)) + multiset(WithStatus(squad, Bench)) == multiset(squad)
  {
    if squad != [] {
      var init := squad[..|squad| - 1];
      var x := squad[|squad| - 1];
      assert squad == init + [x];
      StatusSplit(init);
      WithStatusSnoc(init, x, Starter);
      WithStatusSnoc(init, x, Bench);
    }
  }

  /** The starting list and the bench list never share a pick, and together
      they hold every pick of the team exactly as often as the team does. */
  lemma StartingAndBenchPartitionSquad(squad: seq<SquadEntry>)
    ensures forall x :: x in StartingEleven(squad) ==> x !in BenchPlayers(squad)
    ensures multiset(StartingEleven(squad)) + multiset(BenchPlayers(squad)) == multiset(squad)
  {
    LineupOrdered(squad, Starter);
    LineupOrdered(squad, Bench);
    StatusSplit(OfPosition(squad, EntryPosition, Goalkeeper));
    StatusSplit(OfPosition(squad, EntryPosition, Defender));
    StatusSplit(OfPosition(squad, EntryPosition, Midfielder));
    StatusSplit(OfPosition(squad, EntryPosition, Forward));
    BucketsPartition(squad, EntryPosition);
  }

  /** The lineup of a status is as long as the number of picks with it. */
  lemma LineupSize(squad: seq<SquadEntry>, st: PlayerStatus)
    ensures |Lineup(squad, st)| == |WithStatus(squad, st)|
  {
    var ws := WithStatus(squad, st);
    BucketsPartition(ws, EntryPosition);
    forall p ensures WithStatus(OfPosition(squad, EntryPosition, p), st) == OfPosition(ws, EntryPosition, p) {
      StatusAndPositionCommute(squad, st, p);
    }
    BucketSizesSum(ws, EntryPosition);
  }

  lemma {:induction false} StatusAndPositionCommute(squad: seq<SquadEntry>, st: PlayerStatus, p: Position)
    ensures WithStatus(OfPosition(squad, EntryPosition, p), st) == OfPosition(WithStatus(squad, st), EntryPosition, p)
  {
    if squad != [] {
      var init := squad[..|squad| - 1];
      var x := squad[|squad| - 1];
      assert squad == init + [x];
      StatusAndPositionCommute(init, st, p);
      var byPosition := OfPosition(init, EntryPosition, p);
      var byStatus := WithStatus(init, st);
      var tail := if x.player.position == p && x.status == st then [x] else [];
      assert EntryPosition(x) == x.player.position;
      assert byPosition + [] == byPosition && byStatus + [] == byStatus;
      calc {
        WithStatus(OfPosition(squad, EntryPosition, p), st);
        { OfPositionSnoc(init, x, EntryPosition, p); }
        WithStatus(byPosition + (if x.player.position == p then [x] else []), st);
        { if x.player.position == p { WithStatusSnoc(byPosition, x, st); } }
        WithStatus(byPosition, st) + tail;
        OfPosition(byStatus, EntryPosition, p) + tail;
        { if x.status == st { OfPositionSnoc(byStatus, x, EntryPosition, p); } }
        OfPosition(byStatus + (if x.status == st then [x] else []), EntryPosition, p);
        { WithStatusSnoc(init, x, st); }
        OfPosition(WithStatus(squad, st), EntryPosition, p);
      }
    }
  }

  /** A lineup is the status filter of the squad, bucketed by position and
      the buckets joined from the goal outwards. */
  lemma LineupIsBucketedFilter(squad: seq<SquadEntry>, st: PlayerStatus)
    ensures var ws := WithStatus(squad, st);
            Lineup(squad, st) == OfPosition(ws, EntryPosition, Goalkeeper) + OfPosition(ws, EntryPosition, Defender)
                               + OfPosition(ws, EntryPosition, Midfielder) + OfPosition(ws, EntryPosition, Forward)
  {
    StatusAndPositionCommute(squad, st, Goalkeeper);
    StatusAndPositionCommute(squad, st, Defender);
    StatusAndPositionCommute(squad, st, Midfielder);
    StatusAndPositionCommute(squad, st, Forward);
  }

  /** Where each pick of one position group of a lineup (see
      LineupIsBucketedFilter) sits in the squad: a strictly increasing list of
      squad indices, so every group shows its picks in the order they were
      added. */
  function GroupIndices(squad: seq<SquadEntry>, st: PlayerStatus, p: Position): (idx: seq<nat>)
    ensures |idx| == |OfPosition(WithStatus(squad, st), EntryPosition, p)|
    ensures forall k :: 0 <= k < |idx| ==>
              idx[k] < |squad| && squad[idx[k]] == OfPosition(WithStatus(squad, st), EntryPosition, p)[k]
    ensures forall k, l :: 0 <= k < l < |idx| ==> idx[k] < idx[l]
  {
    var ws := WithStatus(squad, st);
    ComposeIndices(squad, ws, OfPosition(ws, EntryPosition, p),
                   WithStatusIndices(squad, st), OfPositionIndices(ws, EntryPosition, p))
  }

  /** Index lists compose: if ys sits in xs at increasing indices and zs sits
      in ys likewise, then zs sits in xs at increasing indices. */
  function ComposeIndices<T>(xs: seq<T>, ys: seq<T>, zs: seq<T>, outer: seq<nat>, inner: seq<nat>): (idx: seq<nat>)
    requires |outer| == |ys| && forall k :: 0 <= k < |outer| ==> outer[k] < |xs| && xs[outer[k]] == ys[k]
    requires forall k, l :: 0 <= k < l < |outer| ==> outer[k] < outer[l]
    requires |inner| == |zs| && forall k :: 0 <= k < |inner| ==> inner[k] < |ys| && ys[inner[k]] == zs[k]
    requires forall k, l :: 0 <= k < l < |inner| ==> inner[k] < inner[l]
    ensures |idx| == |zs|
    ensures forall k :: 0 <= k < |idx| ==> idx[k] < |xs| && xs[idx[k]] == zs[k]
    ensures forall k, l :: 0 <= k < l < |idx| ==> idx[k] < idx[l]
  {
    seq(|inner|, k requires 0 <= k < |inner| => outer[inner[k]])
  }

  /** The player on show at reveal step `revealCount` (counting from 1): the
      count-th starter while the count stays below 12 and such a starter
      exists; otherwise none, and the bench grid is shown. */
  function ActivePlayer(starting: seq<SquadEntry>, revealCount: int): (r: Option<SquadEntry>)
    ensures r.Some? <==> 1 <= revealCount <= |starting| && revealCount < 12
    ensures r.Some? ==> r.value == starting[revealCount - 1]
  {
    if 1 <= revealCount <= |starting| && revealCount < 12 then Some(starting[revealCount - 1]) else None
  }

  /** The jersey image shown for a player: a goalkeeper wears the club's
      goalkeeper jersey when the club has one. */
  function Jersey(p: Player): (url: string)
    ensures p.position != Goalkeeper ==> url == p.club.jerseyUrl
    ensures p.position == Goalkeeper && p.club.goalkeeperJerseyUrl.Some? ==> url == p.club.goalkeeperJerseyUrl.value
    ensures p.position == Goalkeeper && p.club.goalkeeperJerseyUrl.None? ==> url == p.club.jerseyUrl
  {
    if p.position == Goalkeeper then
      match p.club.goalkeeperJerseyUrl
      case Some(url) => url
      case None => p.club.jerseyUrl
    else p.club.jerseyUrl
  }

  function LowerChar(c: char): char
  {
    if 'A' <= c <= 'Z' then (c as int + 32) as char else c
  }

  function UpperChar(c: char): char
  {
    if 'a' <= c <= 'z' then (c as int - 32) as char else c
  }

  /** `s.charAt(0) + s.slice(1).toLowerCase()` for ASCII text. */
  function Capitalized(s: string): (r: string)
    ensures |r| == |s|
    ensures |s| > 0 ==> r[0] == s[0]
    ensures forall i :: 1 <= i < |s| ==> r[i] == LowerChar(s[i])
  {
    if s == [] then [] else [s[0]] + seq(|s| - 1, i requires 0 <= i < |s| - 1 => LowerChar(s[i + 1]))
  }

  function UpperCased(s: string): (r: string)
    ensures |r| == |s| && forall i :: 0 <= i < |s| ==> r[i] == UpperChar(s[i])
  {
    seq(|s|, i requires 0 <= i < |s| => UpperChar(s[i]))
  }

  predicate AllUpper(s: string)
  {
    forall i :: 0 <= i < |s| ==> 'A' <= s[i] <= 'Z'
  }

  /** Capitalizing an upper-case word loses nothing: upper-casing the result
      gives the word back. */
  lemma CapitalizedRoundTrip(s: string)
    requires AllUpper(s)
    ensures UpperCased(Capitalized(s)) == s
  {
    var r := UpperCased(Capitalized(s));
    forall i | 0 <= i < |s| ensures r[i] == s[i] {
      if i > 0 {
        assert Capitalized(s)[i] == LowerChar(s[i]);
      }
    }
  }

  /** The label shown under a player, e.g. "Goalkeeper" for GOALKEEPER. */
  function PositionLabel(p: Position): (shown: string)
    ensures |shown| == |PositionName(p)| && |shown| > 0
    ensures shown[0] == PositionName(p)[0] && 'A' <= shown[0] <= 'Z'
    ensures forall i :: 1 <= i < |shown| ==> 'a' <= shown[i] <= 'z'
  {
    NameIsUpper(p);
    Capitalized(PositionName(p))
  }

  /** Upper-casing a position label gives the enum name back, so the four
      labels differ. */
  lemma PositionLabelRoundTrip(p: Position)
    ensures UpperCased(PositionLabel(p)) == PositionName(p)
    ensures forall q :: PositionLabel(q) == PositionLabel(p) ==> q == p
  {
    forall q ensures UpperCased(PositionLabel(q)) == PositionName(q) {
      NameIsUpper(q);
      CapitalizedRoundTrip(PositionName(q));
    }
    forall q | PositionLabel(q) == PositionLabel(p) ensures q == p {
      assert PositionName(q) == PositionName(p);
      assert PositionFromName(PositionName(p)) == Some(p);
    }
  }

  /** The example of the label: GOALKEEPER is shown as "Goalkeeper". */
  lemma GoalkeeperLabel()
    ensures PositionLabel(Goalkeeper) == "Goalkeeper"
  {
    var l := PositionLabel(Goalkeeper);
    assert PositionName(Goalkeeper) == "GOALKEEPER";
    assert l == ['G', 'o', 'a', 'l', 'k', 'e', 'e', 'p', 'e', 'r'];
  }

  lemma NameIsUpper(p: Position)
    ensures AllUpper(PositionName(p))
  {
    var s := PositionName(p);
    match p
    case Goalkeeper =>
      assert s == ['G', 'O', 'A', 'L', 'K', 'E', 'E', 'P', 'E', 'R'];
    case Defender =>
      assert s == ['D', 'E', 'F', 'E', 'N', 'D', 'E', 'R'];
    case Midfielder =>
      assert s == ['M', 'I', 'D', 'F', 'I', 'E', 'L', 'D', 'E', 'R'];
    case Forward =>
      assert s == ['F', 'O', 'R', 'W', 'A', 'R', 'D'];
  }

  /** What the screen shows for one player. */
  datatype Card = Card(jersey: string, name: string, positionLabel: string)

  function CardOf(x: SquadEntry): (c: Card)
    ensures c.name == match x.player.displayName case Some(n) => n case None => x.player.name
  {
    Card(Jersey(x.player),
         match x.player.displayName case Some(n) => n case None => x.player.name,
         PositionLabel(x.player.position))
  }

  /** The screen of one side: a single player card, or the bench grid. */
  datatype Screen = Single(card: Card) | BenchGrid(cards: seq<Card>)

  function RevealScreen(squad: seq<SquadEntry>, revealCount: int): Screen
  {
    match ActivePlayer(StartingEleven(squad), revealCount)
    case Some(x) => Single(CardOf(x))
    case None => BenchGrid(seq(|BenchPlayers(squad)|, i requires 0 <= i < |BenchPlayers(squad)| => CardOf(BenchPlayers(squad)[i])))
  }

  /** The picks of a catalogued team with status st are as many as the
      store counts. */
  lemma {:induction false} SquadStatusCount(entries: seq<FplPlayer>, catalogue: map<nat, Player>, teamId: nat, st: PlayerStatus)
    requires Catalogued(entries, catalogue)
    ensures |WithStatus(TeamSquad(entries, catalogue, teamId), st)| == Count(entries, catalogue, teamId, HasStatus(st))
  {
    if entries != [] {
      var init := entries[..|entries| - 1];
      var e := entries[|entries| - 1];
      assert entries == init + [e];
      CataloguedPrefix(entries, |init|, catalogue);
      SquadStatusCount(init, catalogue, teamId, st);
      assert e in entries;
      TeamSquadSnoc(init, e, catalogue, teamId);
      if e.fplTeamId == teamId {
        var x := SquadEntry(e.id, e.status, catalogue[e.playerId]);
        assert TeamSquad(entries, catalogue, teamId) == TeamSquad(init, catalogue, teamId) + [x];
        WithStatusSnoc(TeamSquad(init, catalogue, teamId), x, st);
      } else {
        assert TeamSquad(entries, catalogue, teamId) == TeamSquad(init, catalogue, teamId);
      }
    }
  }

  /** For a team with at least 11 starting picks, reveal steps 1 to 11 each
      show the next starter, goalkeepers first, and step 12 shows the bench. */
  lemma CompleteTeamRevealsElevenThenBench(entries: seq<FplPlayer>, catalogue: map<nat, Player>, teamId: nat, revealCount: int)
    requires Catalogued(entries, catalogue)
    requires Count(entries, catalogue, teamId, HasStatus(Starter)) >= 11
    requires 1 <= revealCount <= 12
    ensures |StartingEleven(TeamSquad(entries, catalogue, teamId))| >= 11
    ensures var squad := TeamSquad(entries, catalogue, teamId);
            if revealCount <= 11
            then RevealScreen(squad, revealCount) == Single(CardOf(StartingEleven(squad)[revealCount - 1]))
                 && StartingEleven(squad)[revealCount - 1].status == Starter
            else RevealScreen(squad, revealCount).BenchGrid?
  {
    var squad := TeamSquad(entries, catalogue, teamId);
    SquadStatusCount(entries, catalogue, teamId, Starter);
    LineupSize(squad, Starter);
    LineupOrdered(squad, Starter);
    if revealCount <= 11 {
      assert StartingEleven(squad)[revealCount - 1] in StartingEleven(squad);
    }
  }
}
