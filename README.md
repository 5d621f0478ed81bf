# FPL Revealer squad roster engine, in Dafny

A model of the squad roster engine of FPL Revealer, a fantasy football site.
Users draft 15-player teams from a catalogue of real players. They keep one
team ACTIVE and challenge other users to a "reveal", where both teams are
shown player by player.

The model covers:

- **The store** (`store.dfy`): users, the player catalogue, teams, picks and
  reveal matches, held by a `Database` class. Its `Valid()` invariant says:
  at most one ACTIVE team per user, every pick names a catalogue player, no
  player twice in a team, per-position caps, unique pick ids, fresh row ids.
- **The draft router** (`fpl_router.dfy`, over `roster.dfy`): `createDraft`,
  `addPlayer` and `removePlayer` as methods on the store. Each runs its checks
  in source order, fails with the source's error code and leaves the store
  unchanged, or changes exactly one row. The 4-4-2 status rule and the
  position caps are in `roster.dfy`, together with the counting lemmas:
  at most 15 picks; 11 starters and 4 on the bench once a team is filled by
  additions alone; and the counterexample showing that a remove followed by a
  re-add breaks that shape.
- **The reveal router** (`reveal_router.dfy`): the ordered admission checks
  of `createReveal` as one function, and the method that inserts the match.
- **Position bucketing** (`categorize.dfy`): the `forEach`/`push` loop of
  `getCategorizedPlayers` and `getCategorizedFplPlayers`, proved against a
  filter specification.
- **The views**:
  - `reveal_view.dfy`: the starting and bench lists of the reveal screen, the
    player on show at each reveal step, the jersey choice and the position
    label.
  - `drafts_view.dfy`: the drafts page's team list, with the ACTIVE team
    first.
  - `fpl_filter.dfy`: the max-price option ladder and the filter state.
  - `team_selection.dfy`: the budget fold and the two warning badges.
  - `fpl_field.dfy`: the pitch rows with their placeholder counts.

Conventions:

- Row ids are natural numbers taken from a counter in the store.
- A `findFirst` query returns the first matching row in insertion order.
- A team's picks are fetched without an ordering clause, so their order is the database's. The model takes them in insertion order; order facts about the reveal and pitch lists hold relative to the squad as fetched.
- The store starts from the constructor's state: the given users and catalogue, and no teams, picks or matches.
- Prices are integers: tenths of a unit for player prices and the budget
  (100.0 is 1000), half-units in the price filter (15.0 is 30).
- Strings are sequences of characters.
- The session (the caller's user id and email) is passed in as parameters.

## Model

| member | source | states |
|---|---|---|
| Roster.MaxPlayersForPosition | src/server/api/routers/fpl.ts:175-192 | a position takes at least 2 and at most 5 picks; goalkeepers and forwards fewer than 4 (the caps are 2/5/5/3) |
| Roster.PlayerStatusFor | src/server/api/routers/fpl.ts:155-173 | a new pick goes to the BENCH exactly when the picks of its position already number one less than the position's cap (1 goalkeeper, 4 defenders or midfielders, 2 forwards); otherwise it STARTS |
| Roster.StartersAmongFirst | src/server/api/routers/fpl.ts:155-173 | of the first n picks of a position added to an empty team, all start up to the cap, and once the cap is reached exactly one of them is on the bench |
| Roster.StartersFollowAddOrder | src/server/api/routers/fpl.ts:114-120 | in a team built by additions only, the starters of a position are as many as the status rule gives to that many additions |
| Roster.SquadSizeBounded | src/server/api/routers/fpl.ts:175-192 | a team whose positions are all within their caps (2/5/5/3) holds at most 15 picks |
| Roster.FullAddOnlySquadIs442 | src/server/api/routers/fpl.ts:155-173 | a team filled to every cap by additions alone has 15 picks, 11 starters and 4 on the bench |
| Roster.RemoveAndReaddLosesStarter | src/server/api/routers/fpl.ts:122-152 | removing the starting goalkeeper of such a team and adding a goalkeeper back gives 15 picks of which only 10 start: the 4-4-2 shape is not an invariant |
| Roster.CountSplitsByPosition | src/server/api/routers/fpl.ts:94-101 | a team's picks split into the four position counts |
| Roster.CountSplitsByStatus | src/server/api/routers/reveal.ts:45-47 | a team's picks split into starters and bench |
| Roster.CountRemoveAt | src/server/api/routers/fpl.ts:145-151 | deleting one pick lowers each count it met by one and leaves every other count as it was |
| Roster.AppendKeepsAddOnlyShape | src/server/api/routers/fpl.ts:114-120 | appending a pick with the status the rule gives it keeps a team add-only shaped |
| Roster.TeamSquadSize | src/server/api/routers/fpl.ts:94-101 | a team's joined squad has one entry per catalogued pick: as many as its four position counts together |
| Store.FindPick | src/server/api/routers/fpl.ts:130-136 | the index of the first pick with this id, owner and team, or none when no pick matches |
| Store.FindActiveTeamByEmail | src/server/api/routers/reveal.ts:21-29 | an ACTIVE team owned by a user with this email, with no such team before it in insertion order; none exactly when there is no such team |
| Store.FindUserByEmail | src/server/api/routers/reveal.ts:56-61 | a user with this email, with no user of that email before it; none exactly when there is no such user |
| Store.Database.Valid | src/server/api/routers/fpl.ts:17-121 | the store invariant the procedures keep: one ACTIVE team per user, every pick names a catalogue player, no player twice in a team, each position within its cap, unique pick ids, every row id below the id counter |
| FplRouter.CreateDraft | src/server/api/routers/fpl.ts:10-41 | a name over 300 characters is BAD_REQUEST; an ACTIVE team for a user who has one is CONFLICT; otherwise exactly one team is appended with a fresh id. The store invariant, including one ACTIVE team per user, is kept |
| FplRouter.AddPlayer | src/server/api/routers/fpl.ts:42-121 | the team not the caller's gives NOT_FOUND; an unknown player gives NOT_FOUND; a player already in the team gives CONFLICT; a full position gives CONFLICT; every failure leaves the picks unchanged. On success exactly one pick is appended, with the status the 4-4-2 rule gives for the count before insertion. The store invariant and the add-only shape of every team are kept |
| FplRouter.RemovePlayer | src/server/api/routers/fpl.ts:122-152 | succeeds exactly when a pick with this id, owner and team exists, and then deletes exactly that one pick, keeping the others in order; otherwise NOT_FOUND with nothing changed |
| FplRouter.RemoveAtKeepsPicks | src/server/api/routers/fpl.ts:145-151 | deleting the pick with the given id keeps every pick with another id and introduces none |
| FplRouter.RemoveAtKeepsInvariants | src/server/api/routers/fpl.ts:145-151 | deleting one pick keeps every pick catalogued, no player twice in a team, every position within its cap and pick ids unique |
| RevealRouter.Admit | src/server/api/routers/reveal.ts:14-103 | challenging oneself is INTERNAL_SERVER_ERROR before any lookup; a caller without an ACTIVE team is NOT_FOUND. Admission means both ACTIVE teams exist with 15 picks and at least 11 starters and the challenger exists. When all of that holds the challenge is admitted. Every NOT_FOUND and INTERNAL_SERVER_ERROR names a failed check. Step by step on the lookups: an incomplete first ACTIVE caller team is INTERNAL_SERVER_ERROR before the challenger is looked up; then a missing challenger, then a challenger without an ACTIVE team, is NOT_FOUND; then the challenger's first ACTIVE team is judged, and the pairing is the two first ACTIVE teams |
| RevealRouter.CreateReveal | src/server/api/routers/reveal.ts:105-113 | inserts exactly one match, home the caller's ACTIVE team and away the challenger's, when and only when admitted, and returns its fresh id; on any error nothing is inserted |
| RevealRouter.IncompleteCallerJudgedFirst | src/server/api/routers/reveal.ts:38-68 | a caller whose ACTIVE team has no picks, challenging an email nobody has, gets INTERNAL_SERVER_ERROR, not NOT_FOUND |
| RevealRouter.FullAddOnlySquadIsComplete | src/server/api/routers/reveal.ts:38-54 | a team filled to every cap by additions alone passes the 15-pick and 11-starter checks |
| RevealRouter.GoalkeeperSwapBlocksReveal | src/server/api/routers/reveal.ts:45-54 | after the goalkeeper remove-and-re-add, the team still has 15 picks but fails the 11-starter check |
| Categorize.Buckets.Push | src/lib/utils.ts:19-21 | pushing onto one position's bucket appends to that bucket and leaves the other three unchanged |
| Categorize.OfPosition | src/lib/utils.ts:11-39 | a bucket holds input elements of its position only, and every input element of that position |
| Categorize.Categorize | src/lib/utils.ts:26-39 | starting from four empty buckets, the push loop leaves each bucket equal to the input filtered by that position |
| Categorize.CategorizePlayers | src/lib/utils.ts:11-24 | catalogue players are bucketed by their position |
| Categorize.CategorizeFplPlayers | src/lib/utils.ts:26-39 | picks are bucketed by their player's position |
| Categorize.BucketsPartition | src/lib/utils.ts:34-36 | the four buckets together hold every input element exactly as often as the input does |
| Categorize.BucketCount | src/lib/utils.ts:34-36 | a bucket holds each element of its position as often as the input does, and no element of another position |
| Categorize.BucketSizesSum | src/lib/utils.ts:34-36 | the four bucket sizes add up to the input length |
| Categorize.OfPositionIndices | src/lib/utils.ts:19-21 | each bucket's elements sit at strictly increasing input indices, so a bucket keeps the input order |
| RevealView.WithStatus | src/components/reveal/reveal-client.tsx:173-178 | holds exactly the picks of the given status |
| RevealView.WithStatusIndices | src/components/reveal/reveal-client.tsx:173-178 | the status filter keeps the input order: its picks sit at strictly increasing squad indices |
| RevealView.Lineup | src/components/reveal/reveal-client.tsx:180-192 | a status's picks grouped goalkeepers, defenders, midfielders, forwards (see LineupIsBucketedFilter and GroupIndices) |
| RevealView.StartingEleven | src/components/reveal/reveal-client.tsx:180-185 | holds only starters of the squad, as many as the squad has |
| RevealView.BenchPlayers | src/components/reveal/reveal-client.tsx:187-192 | holds only bench picks of the squad, as many as the squad has |
| RevealView.LineupIsBucketedFilter | src/components/reveal/reveal-client.tsx:180-192 | a lineup is the status filter of the squad bucketed by position, the four buckets joined from the goal outwards |
| RevealView.GroupIndices | src/lib/utils.ts:34-36 | each position group of a lineup sits in the squad at strictly increasing indices: it shows its picks in the order the fetched squad lists them |
| RevealView.LineupOrdered | src/components/reveal/reveal-client.tsx:180-192 | a lineup holds only picks of its status, with goalkeepers before defenders before midfielders before forwards |
| RevealView.StartingAndBenchPartitionSquad | src/components/reveal/reveal-client.tsx:173-192 | no pick is in both lists, and together they hold every pick exactly as often as the team does |
| RevealView.LineupSize | src/components/reveal/reveal-client.tsx:180-185 | the starting list is as long as the number of starters |
| RevealView.StatusAndPositionCommute | src/components/reveal/reveal-client.tsx:180-185 | filtering a position's bucket by status equals bucketing the picks of that status |
| RevealView.ActivePlayer | src/components/reveal/reveal-client.tsx:194-196 | a player is on show exactly when the step counter is between 1 and the list length and below 12, and it is the counter-th starter |
| RevealView.Jersey | src/components/reveal/reveal-client.tsx:199-204 | a goalkeeper wears the club's goalkeeper jersey when the club has one; everyone else wears the club jersey |
| RevealView.CardOf | src/components/reveal/reveal-client.tsx:212 | the name shown is the display name when there is one, else the name |
| RevealView.Capitalized | src/components/reveal/reveal-client.tsx:214-215 | the first character is kept, ASCII letters after it are lower-cased, and the length is unchanged |
| RevealView.PositionLabel | src/components/reveal/reveal-client.tsx:214-215 | the label has the enum name's length, keeps its upper-case initial and is lower case after it |
| RevealView.CapitalizedRoundTrip | src/components/reveal/reveal-client.tsx:214-215 | upper-casing the capitalized form of an upper-case word gives the word back |
| RevealView.PositionLabelRoundTrip | src/components/reveal/reveal-client.tsx:214-215 | upper-casing a position's label gives its enum name, so no two positions share a label |
| RevealView.GoalkeeperLabel | src/components/reveal/reveal-client.tsx:214-215 | GOALKEEPER is labelled "Goalkeeper" |
| RevealView.SquadStatusCount | src/components/reveal/reveal-client.tsx:173-178 | the picks of a status shown on screen are as many as the server counts |
| RevealView.CompleteTeamRevealsElevenThenBench | src/components/reveal/reveal-client.tsx:194-196 | for a team with at least 11 starters, steps 1 to 11 each show the step-th starter of the ordered list and step 12 shows the bench |
| DraftsView.FirstActive | src/components/drafts/server.tsx:21 | the first ACTIVE team in fetched order, or none exactly when no team is ACTIVE |
| DraftsView.NonActive | src/components/drafts/server.tsx:23-25 | holds the teams that are not ACTIVE, and all of them |
| DraftsView.FormatDrafts | src/components/drafts/server.tsx:21-27 | the first ACTIVE team, when there is one, is followed by the non-active teams in fetched order, so the length is their count plus one; without an ACTIVE team the list is the non-active teams |
| DraftsView.Formatted | src/components/drafts/server.tsx:21-27 | the list has one entry per non-active team plus the ACTIVE team when there is one, which then heads it; with no ACTIVE team no entry is ACTIVE |
| DraftsView.ShowsNoActiveTeam | src/components/drafts/server.tsx:40 | the message condition: the list is empty or no team is ACTIVE (its meaning is NoActiveTeamMessage) |
| DraftsView.NoActiveTeamMessage | src/components/drafts/server.tsx:40-41 | "No active team" is shown exactly when no team is ACTIVE; otherwise the list starts with the ACTIVE team and no later entry is ACTIVE |
| DraftsView.NonActiveMultiset | src/components/drafts/server.tsx:23-25 | the filter keeps every non-active team as often as it occurs and drops every ACTIVE one |
| DraftsView.NonActiveConcat | src/components/drafts/server.tsx:23-25 | the filter keeps the fetched relative order |
| DraftsView.NoTeamTwice | src/components/drafts/server.tsx:23-27 | no team appears twice in the list when none appears twice in the fetched teams |
| DraftsView.OneActiveNothingDropped | src/components/drafts/server.tsx:21-27 | with at most one ACTIVE team the list is a reordering of the fetched teams |
| FplFilter.PriceCap | src/components/drafts/fpl-filter.tsx:81-89 | the top price is between 5.5 and 15, and 15 with no position selected |
| FplFilter.LadderLength | src/components/drafts/fpl-filter.tsx:91 | the floor formula gives exactly the cap counted in half-units |
| FplFilter.MaxPriceOpts | src/components/drafts/fpl-filter.tsx:78-97 | the ladder has as many options as the cap has half-units; it starts at the cap (5.5, 12.5, 7 or 15), descends by 0.5 and ends at 0.5, so every option is positive |
| FplFilter.LadderCoversPrices | src/components/drafts/fpl-filter.tsx:93 | a price is offered exactly when it is between 0.5 and the cap, and it sits at the position its distance from the cap gives |
| FplFilter.FilterState.constructor | src/atom/index.ts:5-6 | the filter starts with no position and a max price of 15, an option of the ladder |
| FplFilter.FilterState.HandlePositionChange | src/components/drafts/fpl-filter.tsx:58-76 | "UNDEFINED" clears the position and a position name selects it; the max price becomes the first option of the new ladder |
| FplFilter.FilterState.SelectMaxPrice | src/components/drafts/fpl-filter.tsx:153-157 | choosing an option of the ladder keeps the position and keeps the max price among the offered options |
| TeamSelection.PriceFold | src/components/drafts/fpl-team-selection.tsx:16-18 | the fold adds the sum of the prices to its start value |
| TeamSelection.BudgetLeft | src/components/drafts/fpl-team-selection.tsx:14-18 | the budget left is 100.0 minus the sum of the prices, and 100.0 for an empty team |
| TeamSelection.SquadShort | src/components/drafts/fpl-team-selection.tsx:35 | the count badge condition, fewer than 15 picks (its meaning for a stored team is CountBadgeClearsWhenFull) |
| TeamSelection.OverBudget | src/components/drafts/fpl-team-selection.tsx:45 | the budget badge condition, a negative budget left (its meaning is OverBudgetMeansOverspent) |
| TeamSelection.PriceSumIgnoresOrder | src/components/drafts/fpl-team-selection.tsx:16-18 | two orderings of the same picks have the same price sum |
| TeamSelection.OverBudgetMeansOverspent | src/components/drafts/fpl-team-selection.tsx:45 | the budget badge is flagged exactly when the prices add up to more than 100.0 |
| TeamSelection.BudgetIgnoresOrder | src/components/drafts/fpl-team-selection.tsx:16-18 | two orderings of the same picks leave the same budget |
| TeamSelection.CountBadgeClearsWhenFull | src/components/drafts/fpl-team-selection.tsx:35-38 | for a team of a store within its caps, at most 15 picks are shown, and the count badge is clear exactly when every position is at its cap |
| FplField.EmptySlots | src/components/drafts/fpl-field.tsx:22-23 | placeholders plus picks make the capacity while the picks fit, and no placeholder is drawn once they fill it |
| FplField.RowOf | src/components/drafts/fpl-field.tsx:33-35 | a row draws cards only for picks of its position |
| FplField.FieldShowsEveryPickOnce | src/components/drafts/fpl-field.tsx:13-91 | across the four rows every pick gets exactly one card |
| FplField.RowCapacity | src/components/drafts/fpl-field.tsx:22-87 | the row capacities 2/5/5/3 are the server's position caps |
| FplField.Field | src/components/drafts/fpl-field.tsx:12-91 | four rows, goalkeepers, defenders, midfielders, forwards, each the row of its position |
| FplField.SquadPositionCount | src/components/drafts/fpl-field.tsx:13 | the cards in a position's row are as many as the server counts for that position |
| FplField.StoredTeamRowsExact | src/components/drafts/fpl-field.tsx:22-91 | for a team within its caps, each row's placeholders plus cards equal its capacity |

## Left out

- RevealView.Capitalized: lower-cases ASCII letters only, where `toLowerCase` also lowers other scripts; the source applies it only to the four ASCII position names.
- Store.Database.constructor: the empty starting store is the model's own initial state; no source line builds a store.
- FplRouter.CreateDraft: the 300-character name limit counts Dafny characters, while the input schema counts UTF-16 code units; a name with characters outside the Basic Multilingual Plane can be refused by the source (say 200 such characters, 400 code units) and accepted by the model.
- Reveal timers, sound and the `timerStarted` guard (reveal-client.tsx): timing, not logic. The reveal step counter is an input of `RevealView.ActivePlayer`.
- The away side of the reveal screen (reveal-client.tsx:304-348) is the same code as the home side. One set of functions models both; the image sizes are left out.
- Form dialogs and their "fill all fields" checks, file upload and the club procedures: user-interface wrappers around remote calls.
- Captain, vice-captain and substitute toggling: those procedures are not in the routers.
- The 3-players-per-club rule and the budget are not enforced on the server, so the store invariant does not include them.
- The email format check of `createReveal`'s input schema is not modelled. A missing session email is not modelled either.
- Authentication, redirects, the ORM, the RPC layer and serialisation are plumbing. The session's user is a parameter.
- Concurrency: procedures run one at a time. The source's read-check-insert is not atomic; the model makes no claim about races.
- Floating point: prices are exact integers in tenths or half-units. The `toFixed(1)` labels of the budget badge and the price options are not modelled.
- Row ordering by `createdAt` on the drafts page: the fetched order is an input of `DraftsView`.
- Deletion cascades and the match and club tables beyond insertion are not part of this model.
- FplFilter.FilterState.HandlePositionChange: requires the value to be "UNDEFINED" or a position name, the only values the position select offers (fpl-filter.tsx:139-146). Another string would be stored as the position unchecked and would leave the max price unchanged.
- FplField.FieldCardOf and RevealView.RevealScreen are display records without contracts. The pitch's placeholder cards carry only their index and position, which the model reduces to a count.
