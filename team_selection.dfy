/** The budget and squad-size indicators of the team picker
    (src/components/drafts/fpl-team-selection.tsx). Prices are counted in
    tenths (0.1 = 1), so the budget of 100.0 is 1000. */
module TeamSelection {
  import opened Domain
  import opened Roster

  /** The budget of a team, in tenths. */
  const Budget := 1000
  /** The squad size the picker asks for. */
  const TargetSquadSize := 15

  /** The sum of the prices, as a reference: one price, then the rest. */
  function PriceSum(squad: seq<SquadEntry>): nat
  {
    if squad == [] then 0 else squad[0].player.price + PriceSum(squad[1..])
  }

  /** `reduce((acc, player) => acc + player.player.price, acc)`: a left fold
      from an accumulator. */
  function PriceFold(squad: seq<SquadEntry>, acc: int): (total: int)
    ensures total == acc + PriceSum(squad)
  {
    if squad == [] then acc else PriceFold(squad[1..], acc + squad[0].player.price)
  }

  /** `budgetLeft`: the budget minus the fold from 0. */
  function BudgetLeft(squad: seq<SquadEntry>): (left: int)
    ensures left == Budget - PriceSum(squad)
    ensures squad == [] ==> left == Budget
  {
    Budget - PriceFold(squad, 0)
  }

  /** The player count badge is flagged while the squad is short of 15. */
  predicate SquadShort(squad: seq<SquadEntry>)
  {
    |squad| < TargetSquadSize
  }

  /** The budget badge is flagged once the budget is overspent. */
  predicate OverBudget(squad: seq<SquadEntry>)
  {
    BudgetLeft(squad) < 0
  }

  lemma OverBudgetMeansOverspent(squad: seq<SquadEntry>)
    ensures OverBudget(squad) <==> PriceSum(squad) > Budget
  {
  }

  lemma {:induction false} PriceSumConcat(a: seq<SquadEntry>, b: seq<SquadEntry>)
    ensures PriceSum(a + b) == PriceSum(a) + PriceSum(b)
  {
    if a != [] {
      assert (a + b)[1..] == a[1..] + b;
      PriceSumConcat(a[1..], b);
    } else {
      assert a + b == b;
    }
  }

  lemma PriceSumSplit(before: seq<SquadEntry>, x: SquadEntry, after: seq<SquadEntry>)
    ensures PriceSum(before + [x] + after) == x.player.price + PriceSum(before + after)
  {
    PriceSumConcat(before + [x], after);
    PriceSumConcat(before, [x]);
    PriceSumConcat(before, after);
    assert [x][1..] == [];
  }

  /** The sum of the prices does not depend on their order. */
  lemma {:induction false} PriceSumIgnoresOrder(a: seq<SquadEntry>, b: seq<SquadEntry>)
    requires multiset(a) == multiset(b)
    ensures PriceSum(a) == PriceSum(b)
    decreases |a|
  {
    if a != [] {
      var i := PermutationPeel(a, b);
      PriceSumIgnoresOrder(a[1..], b[..i] + b[i + 1..]);
      assert b == b[..i] + [a[0]] + b[i + 1..];
      PriceSumSplit(b[..i], a[0], b[i + 1..]);
    } else {
      assert |multiset(b)| == 0;
    }
  }

  /** The first element of a sequence sits somewhere in any reordering of it,
      and the rests are reorderings of each other. */
  lemma PermutationPeel<T>(a: seq<T>, b: seq<T>) returns (i: nat)
    requires a != [] && multiset(a) == multiset(b)
    ensures i < |b| && b[i] == a[0]
    ensures multiset(a[1..]) == multiset(b[..i] + b[i + 1..])
  {
    assert a == [a[0]] + a[1..];
    assert a[0] in multiset(b) by {
      assert a[0] in multiset(a);
    }
    i :| 0 <= i < |b| && b[i] == a[0];
    assert RemoveAt(b, i) == b[..i] + b[i + 1..];
    assert multiset(a[1..]) == multiset(a) - multiset{a[0]};
  }

  /** The budget does not depend on the order of the picks. */
  lemma BudgetIgnoresOrder(a: seq<SquadEntry>, b: seq<SquadEntry>)
    requires multiset(a) == multiset(b)
    ensures BudgetLeft(a) == BudgetLeft(b)
  {
    PriceSumIgnoresOrder(a, b);
  }

  /** For a team of a store whose per-position caps hold, the count badge
      shows at most 15 and is clear exactly when every position is at its cap. */
  lemma CountBadgeClearsWhenFull(entries: seq<FplPlayer>, catalogue: map<nat, Player>, teamId: nat)
    requires Catalogued(entries, catalogue)
    requires forall p :: Count(entries, catalogue, teamId, AtPosition(p)) <= MaxPlayersForPosition(p)
    ensures |TeamSquad(entries, catalogue, teamId)| <= TargetSquadSize
    ensures !SquadShort(TeamSquad(entries, catalogue, teamId)) <==> Full(entries, catalogue, teamId)
  {
    TeamSquadSize(entries, catalogue, teamId);
    assert Count(entries, catalogue, teamId, AtPosition(Goalkeeper)) <= 2;
    assert Count(entries, catalogue, teamId, AtPosition(Defender)) <= 5;
    assert Count(entries, catalogue, teamId, AtPosition(Midfielder)) <= 5;
    assert Count(entries, catalogue, teamId, AtPosition(Forward)) <= 3;
  }
}
