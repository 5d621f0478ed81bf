/** Position bucketing (src/lib/utils.ts): `getCategorizedPlayers` and
    `getCategorizedFplPlayers` start from four empty buckets and push every
    element, in input order, onto the bucket of its position. Both are the
    one generic `Categorize`, given how to read an element's position. */
module Categorize {
  import opened Domain

  /** One bucket per position; all four always exist. */
  datatype Buckets<T> = Buckets(goalkeeper: seq<T>, defender: seq<T>, midfielder: seq<T>, forward: seq<T>)
  {
    function Get(p: Position): seq<T>
    {
      match p
      case Goalkeeper => goalkeeper
      case Defender => defender
      case Midfielder => midfielder
      case Forward => forward
    }

    /** `push` onto the bucket of position p. */
    function Push(p: Position, x: T): (b: Buckets<T>)
      ensures b.Get(p) == Get(p) + [x]
      ensures forall q :: q != p ==> b.Get(q) == Get(q)
    {
      match p
      case Goalkeeper => this.(goalkeeper := goalkeeper + [x])
      case Defender => this.(defender := defender + [x])
      case Midfielder => this.(midfielder := midfielder + [x])
      case Forward => this.(forward := forward + [x])
    }
  }

  /** The elements of xs at position p, in input order: the specification of
      one bucket. */
  function OfPosition<T>(xs: seq<T>, pos: T -> Position, p: Position): (r: seq<T>)
    ensures |r| <= |xs|
    ensures forall k :: 0 <= k < |r| ==> r[k] in xs && pos(r[k]) == p
    ensures forall k :: 0 <= k < |xs| && pos(xs[k]) == p ==> xs[k] in r
  {
    if xs == [] then []
    else
      OfPosition(xs[..|xs| - 1], pos, p)
      + (if pos(xs[|xs| - 1]) == p then [xs[|xs| - 1]] else [])
  }

  lemma OfPositionSnoc<T>(xs: seq<T>, x: T, pos: T -> Position, p: Position)
    ensures OfPosition(xs + [x], pos, p) == OfPosition(xs, pos, p) + (if pos(x) == p then [x] else [])
  {
    assert (xs + [x])[..|xs|] == xs;
  }

  /** Bucketing by a loop of pushes yields, for every position, exactly the
      input filtered by that position. */
  method Categorize<T>(xs: seq<T>, pos: T -> Position) returns (b: Buckets<T>)
    ensures forall p :: b.Get(p) == OfPosition(xs, pos, p)
  {
    b := Buckets([], [], [], []);
    var i := 0;
    while i < |xs|
      invariant 0 <= i <= |xs|
      invariant forall p :: b.Get(p) == OfPosition(xs[..i], pos, p)
    {
      forall p ensures OfPosition(xs[..i + 1], pos, p) == OfPosition(xs[..i], pos, p) + (if pos(xs[i]) == p then [xs[i]] else []) {
        assert xs[..i + 1] == xs[..i] + [xs[i]];
        OfPositionSnoc(xs[..i], xs[i], pos, p);
      }
      b := b.Push(pos(xs[i]), xs[i]);
      i := i + 1;
    }
    assert xs[..|xs|] == xs;
  }

  /** `getCategorizedPlayers`: catalogue players by position. */
  method CategorizePlayers(players: seq<Player>) returns (b: Buckets<Player>)
    ensures forall p :: b.Get(p) == OfPosition(players, PlayerPosition, p)
  {
    b := Categorize(players, PlayerPosition);
  }

  /** `getCategorizedFplPlayers`: a team's picks by their player's position. */
  method CategorizeFplPlayers(squad: seq<SquadEntry>) returns (b: Buckets<SquadEntry>)
    ensures forall p :: b.Get(p) == OfPosition(squad, EntryPosition, p)
  {
    b := Categorize(squad, EntryPosition);
  }

  /** The four buckets together hold the input: nothing lost, nothing
      duplicated. */
  lemma BucketsPartition<T>(xs: seq<T>, pos: T -> Position)
    ensures multiset(OfPosition(xs, pos, Goalkeeper)) + multiset(OfPosition(xs, pos, Defender))
          + multiset(OfPosition(xs, pos, Midfielder)) + multiset(OfPosition(xs, pos, Forward))
         == multiset(xs)
  {
    var g, d := multiset(OfPosition(xs, pos, Goalkeeper)), multiset(OfPosition(xs, pos, Defender));
    var m, f := multiset(OfPosition(xs, pos, Midfielder)), multiset(OfPosition(xs, pos, Forward));
    forall t ensures (g + d + m + f)[t] == multiset(xs)[t] {
      BucketCountsAddUp(xs, pos, t);
    }
  }

  lemma BucketCountsAddUp<T>(xs: seq<T>, pos: T -> Position, t: T)
    ensures multiset(OfPosition(xs, pos, Goalkeeper))[t] + multiset(OfPosition(xs, pos, Defender))[t]
          + multiset(OfPosition(xs, pos, Midfielder))[t] + multiset(OfPosition(xs, pos, Forward))[t]
         == multiset(xs)[t]
  {
    BucketCount(xs, pos, Goalkeeper, t);
    BucketCount(xs, pos, Defender, t);
    BucketCount(xs, pos, Midfielder, t);
    BucketCount(xs, pos, Forward, t);
  }

  /** A bucket holds each element of its position as often as the input does,
      and no other element. */
  lemma {:induction false} BucketCount<T>(xs: seq<T>, pos: T -> Position, p: Position, t: T)
    ensures multiset(OfPosition(xs, pos, p))[t] == if pos(t) == p then multiset(xs)[t] else 0
  {
    if xs != [] {
      var init := xs[..|xs| - 1];
      var x := xs[|xs| - 1];
      assert xs == init + [x];
      BucketCount(init, pos, p, t);
      OfPositionSnoc(init, x, pos, p);
      assert multiset(xs)[t] == multiset(init)[t] + multiset([x])[t];
    }
  }

  /** So the bucket sizes add up to the input's length. */
  lemma BucketSizesSum<T>(xs: seq<T>, pos: T -> Position)
    ensures |OfPosition(xs, pos, Goalkeeper)| + |OfPosition(xs, pos, Defender)|
          + |OfPosition(xs, pos, Midfielder)| + |OfPosition(xs, pos, Forward)|
         == |xs|
  {
    BucketsPartition(xs, pos);
    assert |multiset(OfPosition(xs, pos, Goalkeeper))| == |OfPosition(xs, pos, Goalkeeper)|;
    assert |multiset(OfPosition(xs, pos, Defender))| == |OfPosition(xs, pos, Defender)|;
    assert |multiset(OfPosition(xs, pos, Midfielder))| == |OfPosition(xs, pos, Midfielder)|;
    assert |multiset(OfPosition(xs, pos, Forward))| == |OfPosition(xs, pos, Forward)|;
    assert |multiset(xs)| == |xs|;
  }

  /** Where each element of a bucket sits in the input: a strictly increasing
      list of input indices, so a bucket keeps the input's relative order. */
  function OfPositionIndices<T>(xs: seq<T>, pos: T -> Position, p: Position): (idx: seq<nat>)
    ensures |idx| == |OfPosition(xs, pos, p)|
    ensures forall k :: 0 <= k < |idx| ==> idx[k] < |xs| && xs[idx[k]] == OfPosition(xs, pos, p)[k]
    ensures forall k, l :: 0 <= k < l < |idx| ==> idx[k] < idx[l]
  {
    if xs == [] then []
    else
      OfPositionIndices(xs[..|xs| - 1], pos, p)
      + (if pos(xs[|xs| - 1]) == p then [|xs| - 1] else [])
  }
}
