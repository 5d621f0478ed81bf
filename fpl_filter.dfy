/** The player filter of the team picker (src/components/drafts/fpl-filter.tsx
    with its state in src/atom/index.ts). Prices are counted in half-units
    (0.5 = 1, 15.0 = 30): every price the filter offers is a multiple of 0.5. */
module FplFilter {
  import opened Domain

  /** The highest price offered for a position, in half-units: 5.5 for
      goalkeepers, 12.5 for midfielders, 7 for defenders and 15 otherwise,
      with or without a position. */
  function PriceCap(position: Option<Position>): (halves: nat)
    ensures 11 <= halves <= 30
    ensures position.None? ==> halves == 30
  {
    match position
    case Some(Goalkeeper) => 11
    case Some(Midfielder) => 25
    case Some(Defender) => 14
    case _ => 30
  }

  /** `Math.floor((optCount - 0.5) * 2) + 1` for a cap given in half-units. */
  function LadderLength(capHalves: nat): (length: int)
    ensures capHalves >= 1 ==> length == capHalves
  {
    var optCount := capHalves as real / 2.0;
    ((optCount - 0.5) * 2.0).Floor + 1
  }

  /** `getMaxPriceOpts`: the max-price options, from the cap down in steps of
      0.5. */
  function MaxPriceOpts(position: Option<Position>): (opts: seq<nat>)
    ensures |opts| == PriceCap(position) && opts[0] == PriceCap(position)
    ensures opts[|opts| - 1] == 1
    ensures forall k :: 0 <= k < |opts| ==> opts[k] > 0
    ensures forall k :: 0 <= k < |opts| - 1 ==> opts[k + 1] + 1 == opts[k]
  {
    var cap := PriceCap(position);
    var length := LadderLength(cap);
    seq(length, i requires 0 <= i < length => cap - i)
  }

  /** The ladder holds every half-unit price from 0.5 up to the cap, once. */
  lemma LadderCoversPrices(position: Option<Position>, price: nat)
    ensures price in MaxPriceOpts(position) <==> 1 <= price <= PriceCap(position)
    ensures price in MaxPriceOpts(position) ==> MaxPriceOpts(position)[PriceCap(position) - price] == price
  {
    var opts := MaxPriceOpts(position);
    var cap := PriceCap(position);
    assert forall k :: 0 <= k < |opts| ==> opts[k] == cap - k by {
      forall k | 0 <= k < |opts| ensures opts[k] == cap - k {
        LadderStep(opts, cap, k);
      }
    }
    if 1 <= price <= cap {
      assert opts[cap - price] == price;
    }
  }

  lemma {:induction false} LadderStep(opts: seq<nat>, cap: nat, k: nat)
    requires |opts| > 0 && opts[0] == cap
    requires forall j :: 0 <= j < |opts| - 1 ==> opts[j + 1] + 1 == opts[j]
    requires k < |opts|
    ensures opts[k] == cap - k
  {
    if k > 0 {
      LadderStep(opts, cap, k - 1);
    }
  }

  /** The filter's position and max-price state. */
  class FilterState {
    var position: Option<Position>
    /** In half-units. */
    var maxPrice: nat

    /** What the constructor and every method establish: the max price is one
        of the options offered for the position. */
    ghost predicate Valid()
      reads this
    {
      maxPrice in MaxPriceOpts(position)
    }

    /** No position and a max price of 15. */
    constructor ()
      ensures Valid()
      ensures position == None && maxPrice == 30
    {
      position := None;
      maxPrice := 30;
    }

    /** `handlePositionChange`: "UNDEFINED" clears the position, a position
        name selects it; the max price is reset to the new ladder's top. */
    method HandlePositionChange(val: string)
      requires val == "UNDEFINED" || PositionFromName(val).Some?
      modifies this
      ensures Valid()
      ensures position == (if val == "UNDEFINED" then None else PositionFromName(val))
      ensures maxPrice == MaxPriceOpts(position)[0]
    {
      position := if val == "UNDEFINED" then None else PositionFromName(val);
      if val == "UNDEFINED" {
        maxPrice := 30;
      }
      if val == "GOALKEEPER" {
        maxPrice := 11;
      } else if val == "MIDFIELDER" {
        maxPrice := 25;
      } else if val == "DEFENDER" {
        maxPrice := 14;
      } else if val == "FORWARD" {
        maxPrice := 30;
      }
    }

    /** The max-cost select: picks the k-th option of the current ladder. */
    method SelectMaxPrice(k: nat)
      requires k < |MaxPriceOpts(position)|
      modifies this
      ensures Valid()
      ensures position == old(position) && maxPrice == MaxPriceOpts(position)[k]
    {
      maxPrice := MaxPriceOpts(position)[k];
    }
  }
}
