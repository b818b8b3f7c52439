/** Volume pricing: a quantity billed band by band, as the business model computes it. */
module Pricing {

  // ---- bands -----------------------------------------------------------------------------

  /** An amount of units, or no limit to them (Python's `float('inf')`). */
  datatype Extent = Units(units: real) | Endless

  datatype Band = Band(size: Extent, rate: real)

  /** Band sizes are sizes. */
  predicate Sized(bands: seq<Band>) {
    forall i :: 0 <= i < |bands| && bands[i].size.Units? ==> bands[i].size.units >= 0.0
  }

  function Least(q: real, limit: Extent): real {
    if limit.Endless? || q <= limit.units then q else limit.units
  }

  function Most(a: real, b: real): real {
    if a <= b then b else a
  }

  /** Where band `k` starts: the sizes of the bands before it, added up. */
  function Start(bands: seq<Band>, k: nat): Extent
    requires k <= |bands|
  {
    if k == 0 then Units(0.0)
    else
      var before := Start(bands, k - 1);
      var size := bands[k - 1].size;
      if before.Units? && size.Units? then Units(before.units + size.units) else Endless
  }

  /** Of the first `q` units, those that lie below the end of band `i` and not below its start. */
  function InBand(q: real, bands: seq<Band>, i: nat): real
    requires i < |bands|
  {
    Least(q, Start(bands, i + 1)) - Least(q, Start(bands, i))
  }

  function Cost(units: real, rate: real): real {
    units * rate
  }

  /** What the first `k` bands charge for `q` units: each band its own units at its own rate. */
  function PriceTo(q: real, bands: seq<Band>, k: nat): real
    requires k <= |bands|
  {
    if k == 0 then 0.0 else PriceTo(q, bands, k - 1) + Cost(InBand(q, bands, k - 1), bands[k - 1].rate)
  }

  function UnitsTo(q: real, bands: seq<Band>, k: nat): real
    requires k <= |bands|
  {
    if k == 0 then 0.0 else UnitsTo(q, bands, k - 1) + InBand(q, bands, k - 1)
  }

  function Price(q: real, bands: seq<Band>): real {
    PriceTo(q, bands, |bands|)
  }

  /** What `qty` costs when the first `free` units are given away. */
  function Charge(qty: real, bands: seq<Band>, free: real): real {
    Price(Most(0.0, qty - free), bands)
  }

  lemma {:induction false} StartsInOrder(bands: seq<Band>, i: nat, k: nat)
    requires Sized(bands) && i <= k <= |bands|
    ensures Start(bands, i).Units? ==> Start(bands, i).units >= 0.0
    ensures Start(bands, i).Endless? ==> Start(bands, k).Endless?
    ensures Start(bands, k).Units? ==> Start(bands, i).units <= Start(bands, k).units
    decreases k + i
  {
    if i < k {
      StartsInOrder(bands, i, k - 1);
    } else if i > 0 {
      StartsInOrder(bands, i - 1, i - 1);
    }
  }

  // ---- the two loops -----------------------------------------------------------------------

  /** What the loop takes from the units still unbilled is exactly the band's own units. */
  lemma TakesTheBand(q: real, bands: seq<Band>, i: nat)
    requires Sized(bands) && i < |bands| && q >= 0.0
    ensures Least(q - Least(q, Start(bands, i)), bands[i].size) == InBand(q, bands, i)
    ensures InBand(q, bands, i) >= 0.0
  {
    StartsInOrder(bands, i, i + 1);
  }

  /** Once every unit is billed the remaining bands charge nothing. */
  lemma {:induction false} RestChargesNothing(q: real, bands: seq<Band>, i: nat, k: nat)
    requires Sized(bands) && i <= k <= |bands| && Least(q, Start(bands, i)) == q
    ensures PriceTo(q, bands, k) == PriceTo(q, bands, i)
    ensures Least(q, Start(bands, k)) == q
    decreases k
  {
    if i < k {
      RestChargesNothing(q, bands, i, k - 1);
      StartsInOrder(bands, i, k - 1);
      StartsInOrder(bands, k - 1, k);
      assert InBand(q, bands, k - 1) == 0.0;
    }
  }

  lemma NothingBilledYet(q: real, bands: seq<Band>)
    requires q >= 0.0
    ensures PriceTo(q, bands, 0) == 0.0 && Least(q, Start(bands, 0)) == 0.0
  {
  }

  /** One turn of the loop: what it takes, what that costs, and what is left. */
  lemma OneBand(q: real, bands: seq<Band>, i: nat)
    requires Sized(bands) && i < |bands| && q >= 0.0
    ensures var take := Least(q - Least(q, Start(bands, i)), bands[i].size);
      && PriceTo(q, bands, i + 1) == PriceTo(q, bands, i) + Cost(take, bands[i].rate)
      && Least(q, Start(bands, i + 1)) == Least(q, Start(bands, i)) + take
  {
    hide Start, Least;
    TakesTheBand(q, bands, i);
  }

  method Tiered(qty: real, tiers: seq<Band>, free: real) returns (cost: real)
    requires Sized(tiers)
    ensures cost == Charge(qty, tiers, free)
  {
    hide PriceTo, Start, InBand, Sized;
    var q := Most(0.0, qty - free);
    cost := 0.0;
    ghost var all := q;
    NothingBilledYet(all, tiers);
    for i := 0 to |tiers|
      invariant q == all - Least(all, Start(tiers, i))
      invariant cost == PriceTo(all, tiers, i)
    {
      OneBand(all, tiers, i);
      var take := Least(q, tiers[i].size);
      cost := cost + take * tiers[i].rate;
      q := q - take;
      if q <= 0.0 {
        RestChargesNothing(all, tiers, i + 1, |tiers|);
        break;
      }
    }
  }

  // ---- AWS Business Support+ -----------------------------------------------------------------

  const SUPPORT: seq<Band> :=
    [ Band(Units(10000.0), 0.09), Band(Units(70000.0), 0.07),
      Band(Units(170000.0), 0.05), Band(Endless, 0.03)]

  const SUPPORT_FLOOR := 29.0

  /** 9% of the first 10 000, 7% of the next 70 000, 5% of the next 170 000, 3% of the rest. */
  function PublishedFee(sub: real): real {
    var banded :=
      if sub <= 0.0 then 0.0
      else if sub <= 10000.0 then 0.09 * sub
      else if sub <= 80000.0 then 900.0 + 0.07 * (sub - 10000.0)
      else if sub <= 250000.0 then 5800.0 + 0.05 * (sub - 80000.0)
      else 14300.0 + 0.03 * (sub - 250000.0);
    if banded <= 29.0 then 29.0 else banded
  }

  lemma SupportStarts()
    ensures Start(SUPPORT, 0) == Units(0.0) && Start(SUPPORT, 1) == Units(10000.0)
    ensures Start(SUPPORT, 2) == Units(80000.0) && Start(SUPPORT, 3) == Units(250000.0)
    ensures Start(SUPPORT, 4) == Endless
  {
    assert Start(SUPPORT, 1) == Units(0.0 + 10000.0);
    assert Start(SUPPORT, 2) == Units(10000.0 + 70000.0);
    assert Start(SUPPORT, 3) == Units(80000.0 + 170000.0);
  }

  lemma SupportBands(q: real)
    requires q >= 0.0
    ensures InBand(q, SUPPORT, 0) == if q <= 10000.0 then q else 10000.0
    ensures InBand(q, SUPPORT, 1)
         == if q <= 10000.0 then 0.0 else if q <= 80000.0 then q - 10000.0 else 70000.0
    ensures InBand(q, SUPPORT, 2)
         == if q <= 80000.0 then 0.0 else if q <= 250000.0 then q - 80000.0 else 170000.0
    ensures InBand(q, SUPPORT, 3) == if q <= 250000.0 then 0.0 else q - 250000.0
  {
    hide Start;
    SupportStarts();
  }

  lemma SupportSum(q: real)
    ensures Price(q, SUPPORT)
         == InBand(q, SUPPORT, 0) * 0.09 + InBand(q, SUPPORT, 1) * 0.07
            + InBand(q, SUPPORT, 2) * 0.05 + InBand(q, SUPPORT, 3) * 0.03
  {
    hide InBand;
    assert PriceTo(q, SUPPORT, 1) == PriceTo(q, SUPPORT, 0) + Cost(InBand(q, SUPPORT, 0), 0.09);
    assert PriceTo(q, SUPPORT, 2) == PriceTo(q, SUPPORT, 1) + Cost(InBand(q, SUPPORT, 1), 0.07);
    assert PriceTo(q, SUPPORT, 3) == PriceTo(q, SUPPORT, 2) + Cost(InBand(q, SUPPORT, 2), 0.05);
    assert PriceTo(q, SUPPORT, 4) == PriceTo(q, SUPPORT, 3) + Cost(InBand(q, SUPPORT, 3), 0.03);
  }

  /** The fee as it is published, at and between all its edges. */
  lemma FeeIsThePublishedOne(sub: real)
    ensures Most(SUPPORT_FLOOR, Charge(sub, SUPPORT, 0.0)) == PublishedFee(sub)
  {
    hide InBand, Price;
    var q := Most(0.0, sub);
    SupportBands(q);
    SupportSum(q);
  }

  /** Whatever the subtotal, negative ones included: the published fee. */
  method Support(sub: real) returns (fee: real)
    ensures fee == PublishedFee(sub)
  {
    hide PriceTo, Start, InBand;
    var r, q := 0.0, sub;
    ghost var all := Most(0.0, sub);
    NothingBilledYet(all, SUPPORT);
    RestChargesNothing(0.0, SUPPORT, 0, |SUPPORT|);
    for i := 0 to |SUPPORT|
      invariant sub >= 0.0 ==> q == all - Least(all, Start(SUPPORT, i))
      invariant sub >= 0.0 ==> r == PriceTo(all, SUPPORT, i)
      invariant sub < 0.0 ==> i == 0 && r == 0.0 && q == sub
    {
      OneBand(all, SUPPORT, i);
      var t := Least(q, SUPPORT[i].size);
      r := r + t * SUPPORT[i].rate;
      q := q - t;
      if q <= 0.0 {
        if sub >= 0.0 {
          RestChargesNothing(all, SUPPORT, i + 1, |SUPPORT|);
        }
        break;
      }
    }
    fee := Most(SUPPORT_FLOOR, r);
    FeeIsThePublishedOne(sub);
  }

  // ---- every unit at its own rate -------------------------------------------------------------

  /** Where the bands end, one after another. */
  ghost predicate AreEdges(edges: seq<real>, bands: seq<Band>) {
    && 0 < |edges| <= |bands| + 1 && edges[0] == 0.0
    && forall j :: 0 < j < |edges| ==>
         bands[j - 1].size == Units(edges[j] - edges[j - 1])
  }

  lemma {:induction false} StartsAreEdges(edges: seq<real>, bands: seq<Band>, i: nat)
    requires AreEdges(edges, bands) && i < |edges|
    ensures Start(bands, i) == Units(edges[i])
  {
    if i > 0 {
      StartsAreEdges(edges, bands, i - 1);
    }
  }

  /** At or above an edge and not beyond the end of the band that starts there. */
  ghost predicate IsWithin(q: real, edge: real, size: Extent) {
    edge <= q && (size.Units? ==> q <= edge + size.units)
  }

  lemma EndOfBand(bands: seq<Band>, i: nat)
    requires i < |bands| && Start(bands, i).Units?
    ensures Start(bands, i + 1)
         == if bands[i].size.Units? then Units(Start(bands, i).units + bands[i].size.units) else Endless
  {
  }

  /** A band below is full. */
  lemma FullBand(q: real, bands: seq<Band>, k: nat, i: nat)
    requires Sized(bands) && k < i <= |bands| && Start(bands, i).Units? && Start(bands, i).units <= q
    ensures Start(bands, k).Units? && Start(bands, k + 1).Units?
    ensures InBand(q, bands, k) == Start(bands, k + 1).units - Start(bands, k).units
  {
    StartsInOrder(bands, k + 1, i);
    StartsInOrder(bands, k, k + 1);
    hide Start, Sized;
  }

  /** A band above is empty. */
  lemma EmptyBand(q: real, bands: seq<Band>, k: nat, i: nat)
    requires Sized(bands) && i <= k < |bands| && Least(q, Start(bands, i)) == q
    ensures InBand(q, bands, k) == 0.0
  {
    StartsInOrder(bands, i, k);
    StartsInOrder(bands, k, k + 1);
    hide Start, Sized;
  }

  lemma InBandOutside(q: real, r: real, bands: seq<Band>, i: nat, k: nat)
    requires Sized(bands) && i < |bands| && k < |bands| && i != k && Start(bands, i).Units?
    requires IsWithin(q, Start(bands, i).units, bands[i].size)
    requires IsWithin(r, Start(bands, i).units, bands[i].size)
    ensures InBand(q, bands, k) == InBand(r, bands, k)
  {
    hide Start, InBand, Sized;
    EndOfBand(bands, i);
    assert Least(q, Start(bands, i + 1)) == q && Least(r, Start(bands, i + 1)) == r;
    hide Least, IsWithin;
    if k < i {
      FullBand(q, bands, k, i);
      FullBand(r, bands, k, i);
    } else {
      EmptyBand(q, bands, k, i + 1);
      EmptyBand(r, bands, k, i + 1);
    }
  }

  lemma {:induction false} OtherBandsChargeTheSame(
      q: real, r: real, bands: seq<Band>, i: nat, k: nat)
    requires Sized(bands) && i < |bands| && k <= |bands| && Start(bands, i).Units?
    requires IsWithin(q, Start(bands, i).units, bands[i].size)
    requires IsWithin(r, Start(bands, i).units, bands[i].size)
    ensures PriceTo(r, bands, k) - PriceTo(q, bands, k)
         == if k <= i then 0.0
            else Cost(InBand(r, bands, i), bands[i].rate) - Cost(InBand(q, bands, i), bands[i].rate)
    decreases k
  {
    if k > 0 {
      hide InBand, Start, Cost, Sized, IsWithin;
      OtherBandsChargeTheSame(q, r, bands, i, k - 1);
      if k - 1 != i {
        InBandOutside(q, r, bands, i, k - 1);
      }
    }
  }

  /** The units between two quantities of one band cost that band's rate. */
  lemma UnitsCostTheirBandsRate(
      a: real, b: real, bands: seq<Band>, free: real, edges: seq<real>, i: nat)
    requires Sized(bands) && AreEdges(edges, bands) && i < |edges| && i < |bands|
    requires IsWithin(a - free, edges[i], bands[i].size) && IsWithin(b - free, edges[i], bands[i].size)
    ensures Charge(b, bands, free) - Charge(a, bands, free) == (b - a) * bands[i].rate
  {
    hide PriceTo, Cost;
    StartsAreEdges(edges, bands, i);
    StartsInOrder(bands, i, i);
    var q, r := a - free, b - free;
    OtherBandsChargeTheSame(q, r, bands, i, |bands|);
    assert InBand(r, bands, i) - InBand(q, bands, i) == b - a;
    RateOfDifference(InBand(q, bands, i), InBand(r, bands, i), bands[i].rate);
  }

  lemma RateOfDifference(x: real, y: real, rate: real)
    ensures Cost(y, rate) - Cost(x, rate) == (y - x) * rate
  {
  }

  lemma AllowanceIsFree(qty: real, bands: seq<Band>, free: real)
    requires Sized(bands) && qty <= free
    ensures Charge(qty, bands, free) == 0.0
  {
    FreeOfNothing(bands);
  }

  // ---- every unit once -------------------------------------------------------------------------

  /** The bands bill every unit once: all of them when the last band is endless, else up to the end. */
  lemma {:induction false} EveryUnitIsBilledOnce(q: real, bands: seq<Band>, k: nat)
    requires q >= 0.0 && k <= |bands|
    ensures UnitsTo(q, bands, k) == Least(q, Start(bands, k))
    decreases k
  {
    if k > 0 {
      EveryUnitIsBilledOnce(q, bands, k - 1);
    }
  }

  lemma EndlessBillsEverything(q: real, bands: seq<Band>)
    requires q >= 0.0 && bands != [] && bands[|bands| - 1].size.Endless?
    ensures UnitsTo(q, bands, |bands|) == q
  {
    EveryUnitIsBilledOnce(q, bands, |bands|);
  }

  // ---- monotone, and between the extreme rates ---------------------------------------------------

  predicate RatesWithin(bands: seq<Band>, low: real, high: real) {
    forall i :: 0 <= i < |bands| ==> low <= bands[i].rate <= high
  }

  predicate Priced(bands: seq<Band>) {
    forall i :: 0 <= i < |bands| ==> 0.0 <= bands[i].rate
  }

  lemma Scaled(a: real, b: real, rate: real)
    requires a <= b && 0.0 <= rate
    ensures Cost(a, rate) <= Cost(b, rate)
  {
  }

  lemma Rated(units: real, low: real, rate: real, high: real)
    requires 0.0 <= units && low <= rate <= high
    ensures Cost(units, low) <= Cost(units, rate) <= Cost(units, high)
  {
  }

  lemma InBandGrows(a: real, b: real, bands: seq<Band>, i: nat)
    requires Sized(bands) && i < |bands| && a <= b
    ensures InBand(a, bands, i) <= InBand(b, bands, i)
  {
    StartsInOrder(bands, i, i + 1);
  }

  /** More units never cost less. */
  lemma {:induction false} PriceIsMonotone(a: real, b: real, bands: seq<Band>, k: nat)
    requires Sized(bands) && Priced(bands) && a <= b && k <= |bands|
    ensures PriceTo(a, bands, k) <= PriceTo(b, bands, k)
    decreases k
  {
    hide InBand, Start, Sized, Cost;
    if k > 0 {
      PriceIsMonotone(a, b, bands, k - 1);
      InBandGrows(a, b, bands, k - 1);
      Scaled(InBand(a, bands, k - 1), InBand(b, bands, k - 1), bands[k - 1].rate);
    }
  }

  lemma ChargeIsMonotone(a: real, b: real, bands: seq<Band>, free: real)
    requires Sized(bands) && Priced(bands) && a <= b
    ensures Charge(a, bands, free) <= Charge(b, bands, free)
  {
    PriceIsMonotone(Most(0.0, a - free), Most(0.0, b - free), bands, |bands|);
  }

  lemma {:induction false} PriceIsBetweenTheRates(
      q: real, bands: seq<Band>, low: real, high: real, k: nat)
    requires Sized(bands) && q >= 0.0 && k <= |bands| && RatesWithin(bands[..k], low, high)
    ensures Cost(UnitsTo(q, bands, k), low) <= PriceTo(q, bands, k)
    ensures PriceTo(q, bands, k) <= Cost(UnitsTo(q, bands, k), high)
    decreases k
  {
    if k > 0 {
      hide InBand, Start, Sized, Cost;
      assert bands[..k][..k - 1] == bands[..k - 1] && bands[..k][k - 1] == bands[k - 1];
      PriceIsBetweenTheRates(q, bands, low, high, k - 1);
      TakesTheBand(q, bands, k - 1);
      Rated(InBand(q, bands, k - 1), low, bands[k - 1].rate, high);
      Spread(UnitsTo(q, bands, k - 1), InBand(q, bands, k - 1), low);
      Spread(UnitsTo(q, bands, k - 1), InBand(q, bands, k - 1), high);
    }
  }

  lemma Spread(a: real, b: real, rate: real)
    ensures Cost(a + b, rate) == Cost(a, rate) + Cost(b, rate)
  {
  }

  /** With an endless last band and nothing free: between the lowest and the highest rate. */
  lemma ChargeIsBetweenTheRates(q: real, bands: seq<Band>, low: real, high: real)
    requires Sized(bands) && RatesWithin(bands, low, high) && q >= 0.0
    requires bands != [] && bands[|bands| - 1].size.Endless?
    ensures Cost(q, low) <= Charge(q, bands, 0.0) <= Cost(q, high)
  {
    EndlessBillsEverything(q, bands);
    assert bands[..|bands|] == bands;
    PriceIsBetweenTheRates(q, bands, low, high, |bands|);
  }

  // ---- splitting never pays ------------------------------------------------------------------------

  /** Volume discounts: no band is dearer than the one before it. */
  predicate Discounts(bands: seq<Band>) {
    forall i :: 0 <= i < |bands| - 1 ==> bands[i].rate >= bands[i + 1].rate
  }

  /**
   * The same price by layers: each band's mark-up over the next one, paid on every unit from the
   * first up to the band's end.
   */
  function Layers(q: real, bands: seq<Band>, k: nat): real
    requires k < |bands|
  {
    if k == 0 then 0.0
    else Layers(q, bands, k - 1)
         + Cost(Least(q, Start(bands, k)), bands[k - 1].rate - bands[k].rate)
  }

  lemma {:induction false} PriceByLayers(q: real, bands: seq<Band>, k: nat)
    requires q >= 0.0 && k < |bands|
    ensures PriceTo(q, bands, k + 1)
         == Layers(q, bands, k) + Cost(Least(q, Start(bands, k + 1)), bands[k].rate)
    decreases k
  {
    hide Start, Least, Cost;
    if k == 0 {
      NothingBilledYet(q, bands);
    } else {
      PriceByLayers(q, bands, k - 1);
      Regroup(Least(q, Start(bands, k)), Least(q, Start(bands, k + 1)),
              bands[k - 1].rate, bands[k].rate);
    }
  }

  lemma Regroup(start: real, end: real, dear: real, cheap: real)
    ensures Cost(start, dear) + Cost(end - start, cheap) == Cost(start, dear - cheap) + Cost(end, cheap)
  {
  }

  lemma LeastIsSubadditive(a: real, b: real, limit: Extent, markUp: real)
    requires a >= 0.0 && b >= 0.0 && markUp >= 0.0
    requires limit.Units? ==> limit.units >= 0.0
    ensures Cost(Least(a + b, limit), markUp)
         <= Cost(Least(a, limit), markUp) + Cost(Least(b, limit), markUp)
  {
    hide Cost;
    Scaled(Least(a + b, limit), Least(a, limit) + Least(b, limit), markUp);
    Spread(Least(a, limit), Least(b, limit), markUp);
  }

  lemma {:induction false} LayersAreSubadditive(a: real, b: real, bands: seq<Band>, k: nat)
    requires Sized(bands) && Discounts(bands) && a >= 0.0 && b >= 0.0 && k < |bands|
    ensures Layers(a + b, bands, k) <= Layers(a, bands, k) + Layers(b, bands, k)
    decreases k
  {
    if k > 0 {
      hide Start, Least, Cost;
      LayersAreSubadditive(a, b, bands, k - 1);
      StartsInOrder(bands, k, k);
      assert bands[k - 1].rate >= bands[k].rate;
      LeastIsSubadditive(a, b, Start(bands, k), bands[k - 1].rate - bands[k].rate);
    }
  }

  /** With discounts and nothing free, buying in two goes never costs less than in one. */
  lemma SplittingNeverPays(a: real, b: real, bands: seq<Band>)
    requires Sized(bands) && Priced(bands) && Discounts(bands) && a >= 0.0 && b >= 0.0
    ensures Charge(a + b, bands, 0.0) <= Charge(a, bands, 0.0) + Charge(b, bands, 0.0)
  {
    hide Start, Least, PriceTo, Layers, Cost;
    if bands != [] {
      var k := |bands| - 1;
      PriceByLayers(a, bands, k);
      PriceByLayers(b, bands, k);
      PriceByLayers(a + b, bands, k);
      LayersAreSubadditive(a, b, bands, k);
      StartsInOrder(bands, k + 1, k + 1);
      LeastIsSubadditive(a, b, Start(bands, k + 1), bands[k].rate);
    } else {
      NothingBilledYet(a, bands);
      NothingBilledYet(b, bands);
      NothingBilledYet(a + b, bands);
    }
  }

  /** Nothing that has a size has a price. */
  predicate Worthless(bands: seq<Band>) {
    forall i :: 0 <= i < |bands| && bands[i].size != Units(0.0) ==> bands[i].rate == 0.0
  }

  lemma {:induction false} WorthlessCostsNothing(q: real, bands: seq<Band>, k: nat)
    requires Worthless(bands) && q >= 0.0 && k <= |bands|
    ensures PriceTo(q, bands, k) == 0.0
    decreases k
  {
    if k > 0 {
      WorthlessCostsNothing(q, bands, k - 1);
      assert bands[k - 1].size == Units(0.0) || bands[k - 1].rate == 0.0;
    }
  }

  lemma {:induction false} LaterBandsAdd(q: real, bands: seq<Band>, i: nat, k: nat)
    requires Sized(bands) && Priced(bands) && q >= 0.0 && i <= k <= |bands|
    ensures PriceTo(q, bands, i) <= PriceTo(q, bands, k)
    decreases k
  {
    if i < k {
      hide InBand, Start;
      LaterBandsAdd(q, bands, i, k - 1);
      TakesTheBand(q, bands, k - 1);
      Scaled(0.0, InBand(q, bands, k - 1), bands[k - 1].rate);
    }
  }

  lemma {:induction false} DearestFirst(bands: seq<Band>, i: nat, k: nat)
    requires Discounts(bands) && i <= k < |bands|
    ensures bands[i].rate >= bands[k].rate
    decreases k
  {
    if i < k {
      DearestFirst(bands, i, k - 1);
      assert bands[k - 1].rate >= bands[k - 1 + 1].rate;
    }
  }

  /** With discounts, a priced band of some size makes every purchase cost something. */
  lemma SomethingCosts(q: real, bands: seq<Band>, i: nat)
    requires Sized(bands) && Priced(bands) && Discounts(bands) && q > 0.0
    requires i < |bands| && bands[i].size != Units(0.0) && bands[i].rate > 0.0
    ensures Charge(q, bands, 0.0) > 0.0
  {
    var low, high := bands[i].rate, bands[0].rate;
    forall j | 0 <= j <= i ensures low <= bands[j].rate <= high {
      DearestFirst(bands, j, i);
      DearestFirst(bands, 0, j);
    }
    StartsInOrder(bands, i, i + 1);
    assert Least(q, Start(bands, i + 1)) > 0.0;
    EveryUnitIsBilledOnce(q, bands, i + 1);
    hide Start, Least, PriceTo, UnitsTo;
    PriceIsBetweenTheRates(q, bands, low, high, i + 1);
    Positive(UnitsTo(q, bands, i + 1), low);
    LaterBandsAdd(q, bands, i + 1, |bands|);
  }

  lemma Positive(units: real, rate: real)
    requires units > 0.0 && rate > 0.0
    ensures Cost(units, rate) > 0.0
  {
  }

  /** No split, into any two purchases, comes cheaper. */
  ghost predicate NeverRewardsSplitting(bands: seq<Band>, free: real) {
    forall a, b :: a >= 0.0 && b >= 0.0 ==>
      Charge(a + b, bands, free) <= Charge(a, bands, free) + Charge(b, bands, free)
  }

  /**
   * A free allowance undoes that, exactly when anything costs anything: splitting still never pays
   * only if no band of any size has a price. Where one has, the allowance bought twice is free and
   * bought at once it is not.
   */
  lemma AllowanceRewardsSplitting(bands: seq<Band>, free: real)
    requires Sized(bands) && Priced(bands) && Discounts(bands) && free > 0.0
    ensures NeverRewardsSplitting(bands, free) <==> Worthless(bands)
    ensures Charge(free, bands, 0.0) == 0.0 <==> Worthless(bands)
    ensures !Worthless(bands) ==>
      Charge(free, bands, free) + Charge(free, bands, free) < Charge(free + free, bands, free)
  {
    hide Price, Start, InBand;
    if Worthless(bands) {
      forall q | q >= 0.0 ensures Price(q, bands) == 0.0 {
        FreeOfCharge(q, bands);
      }
    } else {
      var i :| 0 <= i < |bands| && bands[i].size != Units(0.0) && bands[i].rate != 0.0;
      SomethingCosts(free, bands, i);
      FreeOfNothing(bands);
      assert Charge(free, bands, free) == 0.0;
      assert Charge(free + free, bands, free) > Charge(free, bands, free) + Charge(free, bands, free);
    }
  }

  lemma FreeOfCharge(q: real, bands: seq<Band>)
    requires Worthless(bands) && q >= 0.0
    ensures Price(q, bands) == 0.0
  {
    WorthlessCostsNothing(q, bands, |bands|);
  }

  lemma FreeOfNothing(bands: seq<Band>)
    requires Sized(bands)
    ensures Price(0.0, bands) == 0.0
  {
    NothingBilledYet(0.0, bands);
    RestChargesNothing(0.0, bands, 0, |bands|);
  }

  /** The support fee: never under its floor, monotone, at most 9%, and no cheaper for split accounts. */
  lemma SupportFee(a: real, b: real)
    requires a >= 0.0 && b >= 0.0
    ensures 0.03 * a <= PublishedFee(a)
    ensures 29.0 <= PublishedFee(a) && (PublishedFee(a) > 29.0 ==> PublishedFee(a) <= 0.09 * a)
    ensures a <= b ==> PublishedFee(a) <= PublishedFee(b)
    ensures PublishedFee(a + b) <= PublishedFee(a) + PublishedFee(b)
  {
    hide Charge, PublishedFee;
    FeeIsThePublishedOne(a);
    FeeIsThePublishedOne(b);
    FeeIsThePublishedOne(a + b);
    ChargeIsBetweenTheRates(a, SUPPORT, 0.03, 0.09);
    if a <= b {
      ChargeIsMonotone(a, b, SUPPORT, 0.0);
    }
    SplittingNeverPays(a, b, SUPPORT);
  }
}
